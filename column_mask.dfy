/** One braille dot column: three dots, each raised or not, so 8 patterns
    over the alphabet {false, true}. A mask is a strip of bools slid along
    the column; it is complete when each of the 8 patterns appears in it as
    three consecutive dots. */
module ColumnMask {
  import opened Windows

  const Width: nat := 3
  const PatternCount: nat := 8

  function Pow2(e: nat): (r: nat)
    ensures r >= 1
  {
    if e == 0 then 1 else 2 * Pow2(e - 1)
  }

  // ---------------------------------------------------------------------
  // Integer <-> bool-list codec (most significant bit first)
  // ---------------------------------------------------------------------

  /** The digits of Python's `bin(n)` without its "0b" prefix: no leading
      zero, and a single zero digit for 0. */
  function BinaryDigits(n: nat): (r: seq<bool>)
    ensures |r| >= 1
  {
    if n < 2 then [n == 1] else BinaryDigits(n / 2) + [n % 2 == 1]
  }

  /** `str.zfill`: pad on the left with zeros up to `width`; a longer
      string is left as it is. */
  function ZeroFill(bits: seq<bool>, width: nat): (r: seq<bool>)
  {
    if |bits| >= width then bits else seq(width - |bits|, _ => false) + bits
  }

  /** Padding only adds zeros on the left, up to `width`. */
  lemma ZeroFillShape(bits: seq<bool>, width: nat)
    ensures var r := ZeroFill(bits, width);
      |r| == (if |bits| >= width then |bits| else width) &&
      r[|r| - |bits|..] == bits &&
      forall i :: 0 <= i < |r| - |bits| ==> !r[i]
  {
  }

  /** Reads a bool list as a binary number, most significant bit first. */
  function BitsValue(bits: seq<bool>): nat
  {
    if bits == [] then 0
    else 2 * BitsValue(bits[..|bits| - 1]) + (if bits[|bits| - 1] then 1 else 0)
  }

  /** `int_to_bool_array(n, bit_length)`. A bit length of 0 stands for
      Python's `None` and for 0 itself: both are falsy, so no padding is
      done. */
  function IntToBoolArray(n: nat, bitLength: nat): (r: seq<bool>)
    ensures BitsValue(r) == n
    ensures 0 < bitLength && n < Pow2(bitLength) ==> |r| == bitLength
  {
    BinaryDigitsValue(n);
    ZeroFillValue(BinaryDigits(n), bitLength);
    ZeroFillLength(n, bitLength);
    if bitLength > 0 then ZeroFill(BinaryDigits(n), bitLength) else BinaryDigits(n)
  }

  /** Without a bit length nothing is padded: 0 is the single digit
      false, and a positive n starts with a one and has as many digits as
      its bit length, the L with 2^(L-1) <= n < 2^L. */
  lemma UnpaddedEncoding(n: nat)
    ensures var r := IntToBoolArray(n, 0);
      (n == 0 ==> r == [false]) &&
      (n > 0 ==> r[0] && Pow2(|r| - 1) <= n < Pow2(|r|))
  {
    BinaryDigitsLength(n);
  }

  /** Padding to a width that can hold n gives exactly that width. */
  lemma ZeroFillLength(n: nat, width: nat)
    ensures n < Pow2(width) ==> |ZeroFill(BinaryDigits(n), width)| == width || width == 0
  {
    if 0 < width && n < Pow2(width) {
      BinaryDigitsLength(n);
      if n > 0 { Pow2Monotone(|BinaryDigits(n)| - 1, width); }
    }
  }

  lemma {:induction false} BinaryDigitsValue(n: nat)
    ensures BitsValue(BinaryDigits(n)) == n
  {
    if n >= 2 {
      var d := BinaryDigits(n);
      assert d[..|d| - 1] == BinaryDigits(n / 2);
      BinaryDigitsValue(n / 2);
    }
  }

  /** Without padding the result is exactly as long as the bit length of
      n: its first digit is a one, and n lies in [2^(len-1), 2^len). */
  lemma {:induction false} BinaryDigitsLength(n: nat)
    ensures var d := BinaryDigits(n);
      (n == 0 ==> d == [false]) &&
      (n > 0 ==> d[0] && Pow2(|d| - 1) <= n < Pow2(|d|))
  {
    if n >= 2 {
      BinaryDigitsLength(n / 2);
      var d := BinaryDigits(n);
      assert d[0] == BinaryDigits(n / 2)[0];
    }
  }

  lemma {:induction false} Pow2Monotone(a: nat, b: nat)
    requires a < b
    ensures Pow2(a) < Pow2(b)
    decreases b
  {
    if a + 1 < b { Pow2Monotone(a, b - 1); }
  }

  /** Leading zeros do not change the value. */
  lemma {:induction false} LeadingZerosValue(z: nat, bits: seq<bool>)
    ensures BitsValue(seq(z, _ => false) + bits) == BitsValue(bits)
    decreases |bits|, z
  {
    var s := seq(z, _ => false) + bits;
    if bits == [] {
      if z > 0 {
        assert s[..|s| - 1] == seq(z - 1, _ => false) + [];
        LeadingZerosValue(z - 1, []);
      }
    } else {
      assert s[..|s| - 1] == seq(z, _ => false) + bits[..|bits| - 1];
      LeadingZerosValue(z, bits[..|bits| - 1]);
    }
  }

  lemma ZeroFillValue(bits: seq<bool>, width: nat)
    ensures BitsValue(ZeroFill(bits, width)) == BitsValue(bits)
  {
    if |bits| < width { LeadingZerosValue(width - |bits|, bits); }
  }

  /** A bool list of length w reads as a number below 2^w. */
  lemma {:induction false} BitsValueBound(bits: seq<bool>)
    ensures BitsValue(bits) < Pow2(|bits|)
  {
    if bits != [] { BitsValueBound(bits[..|bits| - 1]); }
  }

  /** Two lists of one length with one value are the same list. */
  lemma {:induction false} BitsValueInjective(a: seq<bool>, b: seq<bool>)
    requires |a| == |b| && BitsValue(a) == BitsValue(b)
    ensures a == b
  {
    if a != [] {
      var n := |a|;
      assert a[n - 1] == b[n - 1];
      BitsValueInjective(a[..n - 1], b[..n - 1]);
      assert a == a[..n - 1] + [a[n - 1]];
      assert b == b[..n - 1] + [b[n - 1]];
    }
  }

  /** Encoding the value of a non-empty bool list at its own length gives
      the list back, so every list of length w is the encoding of exactly
      one number below 2^w. */
  lemma EncodeDecode(bits: seq<bool>)
    requires |bits| > 0
    ensures IntToBoolArray(BitsValue(bits), |bits|) == bits
  {
    BitsValueBound(bits);
    BitsValueInjective(IntToBoolArray(BitsValue(bits), |bits|), bits);
  }

  // ---------------------------------------------------------------------
  // Patterns and completeness
  // ---------------------------------------------------------------------

  /** The i-th column pattern, as the checker builds it. */
  function Pattern(i: nat): (p: seq<bool>)
    requires i < PatternCount
    ensures |p| == Width && BitsValue(p) == i
  {
    IntToBoolArray(i, Width)
  }

  /** Every one of the 8 patterns is some three-dot window of the mask. */
  ghost predicate IsComplete(mask: seq<bool>) {
    forall i :: 0 <= i < PatternCount ==> Occurs(mask, Pattern(i))
  }

  /** `is_complete_mask`: for each pattern, scan the windows that start at
      0 .. len(mask) - 3 and give up on the first pattern not found. */
  method IsCompleteMask(mask: seq<bool>) returns (complete: bool)
    ensures complete == IsComplete(mask)
  {
    var i := 0;
    while i < PatternCount
      invariant 0 <= i <= PatternCount
      invariant forall j :: 0 <= j < i ==> Occurs(mask, Pattern(j))
    {
      var pattern := Pattern(i);
      var foundPattern := false;
      var start := 0;
      while start < |mask| - 2
        invariant 0 <= start
        invariant forall s :: 0 <= s < start ==> !OccursAt(mask, pattern, s)
      {
        if mask[start..start + 3] == pattern {
          assert OccursAt(mask, pattern, start);
          foundPattern := true;
          break;
        }
        start := start + 1;
      }
      if !foundPattern {
        assert !Occurs(mask, pattern);
        return false;
      }
      i := i + 1;
    }
    return true;
  }

  /** The 8 patterns are pairwise different. */
  lemma PatternsDistinct()
    ensures AllDistinct(seq(PatternCount, i requires 0 <= i < PatternCount => Pattern(i)))
  {
  }

  /** No mask shorter than 10 is complete: 8 different patterns need 8
      different start offsets, and a mask of length L has L - 2 of them. */
  lemma CompleteNeedsTen(mask: seq<bool>)
    requires IsComplete(mask)
    ensures |mask| >= 10
  {
    var pats := seq(PatternCount, i requires 0 <= i < PatternCount => Pattern(i));
    PatternsDistinct();
    LowerBound(mask, pats, Width);
  }

  // ---------------------------------------------------------------------
  // The naive mask
  // ---------------------------------------------------------------------

  /** `make_naive_mask`: the encodings of 0 .. 7 one after the other. */
  method MakeNaiveMask() returns (mask: seq<bool>)
    ensures |mask| == 24
    ensures forall i :: 0 <= i < PatternCount ==> mask[3 * i..3 * i + 3] == Pattern(i)
    ensures IsComplete(mask)
  {
    mask := [];
    for i := 0 to PatternCount
      invariant |mask| == 3 * i
      invariant forall j :: 0 <= j < i ==> mask[3 * j..3 * j + 3] == Pattern(j)
    {
      var pattern := Pattern(i);
      ghost var before := mask;
      mask := mask + pattern;
      forall j | 0 <= j < i + 1 ensures mask[3 * j..3 * j + 3] == Pattern(j) {
        if j < i {
          assert mask[3 * j..3 * j + 3] == before[3 * j..3 * j + 3];
        } else {
          assert mask[3 * j..3 * j + 3] == pattern;
        }
      }
    }
    forall i | 0 <= i < PatternCount ensures Occurs(mask, Pattern(i)) {
      assert OccursAt(mask, Pattern(i), 3 * i);
    }
  }

  /** Any three consecutive dots form the pattern whose number they
      encode, so every window of a mask is one of the 8 patterns. */
  lemma WindowIsPattern(mask: seq<bool>, s: nat)
    requires s + Width <= |mask|
    ensures BitsValue(mask[s..s + Width]) < PatternCount
    ensures OccursAt(mask, Pattern(BitsValue(mask[s..s + Width])), s)
  {
    BitsValueBound(mask[s..s + Width]);
    EncodeDecode(mask[s..s + Width]);
  }

  /** The value of three dots, most significant first. */
  lemma BitsValueOfThree(x: bool, y: bool, z: bool)
    ensures BitsValue([x, y, z]) ==
      4 * (if x then 1 else 0) + 2 * (if y then 1 else 0) + (if z then 1 else 0)
  {
    var b := (v: bool) => if v then 1 else 0;
    assert [x][..0] == [];
    assert BitsValue([x]) == b(x);
    assert [x, y][..1] == [x];
    assert BitsValue([x, y]) == 2 * b(x) + b(y);
    assert [x, y, z][..2] == [x, y];
  }

  /** The window of three dots at offset s is the pattern numbered v. */
  lemma WindowAt(mask: seq<bool>, s: nat, v: nat)
    requires s + Width <= |mask| && v < PatternCount
    requires 4 * (if mask[s] then 1 else 0) + 2 * (if mask[s + 1] then 1 else 0)
      + (if mask[s + 2] then 1 else 0) == v
    ensures Occurs(mask, Pattern(v))
  {
    assert mask[s..s + Width] == [mask[s], mask[s + 1], mask[s + 2]];
    BitsValueOfThree(mask[s], mask[s + 1], mask[s + 2]);
    WindowIsPattern(mask, s);
  }

  /** A complete mask of length 10, so the bound of CompleteNeedsTen is
      reached. */
  lemma ShortestCompleteWitness()
    ensures IsComplete(ShortestMask)
  {
    ShortestMaskLow();
    ShortestMaskHigh();
  }

  /** The complete mask 0001011100. */
  const ShortestMask: seq<bool> := [false, false, false, true, false, true, true, true, false, false]

  lemma ShortestMaskLow()
    ensures forall v :: 0 <= v < 4 ==> Occurs(ShortestMask, Pattern(v))
  {
    var m := ShortestMask;
    forall v | 0 <= v < 4 ensures Occurs(m, Pattern(v)) {
      if v == 0 { WindowAt(m, 0, 0); }
      else if v == 1 { WindowAt(m, 1, 1); }
      else if v == 2 { WindowAt(m, 2, 2); }
      else { WindowAt(m, 4, 3); }
    }
  }

  lemma ShortestMaskHigh()
    ensures forall v :: 4 <= v < 8 ==> Occurs(ShortestMask, Pattern(v))
  {
    var m := ShortestMask;
    forall v | 4 <= v < 8 ensures Occurs(m, Pattern(v)) {
      if v == 4 { WindowAt(m, 7, 4); }
      else if v == 5 { WindowAt(m, 3, 5); }
      else if v == 6 { WindowAt(m, 6, 6); }
      else { WindowAt(m, 5, 7); }
    }
  }

  /** The check in `main` that the naive mask is complete. */
  method CheckNaiveMask() returns (complete: bool)
    ensures complete
  {
    var naiveMask := MakeNaiveMask();
    complete := IsCompleteMask(naiveMask);
  }

  // ---------------------------------------------------------------------
  // Exhaustive search
  // ---------------------------------------------------------------------

  /** The encodings of 0 .. count - 1 at the given length, in increasing
      order: the candidates `test_every_mask` tries. */
  function Encodings(maskLength: nat, count: nat): (r: seq<seq<bool>>)
    ensures |r| == count
  {
    seq(count, x requires 0 <= x => IntToBoolArray(x, maskLength))
  }

  /** The complete masks among the first `count` candidates, in their order. */
  ghost function CompleteAmong(maskLength: nat, count: nat): seq<seq<bool>> {
    Filter(Encodings(maskLength, count), IsComplete)
  }

  /** For a positive length, the candidates are exactly the masks of that
      length whose value is below count. */
  lemma EncodingsMembers(maskLength: nat, count: nat, m: seq<bool>)
    requires 0 < maskLength && count <= Pow2(maskLength)
    ensures m in Encodings(maskLength, count) <==> |m| == maskLength && BitsValue(m) < count
  {
    var e := Encodings(maskLength, count);
    if |m| == maskLength && BitsValue(m) < count {
      EncodeDecode(m);
      assert e[BitsValue(m)] == m;
    }
    if m in e {
      var x :| 0 <= x < count && e[x] == m;
      assert m == IntToBoolArray(x, maskLength);
    }
  }

  /** The list holds every complete mask of the length whose value is below
      count, and nothing else. */
  lemma CompleteAmongMembers(maskLength: nat, count: nat)
    requires 0 < maskLength && count <= Pow2(maskLength)
    ensures forall m :: m in CompleteAmong(maskLength, count) <==>
      |m| == maskLength && IsComplete(m) && BitsValue(m) < count
  {
    forall m ensures m in CompleteAmong(maskLength, count) <==>
      |m| == maskLength && IsComplete(m) && BitsValue(m) < count
    {
      FilterMember(Encodings(maskLength, count), IsComplete, m);
      EncodingsMembers(maskLength, count, m);
    }
  }

  /** The list is ordered by the encoded number, strictly. */
  lemma CompleteAmongIncreasing(maskLength: nat, count: nat)
    ensures var r := CompleteAmong(maskLength, count);
      forall i, j :: 0 <= i < j < |r| ==> BitsValue(r[i]) < BitsValue(r[j])
  {
    var e := Encodings(maskLength, count);
    var less := (a: seq<bool>, b: seq<bool>) => BitsValue(a) < BitsValue(b);
    assert forall i, j :: 0 <= i < j < |e| ==> less(e[i], e[j]) by {
      forall i, j | 0 <= i < j < |e| ensures less(e[i], e[j]) {
        assert BitsValue(e[i]) == i && BitsValue(e[j]) == j;
      }
    }
    FilterOrdered(e, IsComplete, less);
  }

  /** `test_every_mask(mask_length)`: try the encoding of every number
      below 2^mask_length and keep the complete ones. */
  method TestEveryMask(maskLength: nat) returns (completeMasks: seq<seq<bool>>)
    ensures completeMasks == CompleteAmong(maskLength, Pow2(maskLength))
    ensures 0 < maskLength ==> forall m :: m in completeMasks <==>
      |m| == maskLength && IsComplete(m)
  {
    completeMasks := [];
    var limit := Pow2(maskLength);
    for maskInt := 0 to limit
      invariant completeMasks == CompleteAmong(maskLength, maskInt)
    {
      var mask := IntToBoolArray(maskInt, maskLength);
      var complete := IsCompleteMask(mask);
      CompleteAmongStep(maskLength, maskInt);
      if complete {
        completeMasks := completeMasks + [mask];
      }
    }
    if 0 < maskLength {
      CompleteAmongAll(maskLength);
    }
  }

  /** One more candidate: the list grows by it exactly when it is complete. */
  lemma CompleteAmongStep(maskLength: nat, count: nat)
    ensures var mask := IntToBoolArray(count, maskLength);
      CompleteAmong(maskLength, count + 1) ==
        CompleteAmong(maskLength, count) + (if IsComplete(mask) then [mask] else [])
  {
    var mask := IntToBoolArray(count, maskLength);
    assert Encodings(maskLength, count + 1) == Encodings(maskLength, count) + [mask];
    FilterSnoc(Encodings(maskLength, count), mask, IsComplete);
  }

  /** Over all 2^L candidates, the list holds every complete mask of
      length L. */
  lemma CompleteAmongAll(maskLength: nat)
    requires 0 < maskLength
    ensures forall m :: m in CompleteAmong(maskLength, Pow2(maskLength)) <==>
      |m| == maskLength && IsComplete(m)
  {
    CompleteAmongMembers(maskLength, Pow2(maskLength));
    forall m | |m| == maskLength ensures BitsValue(m) < Pow2(maskLength) {
      BitsValueBound(m);
    }
  }

  /** What the search finds at one length: nothing below 10, something
      at 10. */
  lemma SearchAtLength(maskLength: nat, masks: seq<seq<bool>>)
    requires forall m :: m in masks <==> |m| == maskLength && IsComplete(m)
    ensures maskLength < 10 ==> masks == []
    ensures maskLength == 10 ==> masks != []
  {
    if maskLength < 10 && masks != [] {
      assert masks[0] in masks;
      CompleteNeedsTen(masks[0]);
    }
    if maskLength == 10 {
      ShortestCompleteWitness();
      assert ShortestMask in masks;
    }
  }

  /** The driver loop of `main`: try lengths 3 .. 23 and stop at the first
      one that has any complete mask. That length is 10, and the list then
      holds every complete mask of length 10. */
  method FindShortestMasks() returns (maskLength: nat, masks: seq<seq<bool>>)
    ensures maskLength == 10 && |masks| > 0
    ensures forall m :: m in masks <==> |m| == 10 && IsComplete(m)
  {
    maskLength, masks := 3, [];
    while maskLength < 24
      invariant 3 <= maskLength <= 10
      decreases 24 - maskLength
    {
      masks := TestEveryMask(maskLength);
      SearchAtLength(maskLength, masks);
      if |masks| > 0 {
        break;
      }
      maskLength := maskLength + 1;
    }
  }

  // ---------------------------------------------------------------------
  // Transitions
  // ---------------------------------------------------------------------

  /** Number of neighbouring positions whose dots differ. */
  function Transitions(mask: seq<bool>): (r: nat)
    ensures |mask| <= 1 ==> r == 0
    ensures |mask| >= 1 ==> r <= |mask| - 1
  {
    if |mask| <= 1 then 0
    else
      var n := |mask|;
      Transitions(mask[..n - 1]) + (if mask[n - 2] != mask[n - 1] then 1 else 0)
  }

  /** The count is the number of indices where neighbours differ. */
  lemma {:induction false} TransitionsCountsIndices(mask: seq<bool>)
    ensures Transitions(mask) == |TransitionIndices(mask)|
  {
    if |mask| <= 1 {
      assert TransitionIndices(mask) == {};
    } else {
      var n := |mask|;
      var prev := mask[..n - 1];
      TransitionsCountsIndices(prev);
      TransitionIndicesSnoc(mask);
    }
  }

  lemma TransitionIndicesSnoc(mask: seq<bool>)
    requires |mask| >= 2
    ensures var n := |mask|; var prev := mask[..n - 1];
      TransitionIndices(mask) ==
        TransitionIndices(prev) + (if mask[n - 2] != mask[n - 1] then {n - 2} else {}) &&
      n - 2 !in TransitionIndices(prev)
  {
    var n := |mask|;
    var prev := mask[..n - 1];
    forall i | 0 <= i < n - 2 ensures DiffersAt(mask, i) == DiffersAt(prev, i) {
      assert prev[i] == mask[i] && prev[i + 1] == mask[i + 1];
    }
  }

  /** The indices i with mask[i] != mask[i + 1]. */
  ghost function TransitionIndices(mask: seq<bool>): set<int> {
    set i | 0 <= i < |mask| - 1 && DiffersAt(mask, i)
  }

  ghost predicate DiffersAt(mask: seq<bool>, i: int)
    requires 0 <= i < |mask| - 1
  {
    mask[i] != mask[i + 1]
  }

  /** `count_transitions_in_mask`. */
  method CountTransitionsInMask(mask: seq<bool>) returns (transitions: nat)
    ensures transitions == Transitions(mask)
  {
    transitions := 0;
    var i := 0;
    while i < |mask| - 1
      invariant 0 <= i
      invariant |mask| > 0 ==> i < |mask| && transitions == Transitions(mask[..i + 1])
      invariant |mask| == 0 ==> transitions == 0
    {
      assert mask[..i + 2][..i + 1] == mask[..i + 1];
      if mask[i] != mask[i + 1] {
        transitions := transitions + 1;
      }
      i := i + 1;
    }
    if |mask| > 0 {
      assert mask[..i + 1] == mask;
    }
  }

  function Reverse<T>(s: seq<T>): (r: seq<T>)
    ensures |r| == |s|
  {
    if s == [] then [] else Reverse(s[1..]) + [s[0]]
  }

  lemma {:induction false} ReverseAt<T>(s: seq<T>, k: nat)
    requires k < |s|
    ensures Reverse(s)[k] == s[|s| - 1 - k]
  {
    if k < |s| - 1 { ReverseAt(s[1..], k); }
  }

  /** Prepending a dot adds one transition exactly when it differs from
      the old first dot. */
  lemma {:induction false} TransitionsCons(x: bool, mask: seq<bool>)
    ensures Transitions([x] + mask) ==
      Transitions(mask) + (if |mask| > 0 && x != mask[0] then 1 else 0)
    decreases |mask|
  {
    if |mask| >= 2 {
      var n := |mask|;
      assert ([x] + mask)[..n] == [x] + mask[..n - 1];
      TransitionsCons(x, mask[..n - 1]);
    } else if |mask| == 1 {
      assert ([x] + mask)[..1] == [x];
    }
  }

  /** Reading the mask from the other end gives the same count. */
  lemma {:induction false} TransitionsReverse(mask: seq<bool>)
    ensures Transitions(Reverse(mask)) == Transitions(mask)
  {
    if |mask| >= 2 {
      var rest := Reverse(mask[1..]);
      TransitionsReverse(mask[1..]);
      ReverseAt(mask[1..], |mask| - 2);
      var r := rest + [mask[0]];
      assert Reverse(mask) == r;
      assert r[..|r| - 1] == rest;
      assert rest[|rest| - 1] == mask[1];
      assert Transitions(r) == Transitions(rest) + (if mask[1] != mask[0] then 1 else 0);
      TransitionsCons(mask[0], mask[1..]);
      assert [mask[0]] + mask[1..] == mask;
    }
  }

  /** No transitions exactly when every dot of the mask is the same. */
  lemma {:induction false} NoTransitionsIffConstant(mask: seq<bool>)
    ensures Transitions(mask) == 0 <==>
      forall i, j :: 0 <= i < |mask| && 0 <= j < |mask| ==> mask[i] == mask[j]
  {
    TransitionsCountsIndices(mask);
    if Transitions(mask) == 0 {
      forall i | 0 <= i < |mask| - 1 ensures mask[i] == mask[i + 1] {
        assert i !in TransitionIndices(mask);
      }
      AdjacentEqualConstant(mask);
    } else {
      var i :| i in TransitionIndices(mask);
      assert DiffersAt(mask, i);
    }
  }

  lemma {:induction false} AdjacentEqualConstant(mask: seq<bool>)
    requires forall i :: 0 <= i < |mask| - 1 ==> mask[i] == mask[i + 1]
    ensures forall i :: 0 <= i < |mask| ==> mask[i] == mask[0]
  {
    if |mask| > 1 {
      var n := |mask|;
      AdjacentEqualConstant(mask[..n - 1]);
      assert forall i :: 0 <= i < n - 1 ==> mask[i] == mask[..n - 1][i];
      assert mask[n - 1] == mask[n - 2];
    }
  }
}
