/** The exhaustive search of the two-dot row case: every strip of row
    symbols of one length, in the order `itertools.product([0, 1, 2, 3],
    repeat=L)` yields them, filtered by the completeness checker; and the
    loop over lengths that stops at the first length with a complete
    mask. */
module CellSearch {
  import opened Windows
  import opened CellMask
  import opened UniversalMask

  // ---------------------------------------------------------------------
  // itertools.product over the row symbols
  // ---------------------------------------------------------------------

  function Pow4(e: nat): nat {
    if e == 0 then 1 else 4 * Pow4(e - 1)
  }

  /** All strips of `len` row symbols, first symbol slowest. */
  function Product(len: nat): seq<seq<int>>
    decreases len, 5
  {
    if len == 0 then [[]] else ProductFrom(0, len)
  }

  /** The strips of `len` row symbols whose first symbol is at least x. */
  function ProductFrom(x: int, len: nat): seq<seq<int>>
    requires 1 <= len && 0 <= x
    decreases len, 4 - x
  {
    if x >= Base then [] else PrependAll(x, Product(len - 1)) + ProductFrom(x + 1, len)
  }

  function PrependAll(x: int, ms: seq<seq<int>>): (r: seq<seq<int>>)
    ensures |r| == |ms|
    ensures forall i :: 0 <= i < |ms| ==> r[i] == [x] + ms[i]
  {
    seq(|ms|, i requires 0 <= i < |ms| => [x] + ms[i])
  }

  /** Strict lexicographic order on strips. */
  predicate LexLess(a: seq<int>, b: seq<int>) {
    |a| > 0 && |b| > 0 && (a[0] < b[0] || (a[0] == b[0] && LexLess(a[1..], b[1..])))
  }

  predicate Sorted(ms: seq<seq<int>>) {
    forall i, j :: 0 <= i < j < |ms| ==> LexLess(ms[i], ms[j])
  }

  /** 4^len strips. */
  lemma {:induction false} ProductLength(len: nat)
    ensures |Product(len)| == Pow4(len)
    decreases len, 5
  {
    if len > 0 {
      ProductFromLength(0, len);
    }
  }

  lemma {:induction false} ProductFromLength(x: int, len: nat)
    requires 1 <= len && 0 <= x <= Base
    ensures |ProductFrom(x, len)| == (Base - x) * Pow4(len - 1)
    decreases len, 4 - x
  {
    if x < Base {
      ProductLength(len - 1);
      ProductFromLength(x + 1, len);
      calc {
        |ProductFrom(x, len)|;
        Pow4(len - 1) + (Base - (x + 1)) * Pow4(len - 1);
        (Base - x) * Pow4(len - 1);
      }
    }
  }

  /** Each enumerated strip is `len` row symbols. */
  lemma {:induction false} ProductMembers(len: nat)
    ensures Strips(Product(len), len)
    decreases len, 5
  {
    if len > 0 {
      ProductFromMembers(0, len);
    }
  }

  lemma {:induction false} ProductFromMembers(x: int, len: nat)
    requires 1 <= len && 0 <= x <= Base
    ensures StripsFrom(ProductFrom(x, len), len, x)
    decreases len, 4 - x
  {
    if x < Base {
      var block := PrependAll(x, Product(len - 1));
      var tail := ProductFrom(x + 1, len);
      assert ProductFrom(x, len) == block + tail;
      ProductMembers(len - 1);
      PrependAllMembers(x, Product(len - 1), len - 1);
      ProductFromMembers(x + 1, len);
      StripsFromLower(tail, len, x);
      StripsFromAppend(block, tail, len, x);
    }
  }

  /** Every strip of `ms` has `len` row symbols. */
  ghost predicate Strips(ms: seq<seq<int>>, len: nat) {
    forall m :: m in ms ==> |m| == len && IsSymbols(m)
  }

  /** Every strip of `ms` has `len` row symbols, the first at least x. */
  ghost predicate StripsFrom(ms: seq<seq<int>>, len: nat, x: int) {
    Strips(ms, len) && forall m :: m in ms ==> |m| > 0 && x <= m[0]
  }

  lemma StripsFromLower(ms: seq<seq<int>>, len: nat, x: int)
    requires StripsFrom(ms, len, x + 1)
    ensures StripsFrom(ms, len, x)
  {
  }

  lemma StripsFromAppend(a: seq<seq<int>>, b: seq<seq<int>>, len: nat, x: int)
    requires StripsFrom(a, len, x) && StripsFrom(b, len, x)
    ensures StripsFrom(a + b, len, x)
  {
    forall m | m in a + b ensures |m| == len && IsSymbols(m) && |m| > 0 && x <= m[0] {
      assert m in a || m in b;
    }
  }

  lemma PrependAllMembers(x: int, ms: seq<seq<int>>, len: nat)
    requires IsSymbol(x) && Strips(ms, len)
    ensures StripsFrom(PrependAll(x, ms), len + 1, x)
    ensures forall m :: m in PrependAll(x, ms) ==> m[0] == x
  {
    forall m | m in PrependAll(x, ms) ensures |m| == len + 1 && IsSymbols(m) && m[0] == x {
      var i :| 0 <= i < |ms| && PrependAll(x, ms)[i] == m;
      assert ms[i] in ms;
      assert forall j :: 1 <= j < |m| ==> m[j] == ms[i][j - 1];
    }
  }

  /** Every strip of `len` row symbols is enumerated. */
  lemma {:induction false} ProductComplete(m: seq<int>)
    requires IsSymbols(m)
    ensures m in Product(|m|)
    decreases |m|, 5
  {
    if |m| > 0 {
      ProductFromComplete(0, m);
    }
  }

  lemma {:induction false} ProductFromComplete(x: int, m: seq<int>)
    requires IsSymbols(m) && |m| >= 1 && 0 <= x <= m[0]
    ensures m in ProductFrom(x, |m|)
    decreases |m|, 4 - x
  {
    assert IsSymbol(m[0]);
    if x == m[0] {
      ProductComplete(m[1..]);
      var rest := Product(|m| - 1);
      var i :| 0 <= i < |rest| && rest[i] == m[1..];
      assert PrependAll(x, rest)[i] == m;
    } else {
      ProductFromComplete(x + 1, m);
    }
  }

  lemma PrependLess(x: int, a: seq<int>, b: seq<int>)
    requires LexLess(a, b)
    ensures LexLess([x] + a, [x] + b)
  {
    assert ([x] + a)[1..] == a && ([x] + b)[1..] == b;
  }

  /** The enumeration is in strictly increasing lexicographic order, as
      `itertools.product` yields it; in particular nothing is repeated. */
  lemma {:induction false} ProductSorted(len: nat)
    ensures Sorted(Product(len))
    decreases len, 5
  {
    if len > 0 {
      ProductFromSorted(0, len);
    }
  }

  lemma {:induction false} ProductFromSorted(x: int, len: nat)
    requires 1 <= len && 0 <= x
    ensures Sorted(ProductFrom(x, len))
    decreases len, 4 - x
  {
    if x < Base {
      ProductSorted(len - 1);
      ProductFromSorted(x + 1, len);
      SortedBlocks(x, len);
    }
  }

  /** The block led by x, then the strips led by larger symbols. */
  lemma SortedBlocks(x: int, len: nat)
    requires 1 <= len && 0 <= x < Base
    requires Sorted(Product(len - 1)) && Sorted(ProductFrom(x + 1, len))
    ensures Sorted(ProductFrom(x, len))
  {
    var block := PrependAll(x, Product(len - 1));
    var tail := ProductFrom(x + 1, len);
    PrependAllSorted(x, Product(len - 1));
    HeadsIncrease(x, len);
    SortedAppend(block, tail);
    assert ProductFrom(x, len) == block + tail;
  }

  /** Strips led by x come before those led by a larger symbol. */
  lemma HeadsIncrease(x: int, len: nat)
    requires 1 <= len && 0 <= x < Base
    ensures forall m, n :: m in PrependAll(x, Product(len - 1)) && n in ProductFrom(x + 1, len) ==>
      |m| > 0 && |n| > 0 && m[0] < n[0]
  {
    ProductMembers(len - 1);
    PrependAllMembers(x, Product(len - 1), len - 1);
    ProductFromMembers(x + 1, len);
  }

  lemma PrependAllSorted(x: int, ms: seq<seq<int>>)
    requires Sorted(ms)
    ensures Sorted(PrependAll(x, ms))
  {
    var r := PrependAll(x, ms);
    forall i, j | 0 <= i < j < |r| ensures LexLess(r[i], r[j]) {
      PrependLess(x, ms[i], ms[j]);
    }
  }

  /** Two sorted lists, every strip of the first with a smaller first
      symbol than every strip of the second, make a sorted list. */
  lemma SortedAppend(a: seq<seq<int>>, b: seq<seq<int>>)
    requires Sorted(a) && Sorted(b)
    requires forall m, n :: m in a && n in b ==> |m| > 0 && |n| > 0 && m[0] < n[0]
    ensures Sorted(a + b)
  {
    var all := a + b;
    forall i, j | 0 <= i < j < |all| ensures LexLess(all[i], all[j]) {
      if j < |a| {
        assert all[i] == a[i] && all[j] == a[j];
      } else if i >= |a| {
        assert all[i] == b[i - |a|] && all[j] == b[j - |a|];
      } else {
        assert all[i] == a[i] && all[j] == b[j - |a|];
        assert a[i] in a && b[j - |a|] in b;
      }
    }
  }

  // ---------------------------------------------------------------------
  // test_every_mask
  // ---------------------------------------------------------------------

  /** The complete strips of `ms`, in their order in `ms`. */
  ghost function CompleteOnes(ms: seq<seq<int>>): seq<seq<int>> {
    Filter(ms, IsComplete)
  }

  /** Filtering keeps exactly the complete members and keeps their order. */
  lemma CompleteOnesSpec(ms: seq<seq<int>>)
    ensures forall m :: m in CompleteOnes(ms) <==> m in ms && IsComplete(m)
    ensures Sorted(ms) ==> Sorted(CompleteOnes(ms))
  {
    forall m ensures m in CompleteOnes(ms) <==> m in ms && IsComplete(m) {
      FilterMember(ms, IsComplete, m);
    }
    if Sorted(ms) {
      FilterOrdered(ms, IsComplete, LexLess);
    }
  }

  /** `test_every_mask(mask_length)`: run the checker on every strip the
      enumeration yields and keep the complete ones. The list holds every
      complete mask of that length, nothing else, in lexicographic order. */
  method TestEveryMask(maskLength: nat) returns (completeMasks: seq<seq<int>>)
    ensures completeMasks == CompleteOnes(Product(maskLength))
    ensures forall m :: m in completeMasks <==>
      |m| == maskLength && IsSymbols(m) && IsComplete(m)
    ensures Sorted(completeMasks)
  {
    var candidates := Product(maskLength);
    ProductMembers(maskLength);
    completeMasks := [];
    for n := 0 to |candidates|
      invariant completeMasks == CompleteOnes(candidates[..n])
    {
      var cellRepr := candidates[n];
      assert candidates[n] in candidates;
      var complete := IsCompleteMask(cellRepr);
      assert candidates[..n + 1] == candidates[..n] + [cellRepr];
      FilterSnoc(candidates[..n], cellRepr, IsComplete);
      if complete.value {
        completeMasks := completeMasks + [cellRepr];
      }
    }
    assert candidates[..|candidates|] == candidates;
    CompleteOnesSpec(candidates);
    ProductSorted(maskLength);
    forall m | |m| == maskLength && IsSymbols(m) ensures m in candidates {
      ProductComplete(m);
    }
  }

  // ---------------------------------------------------------------------
  // validate_every_mask
  // ---------------------------------------------------------------------

  /** What the search finds at one length: nothing below 66, something
      at 66. */
  lemma SearchAtLength(maskLength: nat, masks: seq<seq<int>>)
    requires forall m :: m in masks <==> |m| == maskLength && IsSymbols(m) && IsComplete(m)
    ensures maskLength < 66 ==> masks == []
    ensures maskLength == 66 ==> Mask66 in masks
  {
    if maskLength < 66 && masks != [] {
      assert masks[0] in masks;
      CompleteNeedsSixtySix(masks[0]);
    }
    if maskLength == 66 {
      Mask66Symbols();
      Mask66Complete();
    }
  }

  /** `validate_every_mask`: try lengths 3 .. 192 and stop at the first
      one with any complete mask. That length is 66, and the list holds
      every complete mask of 66 rows, the recorded one among them. */
  method ValidateEveryMask() returns (maskLength: nat, masks: seq<seq<int>>)
    ensures maskLength == 66 && Mask66 in masks
    ensures forall m :: m in masks <==> |m| == 66 && IsSymbols(m) && IsComplete(m)
  {
    maskLength, masks := 3, [];
    while maskLength < 193
      invariant 3 <= maskLength <= 66
      decreases 193 - maskLength
    {
      masks := TestEveryMask(maskLength);
      SearchAtLength(maskLength, masks);
      if |masks| > 0 {
        break;
      }
      maskLength := maskLength + 1;
    }
  }
}
