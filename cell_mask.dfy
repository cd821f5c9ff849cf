/** A whole braille cell read one row at a time. A row holds two dots, so
    it is one of 4 symbols 0 .. 3, and a cell is three rows: 64 patterns.
    A mask is a strip of row symbols; it is complete when each of the 64
    cells appears in it as three consecutive rows. */
module CellMask {
  import opened Windows

  const Width: nat := 3
  const Base: int := 4
  const PatternCount: nat := 64

  datatype MaskError =
    | InvalidSymbol   // an element of the mask is not one of 0 .. 3
    | NotImplemented  // the operation refuses to run

  datatype Result<T> = Success(value: T) | Failure(error: MaskError)

  // ---------------------------------------------------------------------
  // Patterns
  // ---------------------------------------------------------------------

  /** The rows of cell i: its 2-bit fields, lowest first. For i >= 0,
      `i & 0b11`, `(i >> 2) & 0b11` and `(i >> 4) & 0b11` are i mod 4,
      (i div 4) mod 4 and (i div 16) mod 4. */
  function CellPattern(i: nat): (p: seq<int>)
    ensures |p| == Width && IsSymbols(p)
  {
    [i % 4, (i / 4) % 4, (i / 16) % 4]
  }

  /** The number whose 2-bit fields, lowest first, are the three rows. */
  function PatternValue(p: seq<int>): int
    requires |p| == Width
  {
    p[0] + 4 * p[1] + 16 * p[2]
  }

  predicate IsSymbol(x: int) {
    0 <= x < Base
  }

  /** Every element is one of 0, 1, 2, 3. */
  predicate IsSymbols(mask: seq<int>) {
    forall i :: 0 <= i < |mask| ==> IsSymbol(mask[i])
  }

  /** Decoding cell i and reading its fields back gives i. */
  lemma PatternValueOfCell(i: nat)
    requires i < PatternCount
    ensures PatternValue(CellPattern(i)) == i
  {
  }

  /** Three rows are always the cell of the number they encode, so every
      three-row window of a valid mask is one of the 64 patterns. */
  lemma CellOfPatternValue(p: seq<int>)
    requires |p| == Width && IsSymbols(p)
    ensures 0 <= PatternValue(p) < PatternCount
    ensures CellPattern(PatternValue(p)) == p
  {
    assert IsSymbol(p[0]) && IsSymbol(p[1]) && IsSymbol(p[2]);
    var v := PatternValue(p);
    assert v % 4 == p[0] && (v / 4) % 4 == p[1] && (v / 16) % 4 == p[2] by {
      DigitsOf(p[0], p[1], p[2]);
    }
  }

  lemma DigitsOf(a: int, b: int, c: int)
    requires 0 <= a < 4 && 0 <= b < 4 && 0 <= c < 4
    ensures (a + 4 * b + 16 * c) % 4 == a
    ensures (a + 4 * b + 16 * c) / 4 == b + 4 * c
    ensures (b + 4 * c) % 4 == b
    ensures (a + 4 * b + 16 * c) / 16 == c
  {
  }

  /** The 64 cells are pairwise different. */
  lemma CellPatternsDistinct()
    ensures AllDistinct(seq(PatternCount, i requires 0 <= i < PatternCount => CellPattern(i)))
  {
    var pats := seq(PatternCount, i requires 0 <= i < PatternCount => CellPattern(i));
    forall i, j | 0 <= i < j < |pats| ensures pats[i] != pats[j] {
      PatternValueOfCell(i);
      PatternValueOfCell(j);
    }
  }

  // ---------------------------------------------------------------------
  // Completeness
  // ---------------------------------------------------------------------

  /** Every one of the 64 cells is some three-row window of the mask. */
  ghost predicate IsComplete(mask: seq<int>) {
    forall i :: 0 <= i < PatternCount ==> Occurs(mask, CellPattern(i))
  }

  /** `is_complete_mask`. It first insists that every element is a row
      symbol (the failing assertion is the InvalidSymbol error); then, for
      each cell, it looks at the slice of up to three rows at every start
      0 .. len(mask) - 1, skipping slices cut short by the end of the mask,
      and gives up on the first cell not found. */
  method IsCompleteMask(mask: seq<int>) returns (r: Result<bool>)
    ensures r.Failure? <==> !IsSymbols(mask)
    ensures r.Failure? ==> r.error == InvalidSymbol
    ensures r.Success? ==> r.value == IsComplete(mask)
  {
    for k := 0 to |mask|
      invariant forall j :: 0 <= j < k ==> IsSymbol(mask[j])
    {
      if !(0 <= mask[k] < Base) {
        return Failure(InvalidSymbol);
      }
    }
    for i := 0 to PatternCount
      invariant forall j :: 0 <= j < i ==> Occurs(mask, CellPattern(j))
    {
      var pattern := [i % 4, (i / 4) % 4, (i / 16) % 4];
      var foundPattern := false;
      for start := 0 to |mask|
        invariant forall s :: 0 <= s < start ==> !OccursAt(mask, pattern, s)
      {
        var cellRepr := mask[start..if start + 3 <= |mask| then start + 3 else |mask|];
        if |cellRepr| < 3 {
          continue;
        }
        if cellRepr == pattern {
          assert OccursAt(mask, pattern, start);
          foundPattern := true;
          break;
        }
      }
      if !foundPattern {
        assert !Occurs(mask, CellPattern(i));
        return Success(false);
      }
    }
    return Success(true);
  }

  /** Fewer than 66 rows cannot be complete: 64 different cells need 64
      different start offsets, and a mask of length L has L - 2 of them.
      In particular a mask shorter than three rows is never complete. */
  lemma CompleteNeedsSixtySix(mask: seq<int>)
    requires IsComplete(mask)
    ensures |mask| >= 66
  {
    var pats := seq(PatternCount, i requires 0 <= i < PatternCount => CellPattern(i));
    CellPatternsDistinct();
    LowerBound(mask, pats, Width);
  }

  /** The three rows at offset s form the cell numbered by their value. */
  lemma WindowIsCell(mask: seq<int>, s: nat)
    requires s + Width <= |mask| && IsSymbols(mask)
    ensures 0 <= PatternValue(mask[s..s + Width]) < PatternCount
    ensures OccursAt(mask, CellPattern(PatternValue(mask[s..s + Width])), s)
  {
    CellOfPatternValue(mask[s..s + Width]);
  }

  // ---------------------------------------------------------------------
  // The naive mask
  // ---------------------------------------------------------------------

  /** `make_naive_mask`: the rows of cells 0 .. 63 one after the other. */
  method MakeNaiveMask() returns (mask: seq<int>)
    ensures |mask| == 192 && IsSymbols(mask)
    ensures forall i :: 0 <= i < PatternCount ==> mask[3 * i..3 * i + 3] == CellPattern(i)
    ensures IsComplete(mask)
  {
    mask := [];
    for i := 0 to PatternCount
      invariant |mask| == 3 * i && IsSymbols(mask)
      invariant forall j :: 0 <= j < i ==> mask[3 * j..3 * j + 3] == CellPattern(j)
    {
      var row0 := i % 4;
      var row1 := (i / 4) % 4;
      var row2 := (i / 16) % 4;
      ghost var before := mask;
      mask := mask + [row0, row1, row2];
      forall j | 0 <= j < i + 1 ensures mask[3 * j..3 * j + 3] == CellPattern(j) {
        if j < i {
          assert mask[3 * j..3 * j + 3] == before[3 * j..3 * j + 3];
        } else {
          assert mask[3 * j..3 * j + 3] == [row0, row1, row2];
        }
      }
    }
    forall i | 0 <= i < PatternCount ensures Occurs(mask, CellPattern(i)) {
      assert OccursAt(mask, CellPattern(i), 3 * i);
    }
  }

  /** `validate_naive_mask`: the checker accepts the naive mask. */
  method ValidateNaiveMask() returns (complete: Result<bool>)
    ensures complete == Success(true)
  {
    var naiveMask := MakeNaiveMask();
    complete := IsCompleteMask(naiveMask);
  }

  // ---------------------------------------------------------------------
  // Transitions
  // ---------------------------------------------------------------------

  /** `count_transitions_in_mask` raises before counting anything, for
      every mask. */
  method CountTransitionsInMask(mask: seq<int>) returns (r: Result<nat>)
    ensures r.Failure? && r.error == NotImplemented
  {
    return Failure(NotImplemented);
  }
}
