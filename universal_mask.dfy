/** The result recorded for `de_bruijn(4, 3)` and the mask built from it
    in `main`: the generator is evaluated on this instance, the 66-row
    mask is shown complete, and the 64-row cyclic sequence is shown to
    cover every cell only when read around its end. */
module UniversalMask {
  import opened Windows
  import opened CellMask
  import opened DeBruijn

  // ---------------------------------------------------------------------
  // The recorded sequences
  // ---------------------------------------------------------------------

  /** The runs emitted below the buffer prefixes [0, 0], [0, 1], [0, 2]
      and [0, 3]: the Lyndon words of length 1 and 3 over 0 .. 3, in
      order. */
  const Emitted00: seq<int> := Emitted000 + Emitted00From1
  const Emitted000: seq<int> := [0] + [0, 0, 1] + [0, 0, 2] + [0, 0, 3]
  const Emitted00From1: seq<int> :=
    [0, 1, 1] + [0, 1, 2] + [0, 1, 3] +
    ([0, 2, 1] + [0, 2, 2] + [0, 2, 3] +
    ([0, 3, 1] + [0, 3, 2] + [0, 3, 3]))
  const Emitted01: seq<int> :=
    [1] + [1, 1, 2] + [1, 1, 3] + ([1, 2, 2] + [1, 2, 3] + ([1, 3, 2] + [1, 3, 3]))
  const Emitted02: seq<int> := [2] + [2, 2, 3] + [2, 3, 3]
  const Emitted03: seq<int> := [3]

  /** `de_bruijn(4, 3)`, 64 rows. */
  const DeBruijn43: seq<int> := Emitted00 + (Emitted01 + (Emitted02 + Emitted03))

  /** The 66-row mask recorded as the optimal solution: the cyclic
      sequence followed by its first two rows. */
  const Mask66: seq<int> := DeBruijn43 + [0, 0]

  /** The optimal mask as written down next to the script, its rows
      grouped into the blocks the generator emits. */
  const RecordedMask: seq<int> :=
    ([0, 0, 0, 1, 0, 0, 2, 0, 0, 3] +
      ([0, 1, 1, 0, 1, 2, 0, 1, 3] + ([0, 2, 1, 0, 2, 2, 0, 2, 3] + [0, 3, 1, 0, 3, 2, 0, 3, 3])) +
    ([1, 1, 1, 2, 1, 1, 3] + [1, 2, 2, 1, 2, 3, 1, 3, 2, 1, 3, 3] +
      ([2, 2, 2, 3, 2, 3, 3] + [3]))) +
    [0, 0]

  // ---------------------------------------------------------------------
  // Evaluating the generator
  // ---------------------------------------------------------------------

  /** The leaf loop `for j in range(from, k)` at t == n: each j emits
      a[1..n) followed by j, since p == t == n divides n. */
  function LeafRun(prefix: seq<int>, from: int, k: int): seq<int>
    decreases k - from
  {
    if from >= k then [] else prefix + [from] + LeafRun(prefix, from + 1, k)
  }

  lemma {:induction false} LeafLoop(k: nat, n: nat, a: seq<int>, from: int)
    requires 1 <= n && |a| == n
    ensures EmittedFrom(k, n, n, a, from) == LeafRun(a[1..], from, k)
    decreases k - from
  {
    if from < k {
      assert (a + [from])[1..n + 1] == a[1..] + [from];
      LeafLoop(k, n, a, from + 1);
    }
  }

  /** What `db(n, p)` emits: the word a[1..p] when p divides n, then one
      word per remaining value of a[n]. */
  lemma EmittedAtLeaf(k: nat, n: nat, p: nat, a: seq<int>)
    requires 1 <= p <= n && |a| == n
    ensures Emitted(k, n, n, p, a) ==
      (if n % p == 0 then (a + [a[n - p]])[1..p + 1] else []) + LeafRun(a[1..], a[n - p] + 1, k)
  {
    LeafLoop(k, n, a, a[n - p] + 1);
  }

  lemma LeafPeriodOne(j: int)
    requires 0 <= j < 4
    ensures Emitted(4, 3, 3, 1, [0, j, j]) == [j] + LeafRun([j, j], j + 1, 4)
  {
    EmittedAtLeaf(4, 3, 1, [0, j, j]);
    assert [0, j, j][1..] == [j, j];
    assert ([0, j, j] + [j])[1..2] == [j];
  }

  lemma LeafPeriodTwo(x: int, y: int)
    ensures Emitted(4, 3, 3, 2, [0, x, y]) == LeafRun([x, y], x + 1, 4)
  {
    EmittedAtLeaf(4, 3, 2, [0, x, y]);
    assert [0, x, y][1..] == [x, y];
  }

  lemma From00At3()
    ensures EmittedFrom(4, 3, 2, [0, 0], 3) == [0, 3, 1] + [0, 3, 2] + [0, 3, 3]
  {
    LeafPeriodTwo(0, 3);
    assert EmittedFrom(4, 3, 2, [0, 0], 4) == [];
    assert [0, 0] + [3] == [0, 0, 3];
  }

  lemma From00At2()
    ensures EmittedFrom(4, 3, 2, [0, 0], 2) ==
      [0, 2, 1] + [0, 2, 2] + [0, 2, 3] + ([0, 3, 1] + [0, 3, 2] + [0, 3, 3])
  {
    LeafPeriodTwo(0, 2);
    From00At3();
    assert [0, 0] + [2] == [0, 0, 2];
  }

  lemma From00At1()
    ensures EmittedFrom(4, 3, 2, [0, 0], 1) == Emitted00From1
  {
    EmittedFromStep(4, 3, 2, [0, 0], 1);
    assert [0, 0] + [1] == [0, 0, 1];
    LeafPeriodTwo(0, 1);
    From00At2();
  }

  lemma Leaf000()
    ensures Emitted(4, 3, 3, 1, [0, 0, 0]) == Emitted000
  {
    LeafPeriodOne(0);
    assert LeafRun([0, 0], 3, 4) == [0, 0, 3] by {
      assert LeafRun([0, 0], 4, 4) == [];
    }
    assert LeafRun([0, 0], 2, 4) == [0, 0, 2] + [0, 0, 3];
    assert LeafRun([0, 0], 1, 4) == [0, 0, 1] + [0, 0, 2] + [0, 0, 3];
  }

  lemma Prefix00()
    ensures Emitted(4, 3, 2, 1, [0, 0]) == Emitted00
  {
    EmittedStep(4, 3, 2, 1, [0, 0]);
    assert [0, 0] + [[0, 0][1]] == [0, 0, 0];
    Leaf000();
    From00At1();
  }

  lemma From01At2()
    ensures EmittedFrom(4, 3, 2, [0, 1], 2) == [1, 2, 2] + [1, 2, 3] + ([1, 3, 2] + [1, 3, 3])
  {
    LeafPeriodTwo(1, 2);
    LeafPeriodTwo(1, 3);
    assert [0, 1] + [2] == [0, 1, 2];
    assert [0, 1] + [3] == [0, 1, 3];
    assert EmittedFrom(4, 3, 2, [0, 1], 4) == [];
    assert EmittedFrom(4, 3, 2, [0, 1], 3) == [1, 3, 2] + [1, 3, 3];
  }

  lemma Prefix01()
    ensures Emitted(4, 3, 2, 1, [0, 1]) == Emitted01
  {
    LeafPeriodOne(1);
    From01At2();
    assert [0, 1] + [1] == [0, 1, 1];
  }

  lemma Prefix02()
    ensures Emitted(4, 3, 2, 1, [0, 2]) == Emitted02
  {
    LeafPeriodOne(2);
    LeafPeriodTwo(2, 3);
    assert [0, 2] + [2] == [0, 2, 2];
    assert [0, 2] + [3] == [0, 2, 3];
    assert EmittedFrom(4, 3, 2, [0, 2], 4) == [];
  }

  lemma Prefix03()
    ensures Emitted(4, 3, 2, 1, [0, 3]) == Emitted03
  {
    LeafPeriodOne(3);
    assert [0, 3] + [3] == [0, 3, 3];
    assert EmittedFrom(4, 3, 2, [0, 3], 4) == [];
  }

  lemma From0At3()
    ensures EmittedFrom(4, 3, 1, [0], 3) == Emitted03
  {
    Prefix03();
    assert [0] + [3] == [0, 3];
    assert EmittedFrom(4, 3, 1, [0], 4) == [];
  }

  lemma From0At2()
    ensures EmittedFrom(4, 3, 1, [0], 2) == Emitted02 + Emitted03
  {
    Prefix02();
    From0At3();
    assert [0] + [2] == [0, 2];
  }

  lemma From0At1()
    ensures EmittedFrom(4, 3, 1, [0], 1) == Emitted01 + (Emitted02 + Emitted03)
  {
    Prefix01();
    From0At2();
    assert [0] + [1] == [0, 1];
  }

  /** `de_bruijn(4, 3)` is the recorded 64-row sequence. */
  lemma DeBruijn43Emitted()
    ensures Emitted(4, 3, 1, 1, [0]) == DeBruijn43
    ensures |DeBruijn43| == 64
  {
    EmittedStep(4, 3, 1, 1, [0]);
    assert [0] + [[0][0]] == [0, 0];
    Prefix00();
    From0At1();
  }

  /** The unrolled sequence is the recorded mask, row for row. */
  lemma Mask66Recorded()
    ensures Mask66 == RecordedMask
  {
    assert Emitted000 == [0, 0, 0, 1, 0, 0, 2, 0, 0, 3];
    assert [0, 1, 1] + [0, 1, 2] + [0, 1, 3] == [0, 1, 1, 0, 1, 2, 0, 1, 3];
    assert [0, 2, 1] + [0, 2, 2] + [0, 2, 3] == [0, 2, 1, 0, 2, 2, 0, 2, 3];
    assert [0, 3, 1] + [0, 3, 2] + [0, 3, 3] == [0, 3, 1, 0, 3, 2, 0, 3, 3];
    assert [1] + [1, 1, 2] + [1, 1, 3] == [1, 1, 1, 2, 1, 1, 3];
    assert [1, 2, 2] + [1, 2, 3] + ([1, 3, 2] + [1, 3, 3]) == [1, 2, 2, 1, 2, 3, 1, 3, 2, 1, 3, 3];
    assert Emitted02 == [2, 2, 2, 3, 2, 3, 3];
  }

  // ---------------------------------------------------------------------
  // Completeness of the 66-row mask
  // ---------------------------------------------------------------------

  lemma CellsCovered0()
    ensures forall i :: 0 <= i < 4 ==> Occurs(Mask66, CellPattern(i))
  {
    assert OccursAt(Mask66, CellPattern(0), 0);
    assert OccursAt(Mask66, CellPattern(1), 3);
    assert OccursAt(Mask66, CellPattern(2), 6);
    assert OccursAt(Mask66, CellPattern(3), 63);
  }

  lemma CellsCovered1()
    ensures forall i :: 4 <= i < 8 ==> Occurs(Mask66, CellPattern(i))
  {
    assert OccursAt(Mask66, CellPattern(4), 2);
    assert OccursAt(Mask66, CellPattern(5), 11);
    assert OccursAt(Mask66, CellPattern(6), 20);
    assert OccursAt(Mask66, CellPattern(7), 29);
  }

  lemma CellsCovered2()
    ensures forall i :: 8 <= i < 12 ==> Occurs(Mask66, CellPattern(i))
  {
    assert OccursAt(Mask66, CellPattern(8), 5);
    assert OccursAt(Mask66, CellPattern(9), 14);
    assert OccursAt(Mask66, CellPattern(10), 23);
    assert OccursAt(Mask66, CellPattern(11), 32);
  }

  lemma CellsCovered3()
    ensures forall i :: 12 <= i < 16 ==> Occurs(Mask66, CellPattern(i))
  {
    assert OccursAt(Mask66, CellPattern(12), 8);
    assert OccursAt(Mask66, CellPattern(13), 17);
    assert OccursAt(Mask66, CellPattern(14), 26);
    assert OccursAt(Mask66, CellPattern(15), 62);
  }

  lemma CellsCovered4()
    ensures forall i :: 16 <= i < 20 ==> Occurs(Mask66, CellPattern(i))
  {
    assert OccursAt(Mask66, CellPattern(16), 1);
    assert OccursAt(Mask66, CellPattern(17), 12);
    assert OccursAt(Mask66, CellPattern(18), 15);
    assert Mask66[9] == 3 && Mask66[10] == 0 && Mask66[11] == 1;
    assert OccursAt(Mask66, CellPattern(19), 9);
  }

  lemma CellsCovered5()
    ensures forall i :: 20 <= i < 24 ==> Occurs(Mask66, CellPattern(i))
  {
    assert OccursAt(Mask66, CellPattern(20), 10);
    assert OccursAt(Mask66, CellPattern(21), 37);
    assert OccursAt(Mask66, CellPattern(22), 40);
    assert OccursAt(Mask66, CellPattern(23), 36);
  }

  lemma CellsCovered6()
    ensures forall i :: 24 <= i < 28 ==> Occurs(Mask66, CellPattern(i))
  {
    assert OccursAt(Mask66, CellPattern(24), 19);
    assert OccursAt(Mask66, CellPattern(25), 39);
    assert OccursAt(Mask66, CellPattern(26), 45);
    assert OccursAt(Mask66, CellPattern(27), 51);
  }

  lemma CellsCovered7()
    ensures forall i :: 28 <= i < 32 ==> Occurs(Mask66, CellPattern(i))
  {
    assert OccursAt(Mask66, CellPattern(28), 28);
    assert OccursAt(Mask66, CellPattern(29), 42);
    assert OccursAt(Mask66, CellPattern(30), 48);
    assert OccursAt(Mask66, CellPattern(31), 35);
  }

  lemma CellsCovered8()
    ensures forall i :: 32 <= i < 36 ==> Occurs(Mask66, CellPattern(i))
  {
    assert OccursAt(Mask66, CellPattern(32), 4);
    assert OccursAt(Mask66, CellPattern(33), 21);
    assert OccursAt(Mask66, CellPattern(34), 24);
    assert OccursAt(Mask66, CellPattern(35), 18);
  }

  lemma CellsCovered9()
    ensures forall i :: 36 <= i < 40 ==> Occurs(Mask66, CellPattern(i))
  {
    assert OccursAt(Mask66, CellPattern(36), 13);
    assert OccursAt(Mask66, CellPattern(37), 38);
    assert OccursAt(Mask66, CellPattern(38), 46);
    assert OccursAt(Mask66, CellPattern(39), 43);
  }

  lemma CellsCovered10()
    ensures forall i :: 40 <= i < 44 ==> Occurs(Mask66, CellPattern(i))
  {
    assert OccursAt(Mask66, CellPattern(40), 22);
    assert OccursAt(Mask66, CellPattern(41), 44);
    assert OccursAt(Mask66, CellPattern(42), 56);
    assert OccursAt(Mask66, CellPattern(43), 55);
  }

  lemma CellsCovered11()
    ensures forall i :: 44 <= i < 48 ==> Occurs(Mask66, CellPattern(i))
  {
    assert OccursAt(Mask66, CellPattern(44), 31);
    assert OccursAt(Mask66, CellPattern(45), 50);
    assert OccursAt(Mask66, CellPattern(46), 58);
    assert OccursAt(Mask66, CellPattern(47), 54);
  }

  lemma CellsCovered12()
    ensures forall i :: 48 <= i < 52 ==> Occurs(Mask66, CellPattern(i))
  {
    assert OccursAt(Mask66, CellPattern(48), 7);
    assert OccursAt(Mask66, CellPattern(49), 30);
    assert OccursAt(Mask66, CellPattern(50), 33);
    assert OccursAt(Mask66, CellPattern(51), 27);
  }

  lemma CellsCovered13()
    ensures forall i :: 52 <= i < 56 ==> Occurs(Mask66, CellPattern(i))
  {
    assert OccursAt(Mask66, CellPattern(52), 16);
    assert OccursAt(Mask66, CellPattern(53), 41);
    assert OccursAt(Mask66, CellPattern(54), 52);
    assert OccursAt(Mask66, CellPattern(55), 49);
  }

  lemma CellsCovered14()
    ensures forall i :: 56 <= i < 60 ==> Occurs(Mask66, CellPattern(i))
  {
    assert OccursAt(Mask66, CellPattern(56), 25);
    assert OccursAt(Mask66, CellPattern(57), 47);
    assert OccursAt(Mask66, CellPattern(58), 57);
    assert OccursAt(Mask66, CellPattern(59), 59);
  }

  lemma CellsCovered15()
    ensures forall i :: 60 <= i < 64 ==> Occurs(Mask66, CellPattern(i))
  {
    assert OccursAt(Mask66, CellPattern(60), 34);
    assert OccursAt(Mask66, CellPattern(61), 53);
    assert OccursAt(Mask66, CellPattern(62), 60);
    assert OccursAt(Mask66, CellPattern(63), 61);
  }

  /** Every one of the 64 cells is a window of the 66-row mask. */
  lemma Mask66Complete()
    ensures IsComplete(Mask66)
  {
    CellsCovered0();
    CellsCovered1();
    CellsCovered2();
    CellsCovered3();
    CellsCovered4();
    CellsCovered5();
    CellsCovered6();
    CellsCovered7();
    CellsCovered8();
    CellsCovered9();
    CellsCovered10();
    CellsCovered11();
    CellsCovered12();
    CellsCovered13();
    CellsCovered14();
    CellsCovered15();
  }

  /** The 66-row mask is made of row symbols: the generator only emits
      symbols it has put in its buffer. */
  lemma Mask66Symbols()
    ensures |Mask66| == 66 && IsSymbols(Mask66)
  {
    DeBruijn43Emitted();
    EmittedSymbols(4, 3, 1, 1, [0]);
    assert IsSymbols(DeBruijn43);
  }

  /** The 66-row mask is complete and no shorter mask is: 66 is optimal. */
  lemma Mask66Optimal()
    ensures IsComplete(Mask66)
    ensures forall m :: IsComplete(m) ==> |m| >= |Mask66|
  {
    Mask66Symbols();
    Mask66Complete();
    forall m | IsComplete(m) ensures |m| >= 66 {
      CompleteNeedsSixtySix(m);
    }
  }

  /** The cyclic sequence starts with two zero rows, so unrolling it for
      windows of three appends [0, 0]: that is the 66-row mask. */
  lemma UnrollDeBruijn43()
    ensures |DeBruijn43| == 64 && DeBruijn43[..2] == [0, 0]
    ensures Unroll(DeBruijn43, Width) == Mask66
  {
    DeBruijn43Emitted();
    assert DeBruijn43[0] == 0 && DeBruijn43[1] == 0;
  }

  /** The cyclic sequence alone is too short to be a complete linear
      mask. */
  lemma DeBruijn43Incomplete()
    ensures !IsComplete(DeBruijn43)
  {
    DeBruijn43Emitted();
    if IsComplete(DeBruijn43) {
      CompleteNeedsSixtySix(DeBruijn43);
    }
  }

  /** Read around its end, the cyclic sequence shows every cell: it is a
      de Bruijn sequence for 4 symbols and windows of 3. */
  lemma DeBruijn43Cyclic()
    ensures |DeBruijn43| > 0
    ensures forall i :: 0 <= i < PatternCount ==> CyclicOccurs(DeBruijn43, CellPattern(i))
  {
    UnrollDeBruijn43();
    Mask66Complete();
    forall i | 0 <= i < PatternCount
      ensures CyclicOccurs(DeBruijn43, CellPattern(i))
    {
      assert Occurs(Mask66, CellPattern(i));
      var s :| OccursAt(Mask66, CellPattern(i), s);
      UnrollCoversCyclicWindows(DeBruijn43, Width, s);
      assert Mask66[s..s + Width] == CyclicWindow(DeBruijn43, s, Width);
      assert 0 <= s < |DeBruijn43|;
    }
  }

  // ---------------------------------------------------------------------
  // The two masks of `main`
  // ---------------------------------------------------------------------

  /** The first mask of `main`: `de_bruijn(4, 3)` as it is, which the
      checker rejects. */
  method CyclicMask() returns (mask: seq<int>, complete: Result<bool>)
    ensures mask == DeBruijn43 && |mask| == 64
    ensures complete == Success(false)
  {
    mask := DeBruijnSequence(4, 3);
    DeBruijn43Emitted();
    Mask66Symbols();
    assert IsSymbols(mask);
    complete := IsCompleteMask(mask);
    DeBruijn43Incomplete();
  }

  /** The second mask of `main`: `de_bruijn(4, 3)` followed by its first
      two rows, which is the recorded optimal mask and which the checker
      accepts. */
  method UnrolledMask() returns (mask: seq<int>, complete: Result<bool>)
    ensures mask == Mask66 && mask == RecordedMask && |mask| == 66
    ensures complete == Success(true)
  {
    Mask66Recorded();
    var sequence := DeBruijnSequence(4, 3);
    DeBruijn43Emitted();
    UnrollDeBruijn43();
    mask := sequence + sequence[..2];
    Mask66Symbols();
    Mask66Complete();
    complete := IsCompleteMask(mask);
  }
}
