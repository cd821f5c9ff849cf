/** The Fredricksen-Kessler-Maiorana construction of a de Bruijn sequence
    for alphabet 0 .. k - 1 and window n: a backtracking walk that builds
    words in a shared buffer `a` and, at each leaf, emits the buffer's
    prefix a[1..p] when p divides n. For k = 4 and n = 3 it yields the
    64-row cyclic sequence of the two-dot row case; adding its first two
    rows at the end gives the 66-row complete mask. */
module DeBruijn {
  import opened Windows
  import opened CellMask

  // ---------------------------------------------------------------------
  // What `db(t, p)` appends, as a function of the buffer prefix a[0..t)
  // ---------------------------------------------------------------------

  /** The symbols `db(t, p)` appends when the buffer holds `a` below t.
      Positions at and above t are overwritten before they are read, so
      they do not matter. */
  ghost function Emitted(k: nat, n: nat, t: nat, p: nat, a: seq<int>): seq<int>
    requires 1 <= p <= t && p <= n && t <= n + 1 && |a| == t
    decreases n + 1 - t, 1, 0
  {
    if t > n then
      if n % p == 0 then a[1..p + 1] else []
    else
      Emitted(k, n, t + 1, p, a + [a[t - p]]) + EmittedFrom(k, n, t, a, a[t - p] + 1)
  }

  /** What the loop `for j in range(from, k)` of `db(t, p)` appends: for
      each j, set a[t] = j and recurse as `db(t + 1, t)`. */
  ghost function EmittedFrom(k: nat, n: nat, t: nat, a: seq<int>, from: int): seq<int>
    requires 1 <= t <= n && |a| == t
    decreases n + 1 - t, 0, k - from
  {
    if from >= k then []
    else Emitted(k, n, t + 1, t, a + [from]) + EmittedFrom(k, n, t, a, from + 1)
  }

  /** Every emitted symbol is already in the buffer, so all of them are
      in 0 .. k - 1 when the buffer is. */
  lemma {:induction false} EmittedSymbols(k: nat, n: nat, t: nat, p: nat, a: seq<int>)
    requires 1 <= p <= t && p <= n && t <= n + 1 && |a| == t
    requires forall i :: 0 <= i < |a| ==> 0 <= a[i] < k
    ensures forall i :: 0 <= i < |Emitted(k, n, t, p, a)| ==> 0 <= Emitted(k, n, t, p, a)[i] < k
    decreases n + 1 - t, 1, 0
  {
    if t <= n {
      EmittedSymbols(k, n, t + 1, p, a + [a[t - p]]);
      EmittedFromSymbols(k, n, t, a, a[t - p] + 1);
    }
  }

  lemma {:induction false} EmittedFromSymbols(k: nat, n: nat, t: nat, a: seq<int>, from: int)
    requires 1 <= t <= n && |a| == t && 0 <= from
    requires forall i :: 0 <= i < |a| ==> 0 <= a[i] < k
    ensures forall i :: 0 <= i < |EmittedFrom(k, n, t, a, from)| ==>
      0 <= EmittedFrom(k, n, t, a, from)[i] < k
    decreases n + 1 - t, 0, k - from
  {
    if from < k {
      EmittedSymbols(k, n, t + 1, t, a + [from]);
      EmittedFromSymbols(k, n, t, a, from + 1);
    }
  }

  // ---------------------------------------------------------------------
  // The generator over a mutable buffer
  // ---------------------------------------------------------------------

  /** `db(t, p)`: `a` is the shared buffer and `sequence` what has been
      emitted so far. It appends Emitted(..., a[0..t)) and leaves a[0..t)
      as it found it, with every buffer index in bounds. */
  method Db(a: array<int>, k: nat, n: nat, t: nat, p: nat, sequence: seq<int>)
    returns (out: seq<int>)
    requires 2 <= k && 1 <= n && n < a.Length
    requires 1 <= p <= t && p <= n && t <= n + 1
    requires InAlphabet(a[..t], k)
    modifies a
    ensures out == sequence + Emitted(k, n, t, p, old(a[..t]))
    ensures a[..t] == old(a[..t])
    decreases n + 1 - t, 1
  {
    ghost var prefix := a[..t];
    if t > n {
      out := sequence;
      if n % p == 0 {
        out := AppendWord(a, p, sequence);
      }
    } else {
      a[t] := a[t - p];
      assert a[..t + 1] == prefix + [prefix[t - p]];
      InAlphabetSnoc(prefix, prefix[t - p], k);
      out := Db(a, k, n, t + 1, p, sequence);
      assert a[..t] == a[..t + 1][..t];
      var from := a[t - p] + 1;
      assert from == prefix[t - p] + 1;
      EmittedStep(k, n, t, p, prefix);
      AppendAssoc(sequence, Emitted(k, n, t + 1, p, prefix + [prefix[t - p]]),
        EmittedFrom(k, n, t, prefix, from));
      out := DbBranches(a, k, n, t, from, out);
    }
  }

  /** The loop of `db(t, p)` after its first recursive call: for each j
      in range(from, k), set a[t] = j and call `db(t + 1, t)`. */
  method DbBranches(a: array<int>, k: nat, n: nat, t: nat, from: int, sequence: seq<int>)
    returns (out: seq<int>)
    requires 2 <= k && 1 <= n && n < a.Length
    requires 1 <= t <= n && 0 < from <= k
    requires InAlphabet(a[..t], k)
    modifies a
    ensures out == sequence + EmittedFrom(k, n, t, old(a[..t]), from)
    ensures a[..t] == old(a[..t])
    decreases n + 1 - t, 0
  {
    ghost var prefix := a[..t];
    out := sequence;
    for j := from to k
      invariant a[..t] == prefix
      invariant out + EmittedFrom(k, n, t, prefix, j) == sequence + EmittedFrom(k, n, t, prefix, from)
    {
      a[t] := j;
      assert a[..t + 1] == prefix + [j];
      InAlphabetSnoc(prefix, j, k);
      EmittedFromStep(k, n, t, prefix, j);
      AppendAssoc(out, Emitted(k, n, t + 1, t, prefix + [j]), EmittedFrom(k, n, t, prefix, j + 1));
      out := Db(a, k, n, t + 1, t, out);
      assert a[..t] == a[..t + 1][..t];
    }
  }

  /** The leaf step of `db`: append a[1], ..., a[p] one at a time. */
  method AppendWord(a: array<int>, p: nat, sequence: seq<int>) returns (out: seq<int>)
    requires p < a.Length
    ensures out == sequence + a[1..p + 1]
  {
    out := sequence;
    for j := 1 to p + 1
      invariant out == sequence + a[1..j]
    {
      out := out + [a[j]];
    }
  }

  lemma AppendAssoc(x: seq<int>, y: seq<int>, z: seq<int>)
    ensures x + y + z == x + (y + z)
  {
  }

  /** Every element is one of 0 .. k - 1. */
  ghost predicate InAlphabet(s: seq<int>, k: nat) {
    forall i :: 0 <= i < |s| ==> 0 <= s[i] < k
  }

  lemma InAlphabetSnoc(s: seq<int>, x: int, k: nat)
    requires InAlphabet(s, k) && 0 <= x < k
    ensures InAlphabet(s + [x], k)
  {
  }

  lemma EmittedStep(k: nat, n: nat, t: nat, p: nat, a: seq<int>)
    requires 1 <= p <= t <= n && |a| == t
    ensures Emitted(k, n, t, p, a) ==
      Emitted(k, n, t + 1, p, a + [a[t - p]]) + EmittedFrom(k, n, t, a, a[t - p] + 1)
  {
  }

  lemma EmittedFromStep(k: nat, n: nat, t: nat, a: seq<int>, from: int)
    requires 1 <= t <= n && |a| == t && from < k
    ensures EmittedFrom(k, n, t, a, from) ==
      Emitted(k, n, t + 1, t, a + [from]) + EmittedFrom(k, n, t, a, from + 1)
  {
  }

  /** `de_bruijn(k, n)`: a zeroed buffer of k * n cells and `db(1, 1)`.
      It needs k >= 2 and n >= 1: for k = 1 the buffer is too short for
      a[n], and for n = 0 it is empty and a[1] is out of range. */
  method DeBruijnSequence(k: nat, n: nat) returns (sequence: seq<int>)
    requires 2 <= k && 1 <= n
    ensures sequence == Emitted(k, n, 1, 1, [0])
    ensures forall i :: 0 <= i < |sequence| ==> 0 <= sequence[i] < k
  {
    var a := new int[k * n](_ => 0);
    assert k * n >= 2 * n;
    assert a[..1] == [0];
    assert InAlphabet(a[..1], k);
    sequence := Db(a, k, n, 1, 1, []);
    EmittedSymbols(k, n, 1, 1, [0]);
  }
}
