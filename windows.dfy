/** Sliding windows over a mask: where a pattern occurs as a contiguous
    block, the counting bound that every covering mask obeys, and how
    a cyclic sequence is turned into a linear mask. Shared by the binary
    column case and the two-dot row case. */
module Windows {

  /** `pat` sits in `m` starting at offset `s`. */
  ghost predicate OccursAt<T>(m: seq<T>, pat: seq<T>, s: int) {
    0 <= s && s + |pat| <= |m| && m[s..s + |pat|] == pat
  }

  /** `pat` is one of the contiguous windows of `m`. */
  ghost predicate Occurs<T>(m: seq<T>, pat: seq<T>) {
    exists s :: OccursAt(m, pat, s)
  }

  ghost predicate AllDistinct<T>(xs: seq<T>) {
    forall i, j :: 0 <= i < j < |xs| ==> xs[i] != xs[j]
  }

  /** Distinct integers drawn from [0, b) number at most b. */
  lemma {:induction false} Pigeonhole(xs: seq<int>, b: int)
    requires 0 <= b
    requires forall i :: 0 <= i < |xs| ==> 0 <= xs[i] < b
    requires AllDistinct(xs)
    ensures |xs| <= b
    decreases b
  {
    if |xs| > 0 {
      assert 0 <= xs[0] < b;
      if i :| 0 <= i < |xs| && xs[i] == b - 1 {
        var ys := xs[..i] + xs[i + 1..];
        assert forall j :: 0 <= j < |ys| ==> ys[j] == xs[if j < i then j else j + 1];
        assert forall j :: 0 <= j < |ys| ==> 0 <= ys[j] < b - 1 by {
          forall j | 0 <= j < |ys| ensures 0 <= ys[j] < b - 1 {
            var k := if j < i then j else j + 1;
            assert ys[j] == xs[k] && k != i;
          }
        }
        assert AllDistinct(ys) by {
          forall j1, j2 | 0 <= j1 < j2 < |ys| ensures ys[j1] != ys[j2] {
            var k1, k2 := if j1 < i then j1 else j1 + 1, if j2 < i then j2 else j2 + 1;
            assert ys[j1] == xs[k1] && ys[j2] == xs[k2] && k1 < k2;
          }
        }
        Pigeonhole(ys, b - 1);
      } else {
        assert forall j :: 0 <= j < |xs| ==> xs[j] != b - 1;
        Pigeonhole(xs, b - 1);
      }
    }
  }

  /** A mask in which N pairwise different patterns of width w all occur
      needs N distinct start offsets among its |m| - w + 1 windows, so it
      is at least N + w - 1 symbols long. */
  lemma LowerBound<T>(m: seq<T>, pats: seq<seq<T>>, w: nat)
    requires |pats| > 0
    requires forall i :: 0 <= i < |pats| ==> |pats[i]| == w
    requires AllDistinct(pats)
    requires forall i :: 0 <= i < |pats| ==> Occurs(m, pats[i])
    ensures |m| >= |pats| + w - 1
  {
    var starts := StartsOf(m, pats, w, |pats|);
    assert 0 <= starts[0] < |m| - w + 1;
    Pigeonhole(starts, |m| - w + 1);
  }

  /** One start offset per pattern; different patterns get different
      offsets because a window determines its contents. */
  ghost function StartsOf<T>(m: seq<T>, pats: seq<seq<T>>, w: nat, count: nat): (r: seq<int>)
    requires count <= |pats|
    requires forall i :: 0 <= i < |pats| ==> |pats[i]| == w
    requires AllDistinct(pats)
    requires forall i :: 0 <= i < |pats| ==> Occurs(m, pats[i])
    ensures |r| == count
    ensures forall i :: 0 <= i < count ==> OccursAt(m, pats[i], r[i])
    ensures forall i :: 0 <= i < count ==> 0 <= r[i] < |m| - w + 1
    ensures AllDistinct(r)
  {
    if count == 0 then []
    else
      var prev := StartsOf(m, pats, w, count - 1);
      assert Occurs(m, pats[count - 1]);
      var s :| OccursAt(m, pats[count - 1], s);
      var r := prev + [s];
      assert forall i :: 0 <= i < count - 1 ==> r[i] != s by {
        forall i | 0 <= i < count - 1 ensures r[i] != s {
          assert m[r[i]..r[i] + w] == pats[i] != pats[count - 1] == m[s..s + w];
        }
      }
      r
  }

  /** The window of width w that starts at `start` when `s` is read as a
      cycle. */
  function CyclicWindow<T>(s: seq<T>, start: nat, w: nat): (r: seq<T>)
    requires |s| > 0
    ensures |r| == w
  {
    seq(w, j requires 0 <= j < w => s[(start + j) % |s|])
  }

  /** `pat` is one of the windows of `c` read as a cycle. */
  ghost predicate CyclicOccurs<T>(c: seq<T>, pat: seq<T>)
    requires |c| > 0
  {
    exists s :: 0 <= s < |c| && CyclicWindow(c, s, |pat|) == pat
  }

  /** Appends the first w - 1 symbols of `s` to its end, which turns a
      cyclic covering sequence into a linear mask. */
  function Unroll<T>(s: seq<T>, w: nat): (r: seq<T>)
    requires 1 <= w
    ensures |s| <= |r| <= 2 * |s|
    ensures w - 1 <= |s| ==> |r| == |s| + w - 1
    ensures r[..|s|] == s
    ensures forall i :: |s| <= i < |r| ==> r[i] == s[i - |s|]
  {
    s + s[..if w - 1 <= |s| then w - 1 else |s|]
  }

  /** Every cyclic window of `s`, including those that wrap around its
      end, is a genuine linear window of Unroll(s, w). */
  lemma UnrollCoversCyclicWindows<T>(s: seq<T>, w: nat, start: nat)
    requires 1 <= w <= |s| + 1 && start < |s|
    ensures |Unroll(s, w)| == |s| + w - 1
    ensures OccursAt(Unroll(s, w), CyclicWindow(s, start, w), start)
  {
    var u := Unroll(s, w);
    forall j | 0 <= j < w
      ensures u[start + j] == CyclicWindow(s, start, w)[j]
    {
      if start + j < |s| {
        ModBelow(start + j, |s|);
      } else {
        ModWrap(start + j, |s|);
      }
    }
    assert u[start..start + w] == CyclicWindow(s, start, w);
  }

  /** Conversely, a linear window of `s` is one of its cyclic windows. */
  lemma LinearWindowIsCyclic<T>(s: seq<T>, w: nat, start: nat)
    requires start + w <= |s| && |s| > 0
    ensures CyclicWindow(s, start, w) == s[start..start + w]
  {
    forall j | 0 <= j < w
      ensures CyclicWindow(s, start, w)[j] == s[start + j]
    {
      ModBelow(start + j, |s|);
    }
  }

  lemma ModBelow(x: int, n: int)
    requires 0 <= x < n
    ensures x % n == x
  {
  }

  lemma ModWrap(x: int, n: int)
    requires 0 < n <= x < 2 * n
    ensures x % n == x - n
  {
  }

  /** The members of `xs` that `keep` accepts, in their order in `xs`. */
  ghost function Filter<T>(xs: seq<T>, keep: T -> bool): (r: seq<T>)
    ensures |r| <= |xs|
  {
    if xs == [] then []
    else Filter(xs[..|xs| - 1], keep) + (if keep(xs[|xs| - 1]) then [xs[|xs| - 1]] else [])
  }

  /** Filtering keeps exactly the accepted members. */
  lemma {:induction false} FilterMember<T>(xs: seq<T>, keep: T -> bool, x: T)
    ensures x in Filter(xs, keep) <==> x in xs && keep(x)
  {
    if xs != [] {
      var init := xs[..|xs| - 1];
      FilterMember(init, keep, x);
      assert xs == init + [xs[|xs| - 1]];
    }
  }

  /** Filtering keeps the members in order: a list ordered by `less` stays
      ordered. */
  lemma {:induction false} FilterOrdered<T>(xs: seq<T>, keep: T -> bool, less: (T, T) -> bool)
    requires forall i, j :: 0 <= i < j < |xs| ==> less(xs[i], xs[j])
    ensures forall i, j :: 0 <= i < j < |Filter(xs, keep)| ==>
      less(Filter(xs, keep)[i], Filter(xs, keep)[j])
  {
    if xs != [] {
      var init := xs[..|xs| - 1];
      var last := xs[|xs| - 1];
      assert forall i, j :: 0 <= i < j < |init| ==> less(init[i], init[j]) by {
        forall i, j | 0 <= i < j < |init| ensures less(init[i], init[j]) {
          assert init[i] == xs[i] && init[j] == xs[j];
        }
      }
      FilterOrdered(init, keep, less);
      var prev := Filter(init, keep);
      var r := Filter(xs, keep);
      forall i, j | 0 <= i < j < |r| ensures less(r[i], r[j]) {
        assert r == prev + (if keep(last) then [last] else []);
        assert i < |prev|;
        assert r[i] == prev[i];
        if j < |prev| {
          assert r[j] == prev[j];
          assert less(prev[i], prev[j]);
        } else {
          assert prev[i] in prev;
          FilterMember(init, keep, prev[i]);
          var k :| 0 <= k < |init| && init[k] == prev[i];
          assert xs[k] == r[i] && xs[|xs| - 1] == r[j];
          assert k < |xs| - 1;
          assert less(xs[k], xs[|xs| - 1]);
        }
      }
    }
  }

  lemma FilterSnoc<T>(xs: seq<T>, x: T, keep: T -> bool)
    ensures Filter(xs + [x], keep) == Filter(xs, keep) + (if keep(x) then [x] else [])
  {
    assert (xs + [x])[..|xs|] == xs;
  }
}
