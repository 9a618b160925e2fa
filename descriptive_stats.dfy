/**
 * `DistributionEstimators<NumQuantiles>`: the P-square streaming quantile
 * estimator. It keeps `NumMarkers == 2Q+3` markers, each with a height (an
 * estimate of a quantile), an actual position (the marker's rank among the
 * samples seen) and a desired position (the rank of the quantile it tracks).
 *
 * The first `NumMarkers` samples are stored as they arrive and sorted once
 * the buffer is full. After that each sample falls into a cell between two
 * markers, the positions of the markers above it shift up by one, the desired
 * positions advance, and every interior marker that has drifted at least one
 * rank from its desired position moves one rank towards it, its height
 * adjusted by the piecewise-parabolic formula or, when that would leave the
 * neighbours' interval, the linear one.
 *
 * Heights and desired positions are exact reals here and actual positions are
 * integers; every fact proved is about ordering and bookkeeping. The class
 * invariant `Valid` holds that the heights are sorted, the end markers are
 * the exact minimum and maximum of all samples, the actual positions are
 * strictly increasing from 1 to the number of samples, and the desired
 * position of marker i is the rank `1 + (n-1) i / (2(Q+1))`.
 */
module DescriptiveStats {
  import opened Common

  /** The number of markers the estimator keeps for `q` quantiles. */
  function NumMarkers(q: nat): nat { 2 * q + 3 }

  /** `_positions_increments(i)`: how far marker i's desired position advances per sample. */
  function Increment(q: nat, i: nat): real {
    i as real / (2 * (q + 1)) as real
  }

  /** The rank, among `n` samples, of the quantile at probability `i / (2(q+1))`. */
  function DesiredRank(q: nat, i: nat, n: int): real {
    1.0 + (n - 1) as real * Increment(q, i)
  }

  /** Each element is at most the next; `SortedOrdered` extends this to any two elements. */
  predicate Sorted(s: seq<real>) {
    forall i :: 0 < i < |s| ==> s[i - 1] <= s[i]
  }

  predicate Increasing(s: seq<int>) {
    forall i :: 0 < i < |s| ==> s[i - 1] < s[i]
  }

  ghost predicate IsMin(m: real, s: seq<real>) {
    m in s && forall y :: y in s ==> m <= y
  }

  ghost predicate IsMax(m: real, s: seq<real>) {
    m in s && forall y :: y in s ==> y <= m
  }

  // ---------------------------------------------------------------------------
  // Positions
  // ---------------------------------------------------------------------------

  /** The constructor's desired position `1 + 2(Q+1) * increment(i)` is the rank `i + 1`. */
  lemma ConstructorDesired(q: nat, i: nat)
    ensures 1.0 + 2.0 * (q as real + 1.0) * Increment(q, i) == (i + 1) as real
    ensures DesiredRank(q, i, NumMarkers(q)) == (i + 1) as real
  {
    var k := (2 * (q + 1)) as real;
    assert 2.0 * (q as real + 1.0) == k;
    assert k * (i as real / k) == i as real;
    assert (NumMarkers(q) - 1) as real == k;
  }

  /** The constructor's actual positions, `1..m`. */
  function FirstPositions(m: nat): (r: seq<int>)
    ensures |r| == m && forall j :: 0 <= j < m ==> r[j] == j + 1
  {
    seq(m, j requires 0 <= j < m => j + 1)
  }

  /** The constructor's desired positions, `1..m` as reals. */
  function FirstRanks(m: nat): (r: seq<real>)
    ensures |r| == m && forall j :: 0 <= j < m ==> r[j] == (j + 1) as real
  {
    seq(m, j requires 0 <= j < m => (j + 1) as real)
  }

  /** Advancing a desired position by its increment moves it to the rank for one more sample. */
  lemma DesiredAdvance(q: nat, i: nat, n: int)
    ensures DesiredRank(q, i, n) + Increment(q, i) == DesiredRank(q, i, n + 1)
  {
    var c := Increment(q, i);
    assert (n - 1) as real * c + c == n as real * c;
  }

  lemma DivSelf(k: real)
    requires k > 0.0
    ensures k / k == 1.0 && 0.0 / k == 0.0
  {
  }

  /** The first marker tracks rank 1 and the last marker rank `n`: the minimum and the maximum. */
  lemma EndRanks(q: nat, n: int)
    ensures DesiredRank(q, 0, n) == 1.0
    ensures DesiredRank(q, NumMarkers(q) - 1, n) == n as real
  {
    var k := (2 * (q + 1)) as real;
    assert (NumMarkers(q) - 1) as real == k;
    DivSelf(k);
    assert Increment(q, 0) == 0.0 / k;
  }

  /** The first marker's desired position never advances; the last one's advances by one. */
  lemma IncrementEnds(q: nat)
    ensures Increment(q, 0) == 0.0
    ensures Increment(q, NumMarkers(q) - 1) == 1.0
  {
    EndRanks(q, 2);
  }

  /** Lines 104-107: the actual positions of exactly the markers at index `cell` and above grow by one. */
  function Bumped(n: seq<int>, cell: nat): (r: seq<int>)
    ensures |r| == |n|
    ensures forall j :: 0 <= j < |n| ==> r[j] == (if j >= cell then n[j] + 1 else n[j])
    ensures Increasing(n) && cell >= 1 ==> Increasing(r)
  {
    seq(|n|, j requires 0 <= j < |n| => if j >= cell then n[j] + 1 else n[j])
  }

  /** Lines 110-113: every desired position advances by its increment. */
  function Advanced(d: seq<real>, q: nat): (r: seq<real>)
    ensures |r| == |d|
    ensures forall j :: 0 <= j < |d| ==> r[j] == d[j] + Increment(q, j)
  {
    seq(|d|, j requires 0 <= j < |d| => d[j] + Increment(q, j))
  }

  // ---------------------------------------------------------------------------
  // Sorting the first samples
  // ---------------------------------------------------------------------------

  lemma {:induction false} SortedOrdered(s: seq<real>, i: nat, j: nat)
    requires Sorted(s) && i <= j < |s|
    ensures s[i] <= s[j]
    decreases j - i
  {
    if i < j {
      SortedOrdered(s, i, j - 1);
    }
  }

  lemma SortedPairs(s: seq<real>)
    requires Sorted(s)
    ensures forall i, j :: 0 <= i <= j < |s| ==> s[i] <= s[j]
  {
    forall i, j | 0 <= i <= j < |s|
      ensures s[i] <= s[j]
    {
      SortedOrdered(s, i, j);
    }
  }

  /** Inserting into a sorted sequence keeps it sorted and adds exactly one element. */
  function Insert(x: real, s: seq<real>): (r: seq<real>)
    requires Sorted(s)
    ensures |r| == |s| + 1
    ensures Sorted(r)
    ensures r[0] == x || (|s| > 0 && r[0] == s[0])
    ensures multiset(r) == multiset(s) + multiset{x}
  {
    if |s| == 0 || x <= s[0] then [x] + s
    else
      assert s == [s[0]] + s[1..];
      [s[0]] + Insert(x, s[1..])
  }

  /** The ordering `std::sort` establishes: a sorted permutation of the samples. */
  function SortSamples(s: seq<real>): (r: seq<real>)
    ensures |r| == |s|
    ensures Sorted(r)
    ensures multiset(r) == multiset(s)
  {
    if |s| == 0 then []
    else
      assert s == s[..|s| - 1] + [s[|s| - 1]];
      Insert(s[|s| - 1], SortSamples(s[..|s| - 1]))
  }

  /** The first and last elements of a sorted permutation are the minimum and the maximum. */
  lemma SortedEnds(r: seq<real>, s: seq<real>)
    requires Sorted(r) && multiset(r) == multiset(s) && |r| > 0
    ensures IsMin(r[0], s) && IsMax(r[|r| - 1], s)
  {
    SortedPairs(r);
    assert r[0] in multiset(r);
    assert r[|r| - 1] in multiset(r);
    forall y | y in s
      ensures r[0] <= y <= r[|r| - 1]
    {
      assert y in multiset(s);
      assert y in r;
    }
  }

  /** A new sample lowers the minimum exactly when it is below it. */
  lemma MinExtends(m: real, s: seq<real>, x: real)
    requires IsMin(m, s)
    ensures IsMin(if x < m then x else m, s + [x])
  {
  }

  /** A new sample raises the maximum exactly when it is at or above it. */
  lemma MaxExtends(m: real, s: seq<real>, x: real)
    requires IsMax(m, s)
    ensures IsMax(if x >= m then x else m, s + [x])
  {
  }

  // ---------------------------------------------------------------------------
  // Finding the cell of a sample
  // ---------------------------------------------------------------------------

  /** The index `std::upper_bound` returns: the first element above `x`. */
  function FirstAbove(h: seq<real>, x: real): (k: nat)
    ensures k <= |h|
    ensures forall j :: 0 <= j < k ==> h[j] <= x
    ensures k < |h| ==> x < h[k]
  {
    if |h| == 0 || x < h[0] then 0 else 1 + FirstAbove(h[1..], x)
  }

  /** On a sorted sequence every element from `FirstAbove` on is above `x`. */
  lemma FirstAboveSplits(h: seq<real>, x: real)
    requires Sorted(h)
    ensures forall j :: FirstAbove(h, x) <= j < |h| ==> x < h[j]
  {
    var k := FirstAbove(h, x);
    forall j | k <= j < |h|
      ensures x < h[j]
    {
      SortedOrdered(h, k, j);
    }
  }

  /** An index splitting `h` into elements at most `x` and elements above it is `FirstAbove`. */
  lemma {:induction false} SplitIsFirstAbove(h: seq<real>, x: real, k: nat)
    requires k <= |h|
    requires forall j :: 0 <= j < k ==> h[j] <= x
    requires forall j :: k <= j < |h| ==> x < h[j]
    ensures k == FirstAbove(h, x)
    decreases |h|
  {
    if |h| > 0 && h[0] <= x {
      assert k > 0;
      SplitIsFirstAbove(h[1..], x, k - 1);
    } else if |h| > 0 {
      assert k == 0;
    }
  }

  /** Writing `v` at `i` keeps a sequence sorted when `v` lies between the neighbours of `i`. */
  lemma ReplaceKeepsSorted(h: seq<real>, i: nat, v: real)
    requires Sorted(h) && i < |h|
    requires i == 0 || h[i - 1] <= v
    requires i == |h| - 1 || v <= h[i + 1]
    ensures Sorted(h[i := v])
  {
  }

  /**
   * Lines 82-101: a sample below the first marker becomes the first marker,
   * one at or above the last marker becomes the last marker, and the cell is
   * the index of the first marker above the sample. The cell lies in
   * `[1, NumMarkers-1]` with `h[cell-1] <= x < h[cell]`, except that a
   * sample that became the last marker equals it.
   */
  function PlaceSample(h: seq<real>, x: real): (r: (seq<real>, nat))
    requires |h| >= 2 && Sorted(h)
    ensures |r.0| == |h| && 1 <= r.1 <= |h| - 1
    ensures Sorted(r.0)
    ensures r.0[r.1 - 1] <= x
    ensures x < r.0[r.1] || (r.1 == |h| - 1 && x == r.0[r.1])
    ensures r.0[0] == (if x < h[0] then x else h[0])
    ensures r.0[|h| - 1] == (if x >= h[|h| - 1] then x else h[|h| - 1])
    ensures forall j :: 0 < j < |h| - 1 ==> r.0[j] == h[j]
  {
    if x < h[0] then
      SortedOrdered(h, 0, |h| - 1);
      ReplaceKeepsSorted(h, 0, x);
      (h[0 := x], 1)
    else if x >= h[|h| - 1] then
      ReplaceKeepsSorted(h, |h| - 1, x);
      (h[|h| - 1 := x], |h| - 1)
    else
      (h, FirstAbove(h, x))
  }

  // ---------------------------------------------------------------------------
  // Adjusting the interior markers
  // ---------------------------------------------------------------------------

  /** Line 131: the condition under which a marker moves, from its offsets. */
  predicate ShouldMove(off: real, dp: int, dm: int) {
    (off >= 1.0 && dp > 1) || (off <= -1.0 && dm < -1)
  }

  /** `a / k` is a share of `a` for `k >= 1`. */
  lemma ShareOf(a: real, k: real)
    requires a >= 0.0 && k >= 1.0
    ensures 0.0 <= a / k <= a
  {
    assert a / k * k == a;
  }

  /**
   * Lines 127-154, the new height of a marker that moves: the
   * piecewise-parabolic prediction when it lies strictly between the
   * neighbours' heights, else a linear step towards the neighbour in the
   * direction of the move. It stays between the neighbours.
   */
  function NewHeight(below: real, here: real, above: real, off: real, dp: int, dm: int): (v: real)
    requires dp >= 1 && dm <= -1 && ShouldMove(off, dp, dm)
    ensures below <= here <= above ==> below <= v <= above
  {
    var hp := (above - here) / dp as real;
    var hm := (below - here) / dm as real;
    var s := if off > 0.0 then 1 else -1;
    var p := here + s as real / (dp - dm) as real * ((s - dm) as real * hp + (dp - s) as real * hm);
    if below < p < above then p
    else if off > 0.0 then
      assert below <= here <= above ==> 0.0 <= hp <= above - here by {
        if below <= here <= above {
          ShareOf(above - here, dp as real);
        }
      }
      here + hp
    else
      assert hm == (here - below) / (-dm) as real;
      assert below <= here <= above ==> 0.0 <= hm <= here - below by {
        if below <= here <= above {
          ShareOf(here - below, (-dm) as real);
        }
      }
      here - hm
  }

  /** The sign of a non-zero offset, `d / |d|`. */
  function SignOf(off: real): int {
    if off > 0.0 then 1 else -1
  }

  function RealAbs(x: real): real { if x < 0.0 then -x else x }

  /**
   * Lines 118-155 for one interior marker `i`: when `ShouldMove`, the marker
   * gets its `NewHeight` and moves one rank towards its desired position;
   * otherwise nothing changes. Heights stay sorted and positions strictly
   * increasing.
   */
  function AdjustAt(h: seq<real>, n: seq<int>, d: seq<real>, i: nat): (r: (seq<real>, seq<int>))
    requires |h| == |n| == |d| && 1 <= i < |h| - 1
    requires Increasing(n)
    ensures |r.0| == |h| && |r.1| == |n|
    ensures forall j :: 0 <= j < |h| && j != i ==> r.0[j] == h[j] && r.1[j] == n[j]
    ensures Increasing(r.1)
    ensures Sorted(h) ==> Sorted(r.0)
    ensures r.1[i] != n[i] <==> ShouldMove(d[i] - n[i] as real, n[i + 1] - n[i], n[i - 1] - n[i])
    ensures r.1[i] == n[i] ==> r.0[i] == h[i]
    ensures r.1[i] != n[i] ==>
      && r.1[i] == n[i] + SignOf(d[i] - n[i] as real)
      && RealAbs(d[i] - r.1[i] as real) == RealAbs(d[i] - n[i] as real) - 1.0
  {
    var off := d[i] - n[i] as real;
    var dp := n[i + 1] - n[i];
    var dm := n[i - 1] - n[i];
    if ShouldMove(off, dp, dm) then
      var v := NewHeight(h[i - 1], h[i], h[i + 1], off, dp, dm);
      assert Sorted(h) ==> Sorted(h[i := v]) by {
        if Sorted(h) {
          ReplaceKeepsSorted(h, i, v);
        }
      }
      (h[i := v], n[i := n[i] + SignOf(off)])
    else
      (h, n)
  }

  /**
   * Lines 116-157: `AdjustAt` for markers `i` up to `NumMarkers-2` in turn.
   * The first and last markers never change, the heights stay sorted and the
   * positions strictly increasing.
   */
  function AdjustFrom(h: seq<real>, n: seq<int>, d: seq<real>, i: nat): (r: (seq<real>, seq<int>))
    requires |h| == |n| == |d| >= 2 && 1 <= i <= |h| - 1
    requires Increasing(n)
    ensures |r.0| == |h| && |r.1| == |n|
    ensures Increasing(r.1)
    ensures Sorted(h) ==> Sorted(r.0)
    ensures r.0[0] == h[0] && r.0[|h| - 1] == h[|h| - 1]
    ensures r.1[0] == n[0] && r.1[|n| - 1] == n[|n| - 1]
    decreases |h| - i
  {
    if i == |h| - 1 then (h, n)
    else
      var step := AdjustAt(h, n, d, i);
      AdjustFrom(step.0, step.1, d, i + 1)
  }

  // ---------------------------------------------------------------------------
  // One sample after the buffer is full
  // ---------------------------------------------------------------------------

  /**
   * The markers after the first `NumMarkers(q)` of the samples `ss`: heights
   * sorted with the exact minimum and maximum at the ends, positions strictly
   * increasing from 1 to `|ss|`, desired positions at the tracked ranks.
   */
  ghost predicate SteadyState(q: nat, h: seq<real>, n: seq<int>, d: seq<real>, ss: seq<real>) {
    && |h| == NumMarkers(q) && |n| == NumMarkers(q) && |d| == NumMarkers(q)
    && Sorted(h)
    && IsMin(h[0], ss)
    && IsMax(h[|h| - 1], ss)
    && Increasing(n)
    && n[0] == 1
    && n[|n| - 1] == |ss|
    && (forall j :: 0 <= j < |d| ==> d[j] == DesiredRank(q, j, |ss|))
  }

  /**
   * Lines 81-158 on values: the heights, positions and desired positions
   * after sample `x`. Only the end markers see the sample itself: the first
   * becomes the smaller of it and the old minimum, the last the larger of it
   * and the old maximum. The first position stays, the last grows by one, and
   * every desired position advances by its increment.
   */
  function SteadyStep(q: nat, h: seq<real>, n: seq<int>, d: seq<real>, x: real)
    : (r: (seq<real>, seq<int>, seq<real>))
    requires |h| == NumMarkers(q) && |n| == NumMarkers(q) && |d| == NumMarkers(q)
    requires Sorted(h) && Increasing(n)
    ensures |r.0| == |h| && |r.1| == |n| && |r.2| == |d|
    ensures Sorted(r.0) && Increasing(r.1)
    ensures r.0[0] == (if x < h[0] then x else h[0])
    ensures r.0[|h| - 1] == (if x >= h[|h| - 1] then x else h[|h| - 1])
    ensures r.1[0] == n[0] && r.1[|n| - 1] == n[|n| - 1] + 1
    ensures forall j :: 0 <= j < |d| ==> r.2[j] == d[j] + Increment(q, j)
  {
    var placed := PlaceSample(h, x);
    var d1 := Advanced(d, q);
    var n1 := Bumped(n, placed.1);
    assert n1[0] == n[0] && n1[|n| - 1] == n[|n| - 1] + 1;
    var adjusted := AdjustFrom(placed.0, n1, d1, 1);
    (adjusted.0, adjusted.1, d1)
  }

  /**
   * Lines 104-113 at the ends: the first marker's actual and desired
   * positions stay where they are, the last marker's both grow by one.
   */
  lemma EndPositionsAdvance(q: nat, h: seq<real>, n: seq<int>, d: seq<real>, x: real)
    requires |h| == NumMarkers(q) && |n| == NumMarkers(q) && |d| == NumMarkers(q)
    requires Sorted(h) && Increasing(n)
    ensures var r := SteadyStep(q, h, n, d, x);
      && r.1[0] == n[0] && r.2[0] == d[0]
      && r.1[|n| - 1] == n[|n| - 1] + 1 && r.2[|d| - 1] == d[|d| - 1] + 1.0
  {
    IncrementEnds(q);
  }

  /** A steady sample keeps the steady invariant, now over one more sample. */
  lemma SteadyStepPreserves(q: nat, h: seq<real>, n: seq<int>, d: seq<real>, ss: seq<real>, x: real)
    requires SteadyState(q, h, n, d, ss)
    ensures var r := SteadyStep(q, h, n, d, x);
      SteadyState(q, r.0, r.1, r.2, ss + [x])
  {
    var m := NumMarkers(q);
    var r := SteadyStep(q, h, n, d, x);
    assert IsMin(r.0[0], ss + [x]) by {
      MinExtends(h[0], ss, x);
    }
    assert IsMax(r.0[m - 1], ss + [x]) by {
      MaxExtends(h[m - 1], ss, x);
    }
    forall j | 0 <= j < m
      ensures r.2[j] == DesiredRank(q, j, |ss| + 1)
    {
      DesiredAdvance(q, j, |ss|);
    }
  }

  /**
   * Lines 76-79 with the constructor's positions: once the buffer holds
   * `NumMarkers(q)` samples, sorting it gives the steady invariant.
   */
  lemma FillCompletes(q: nat, ss: seq<real>, h: seq<real>)
    requires |ss| == NumMarkers(q) && |h| == |ss|
    requires Sorted(h) && multiset(h) == multiset(ss)
    ensures SteadyState(q, h, FirstPositions(|ss|), FirstRanks(|ss|), ss)
  {
    var m := |ss|;
    var n, d := FirstPositions(m), FirstRanks(m);
    SortedEnds(h, ss);
    assert Increasing(n) && n[0] == 1 && n[m - 1] == m;
    forall j | 0 <= j < m
      ensures d[j] == DesiredRank(q, j, m)
    {
      ConstructorDesired(q, j);
    }
  }

  // ---------------------------------------------------------------------------
  // Truncation of `prob * (Q+1)` to an `int`
  // ---------------------------------------------------------------------------

  /** C++'s `int(x)`: truncation toward zero (`x` is assumed to fit an `int`). */
  function TruncToInt(x: real): (t: int)
    ensures 0.0 <= x ==> 0 <= t && t as real <= x < t as real + 1.0
    ensures x < 0.0 ==> t <= 0 && t as real - 1.0 < x <= t as real
  {
    if x >= 0.0 then x.Floor else -((-x).Floor)
  }

  // ---------------------------------------------------------------------------
  // The estimator
  // ---------------------------------------------------------------------------

  /** `std::upper_bound` over a sorted array: the index of the first element above `x`. */
  method UpperBound(a: array<real>, x: real) returns (k: nat)
    requires Sorted(a[..])
    ensures k == FirstAbove(a[..], x)
    ensures k <= a.Length
    ensures forall j :: 0 <= j < k ==> a[j] <= x
    ensures forall j :: k <= j < a.Length ==> x < a[j]
  {
    SortedPairs(a[..]);
    var lo, hi := 0, a.Length;
    while lo < hi
      invariant 0 <= lo <= hi <= a.Length
      invariant forall j :: 0 <= j < lo ==> a[j] <= x
      invariant forall j :: hi <= j < a.Length ==> x < a[j]
      decreases hi - lo
    {
      var mid := lo + (hi - lo) / 2;
      if x < a[mid] {
        hi := mid;
      } else {
        lo := mid + 1;
      }
    }
    k := lo;
    SplitIsFirstAbove(a[..], x, k);
  }

  class DistributionEstimators {
    /** `NumQuantiles`, the template parameter. */
    const Q: nat
    /** `_count`: samples seen, up to `NumMarkers`. */
    var count: int
    /** `_heights`: the marker heights. */
    const heights: array<real>
    /** `_actual_positions`: the marker ranks. */
    const actual: array<int>
    /** `_desired_positions`: the ranks of the tracked quantiles. */
    const desired: array<real>
    /** Every sample seen, in arrival order. */
    ghost var samples: seq<real>

    ghost predicate Valid()
      reads this, heights, actual, desired
    {
      && heights.Length == NumMarkers(Q)
      && actual.Length == NumMarkers(Q)
      && desired.Length == NumMarkers(Q)
      && heights != desired
      && count == Min(|samples|, NumMarkers(Q))
      && (count < NumMarkers(Q) ==>
            && heights[..count] == samples
            && actual[..] == FirstPositions(NumMarkers(Q))
            && desired[..] == FirstRanks(NumMarkers(Q)))
      && (count == NumMarkers(Q) ==> SteadyState(Q, heights[..], actual[..], desired[..], samples))
    }

    /** Lines 53-66: no samples, positions `1..NumMarkers`, desired positions the same ranks. */
    constructor(q: nat)
      ensures Valid()
      ensures Q == q && count == 0 && samples == []
      ensures actual[..] == FirstPositions(NumMarkers(q))
      ensures desired[..] == FirstRanks(NumMarkers(q))
    {
      Q := q;
      count := 0;
      samples := [];
      var m := NumMarkers(q);
      heights := new real[m];
      var act := new int[m];
      var des := new real[m];
      for i := 0 to m
        invariant forall j :: 0 <= j < i ==> act[j] == j + 1
      {
        act[i] := i + 1;
      }
      for i := 0 to m
        invariant forall j :: 0 <= j < m ==> act[j] == j + 1
        invariant forall j :: 0 <= j < i ==> des[j] == (j + 1) as real
      {
        ConstructorDesired(q, i);
        des[i] := 1.0 + 2.0 * (q as real + 1.0) * Increment(q, i);
      }
      actual := act;
      desired := des;
      assert act[..] == FirstPositions(m);
      assert des[..] == FirstRanks(m);
    }

    /**
     * Lines 68-161, `operator<<`: store the sample while filling, sorting
     * the markers when the buffer becomes full; afterwards place the sample,
     * shift the positions above its cell, advance the desired positions and
     * adjust the interior markers.
     */
    method Observe(sample: real)
      requires Valid()
      modifies this, heights, actual, desired
      ensures Valid()
      ensures samples == old(samples) + [sample]
      ensures old(count) < NumMarkers(Q) ==> count == old(count) + 1
      ensures old(count) < NumMarkers(Q) - 1 ==> heights[..] == old(heights[..])[old(count) := sample]
      ensures old(count) == NumMarkers(Q) - 1 ==> Sorted(heights[..]) && multiset(heights[..]) == multiset(samples)
      ensures old(count) == NumMarkers(Q) ==>
        && count == old(count)
        && (heights[..], actual[..], desired[..])
           == SteadyStep(Q, old(heights[..]), old(actual[..]), old(desired[..]), sample)
    {
      if count < NumMarkers(Q) {
        ObserveFilling(sample);
      } else {
        ObserveSteady(sample);
      }
    }

    /** Lines 73-80: store the sample; sort the buffer once it is full. */
    method ObserveFilling(sample: real)
      requires Valid() && count < NumMarkers(Q)
      modifies this, heights
      ensures Valid()
      ensures samples == old(samples) + [sample] && count == old(count) + 1
      ensures count < NumMarkers(Q) ==> heights[..] == old(heights[..])[old(count) := sample]
      ensures count == NumMarkers(Q) ==> Sorted(heights[..]) && multiset(heights[..]) == multiset(samples)
    {
      ghost var h0 := heights[..];
      assert h0[..count] == samples;
      heights[count] := sample;
      assert heights[..] == h0[count := sample];
      assert heights[..count + 1] == samples + [sample] by {
        assert h0[count := sample][..count + 1] == h0[..count] + [sample];
      }
      count := count + 1;
      samples := samples + [sample];
      if count == NumMarkers(Q) {
        assert heights[..] == samples;
        SortMarkers();
        FillCompletes(Q, samples, heights[..]);
      }
    }

    /** Lines 81-158: the steady phase, `SteadyStep` in place. */
    method ObserveSteady(sample: real)
      requires Valid() && count == NumMarkers(Q)
      modifies this, heights, actual, desired
      ensures Valid() && count == NumMarkers(Q)
      ensures samples == old(samples) + [sample]
      ensures (heights[..], actual[..], desired[..])
           == SteadyStep(Q, old(heights[..]), old(actual[..]), old(desired[..]), sample)
    {
      SteadyStepPreserves(Q, heights[..], actual[..], desired[..], samples, sample);
      StepMarkers(sample);
      samples := samples + [sample];
      assert SteadyState(Q, heights[..], actual[..], desired[..], samples);
    }

    /** Lines 82-157 on the marker arrays alone: one steady-phase step. */
    method StepMarkers(sample: real)
      requires heights.Length == NumMarkers(Q) && actual.Length == NumMarkers(Q)
      requires desired.Length == NumMarkers(Q) && heights != desired
      requires Sorted(heights[..]) && Increasing(actual[..])
      modifies heights, actual, desired
      ensures (heights[..], actual[..], desired[..])
           == SteadyStep(Q, old(heights[..]), old(actual[..]), old(desired[..]), sample)
    {
      ghost var h0, n0, d0 := heights[..], actual[..], desired[..];
      ghost var placed := PlaceSample(h0, sample);
      var cell := FindCell(sample);
      assert heights[..] == placed.0 && cell == placed.1;
      BumpPositions(cell);
      assert actual[..] == Bumped(n0, placed.1);
      AdvanceDesired();
      assert desired[..] == Advanced(d0, Q);
      AdjustMarkers();
      assert (heights[..], actual[..]) == AdjustFrom(placed.0, Bumped(n0, placed.1), Advanced(d0, Q), 1);
    }

    /** Line 78: `std::sort` over the full buffer. */
    method SortMarkers()
      requires heights.Length == NumMarkers(Q)
      modifies heights
      ensures Sorted(heights[..])
      ensures multiset(heights[..]) == multiset(old(heights[..]))
    {
      var sorted := SortSamples(heights[..]);
      forall j | 0 <= j < heights.Length {
        heights[j] := sorted[j];
      }
      assert heights[..] == sorted;
    }

    /** Lines 82-101: extend an end marker if needed and find the cell of the sample. */
    method FindCell(sample: real) returns (cell: nat)
      requires heights.Length == NumMarkers(Q) && Sorted(heights[..])
      modifies heights
      ensures (heights[..], cell) == PlaceSample(old(heights[..]), sample)
    {
      var m := NumMarkers(Q);
      if sample < heights[0] {
        heights[0] := sample;
        cell := 1;
      } else if sample >= heights[m - 1] {
        heights[m - 1] := sample;
        cell := m - 1;
      } else {
        cell := UpperBound(heights, sample);
      }
    }

    /** Lines 104-107. */
    method BumpPositions(cell: nat)
      requires actual.Length == NumMarkers(Q)
      modifies actual
      ensures actual[..] == Bumped(old(actual[..]), cell)
    {
      var i := cell;
      while i < actual.Length
        invariant cell <= i
        invariant forall j :: 0 <= j < actual.Length ==>
          actual[j] == (if cell <= j < i then old(actual[j]) + 1 else old(actual[j]))
      {
        actual[i] := actual[i] + 1;
        i := i + 1;
      }
    }

    /** Lines 110-113. */
    method AdvanceDesired()
      requires desired.Length == NumMarkers(Q)
      modifies desired
      ensures desired[..] == Advanced(old(desired[..]), Q)
    {
      for i := 0 to desired.Length
        invariant forall j :: 0 <= j < desired.Length ==>
          desired[j] == (if j < i then old(desired[j]) + Increment(Q, j) else old(desired[j]))
      {
        desired[i] := desired[i] + Increment(Q, i);
      }
    }

    /** Lines 116-157: adjust markers `1..NumMarkers-2` in turn. */
    method AdjustMarkers()
      requires heights.Length == NumMarkers(Q) && actual.Length == NumMarkers(Q)
      requires desired.Length == NumMarkers(Q) && heights != desired
      requires Increasing(actual[..])
      modifies heights, actual
      ensures (heights[..], actual[..]) == AdjustFrom(old(heights[..]), old(actual[..]), desired[..], 1)
    {
      for i := 1 to NumMarkers(Q) - 1
        invariant Increasing(actual[..])
        invariant AdjustFrom(heights[..], actual[..], desired[..], i)
               == AdjustFrom(old(heights[..]), old(actual[..]), desired[..], 1)
      {
        AdjustMarker(i);
      }
    }

    /** Lines 118-155, the body of the adjustment loop for marker `i`. */
    method AdjustMarker(i: nat)
      requires heights.Length == NumMarkers(Q) && actual.Length == NumMarkers(Q)
      requires desired.Length == NumMarkers(Q) && heights != desired
      requires 1 <= i < NumMarkers(Q) - 1 && Increasing(actual[..])
      modifies heights, actual
      ensures (heights[..], actual[..]) == AdjustAt(old(heights[..]), old(actual[..]), desired[..], i)
    {
      var d := desired[i] - actual[i] as real;
      var dp := actual[i + 1] - actual[i];
      var dm := actual[i - 1] - actual[i];
      if (d >= 1.0 && dp > 1) || (d <= -1.0 && dm < -1) {
        heights[i] := NewHeight(heights[i - 1], heights[i], heights[i + 1], d, dp, dm);
        actual[i] := actual[i] + SignOf(d);
      }
    }

    /** `quantile(i)` (header lines 114-117): marker `2i`, or NaN (`None`) past the last quantile. */
    function Quantile(i: nat): (r: Option<real>)
      reads this, heights
      requires heights.Length == NumMarkers(Q)
      ensures r.Some? <==> i <= Q + 1
      ensures r.Some? ==> 2 * i < heights.Length && r.value == heights[2 * i]
    {
      if i > Q + 1 then None else Some(heights[2 * i])
    }

    /** `min()` (header lines 124-126). */
    function MinEstimate(): (r: Option<real>)
      reads this, heights
      requires heights.Length == NumMarkers(Q)
      ensures r == Some(heights[0])
    {
      Quantile(0)
    }

    /** `max()` (header lines 133-135). */
    function MaxEstimate(): (r: Option<real>)
      reads this, heights
      requires heights.Length == NumMarkers(Q)
      ensures r == Some(heights[NumMarkers(Q) - 1])
    {
      Quantile(Q + 1)
    }

    /**
     * `icdf(prob)` (header lines 147-150): the quantile at `int(prob*(Q+1))`.
     * A negative index converts to a huge `size_t`, which `quantile` maps to NaN.
     */
    function Icdf(prob: real): (r: Option<real>)
      reads this, heights
      requires heights.Length == NumMarkers(Q)
      ensures r.Some? <==> 0 <= TruncToInt(prob * (Q + 1) as real) <= Q + 1
    {
      var quant := TruncToInt(prob * (Q + 1) as real);
      if quant < 0 then None else Quantile(quant)
    }

    /** `median()` (header lines 140-142). */
    function Median(): (r: Option<real>)
      reads this, heights
      requires heights.Length == NumMarkers(Q)
      ensures r == Some(heights[2 * ((Q + 1) / 2)])
    {
      Icdf(0.5)
    }

    /** Every even marker is the quantile at half its index, and `quantile` reads no other marker. */
    lemma QuantilesAreEvenMarkers(j: nat)
      requires heights.Length == NumMarkers(Q)
      ensures j < NumMarkers(Q) && j % 2 == 0 ==> Quantile(j / 2) == Some(heights[j])
      ensures Quantile(j).Some? ==> 2 * j < NumMarkers(Q)
    {
    }

    /** Once the buffer is full, the estimates are ordered: `quantile(i) <= quantile(j)` for `i <= j`. */
    lemma QuantilesAreOrdered(i: nat, j: nat)
      requires Valid() && count == NumMarkers(Q)
      requires i <= j <= Q + 1
      ensures Quantile(i).Some? && Quantile(j).Some?
      ensures Quantile(i).value <= Quantile(j).value
    {
      SortedOrdered(heights[..], 2 * i, 2 * j);
    }

    /** Once the buffer is full, `min()` and `max()` are the exact minimum and maximum of the samples. */
    lemma ExtremesAreExact()
      requires Valid() && count == NumMarkers(Q)
      ensures MinEstimate().Some? && IsMin(MinEstimate().value, samples)
      ensures MaxEstimate().Some? && IsMax(MaxEstimate().value, samples)
    {
      assert heights[..][0] == heights[0];
      assert heights[..][NumMarkers(Q) - 1] == heights[NumMarkers(Q) - 1];
    }

    /** `icdf(prob)` is a number exactly when `prob*(Q+1)` lies strictly between -1 and `Q+2`. */
    lemma IcdfDefinedRange(prob: real)
      requires heights.Length == NumMarkers(Q)
      ensures Icdf(prob).Some? <==> -1.0 < prob * (Q + 1) as real < (Q + 2) as real
    {
    }

    /** `icdf(prob)` is the `k`-th quantile for every `prob` in `[k/(Q+1), (k+1)/(Q+1))`. */
    lemma IcdfPicksBand(prob: real, k: nat)
      requires heights.Length == NumMarkers(Q)
      requires k <= Q + 1
      requires k as real <= prob * (Q + 1) as real < (k + 1) as real
      ensures Icdf(prob) == Quantile(k)
    {
    }

    /** `icdf(0)` is `min()` and `icdf(1)` is `max()`. */
    lemma IcdfEnds()
      requires heights.Length == NumMarkers(Q)
      ensures Icdf(0.0) == MinEstimate()
      ensures Icdf(1.0) == MaxEstimate()
    {
      IcdfPicksBand(0.0, 0);
      IcdfPicksBand(1.0, Q + 1);
    }

    /**
     * `median()` reads the central marker `Q+1`, whose desired position is
     * the median rank `(n+1)/2`, exactly when `Q` is odd; for even `Q` it
     * reads marker `Q`, whose desired position is below the median rank.
     */
    lemma MedianMarker()
      requires Valid() && count == NumMarkers(Q)
      ensures var n := |samples|;
        && DesiredRank(Q, Q + 1, n) == (n + 1) as real / 2.0
        && (Q % 2 == 1 ==> Median() == Some(heights[Q + 1]) && desired[Q + 1] == (n + 1) as real / 2.0)
        && (Q % 2 == 0 ==> Median() == Some(heights[Q]) && desired[Q] < (n + 1) as real / 2.0)
    {
      var n := |samples|;
      var k := (2 * (Q + 1)) as real;
      assert Increment(Q, Q + 1) == 0.5 by {
        assert (Q + 1) as real / k * 2.0 == 1.0;
      }
      assert Increment(Q, Q) < 0.5 by {
        assert Increment(Q, Q) == Q as real / k;
        assert Q as real < k / 2.0;
      }
      assert n >= NumMarkers(Q);
      assert desired[Q] == DesiredRank(Q, Q, n) && desired[Q + 1] == DesiredRank(Q, Q + 1, n);
    }
  }
}
