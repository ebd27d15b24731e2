/**
 * The Douglas-Peucker line filter. A copied point list is simplified in
 * place: the line is cut at every preserved point, and in each stretch the
 * interior points whose chord distance is within the tolerance are removed
 * recursively. The distance of a point to a chord is a parameter
 * (`dist(p, a, b)` stands for `p.shortestDistToLineSegment(a, b)`).
 *
 * What survives is specified by a sequence of kept indices into the list the
 * filter started from: the result is that list picked at those indices,
 * which are strictly increasing (an order-preserving subsequence), include
 * both ends and every preserved point, and leave every removed point within
 * the tolerance of the chord between the kept points around it.
 */
module DouglasPeucker {
  import opened JavaInt
  import opened Coords
  import opened Elements

  /** p.shortestDistToLineSegment(a, b), written dist(p, a, b). */
  type Distance = (Coord, Coord, Coord) -> real

  /** The resolution at which lines pass through untouched. */
  const TOP_RESOLUTION: int := 24

  /** Every index of ks lies in lo < k <= hi. */
  predicate Within(ks: seq<nat>, lo: int, hi: int)
  {
    forall k :: 0 <= k < |ks| ==> lo < ks[k] <= hi
  }

  /** Strictly increasing: each index is above the one before it. */
  predicate Increasing(ks: seq<nat>)
  {
    forall k :: 0 < k < |ks| ==> ks[k - 1] < ks[k]
  }

  /** The points of s at the indices ks, in the order of ks. */
  function Pick(s: seq<Coord>, ks: seq<nat>): (r: seq<Coord>)
    requires Within(ks, -1, |s| - 1)
    ensures |r| == |ks|
    ensures forall k {:trigger r[k]} :: 0 <= k < |ks| ==> r[k] == s[ks[k]]
  {
    seq(|ks|, k requires 0 <= k < |ks| => s[ks[k]])
  }

  /**
   * The farthest-point scan of douglasPeucker(points, s, e) after it has
   * looked at the indices e-1 down to i: the largest distance to the chord
   * from points[s] to points[e] seen so far (0 before any) and its index
   * (e before any). A later point replaces the current one only when it is
   * strictly farther.
   */
  function ScanMax(pts: seq<Coord>, s: nat, e: nat, i: nat, dist: Distance): (r: (real, nat))
    requires s < i <= e < |pts|
    ensures r.0 >= 0.0 && i <= r.1 <= e && (r.1 == e ==> r.0 == 0.0)
    decreases e - i
  {
    if i == e then (0.0, e)
    else
      var prev := ScanMax(pts, s, e, i + 1, dist);
      var d := dist(pts[i], pts[s], pts[e]);
      if d > prev.0 then (d, i) else prev
  }

  /**
   * r is the result of the scan over i .. e-1: a distance that is never
   * negative and is 0 exactly when no point was taken; otherwise the
   * distance of the point at index r.1, no scanned point is farther, and
   * every scanned point above r.1 is strictly nearer.
   */
  predicate IsFarthest(pts: seq<Coord>, s: nat, e: nat, i: nat, dist: Distance, r: (real, nat))
    requires s < i <= e < |pts|
  {
    && r.0 >= 0.0 && i <= r.1 <= e
    && (r.1 == e <==> r.0 == 0.0)
    && (r.1 < e ==> r.0 == dist(pts[r.1], pts[s], pts[e]))
    && (forall j :: i <= j < e ==> dist(pts[j], pts[s], pts[e]) <= r.0)
    && (forall j :: r.1 < j < e ==> dist(pts[j], pts[s], pts[e]) < r.0)
  }

  lemma {:induction false} ScanMaxFindsFarthest(pts: seq<Coord>, s: nat, e: nat, i: nat, dist: Distance)
    requires s < i <= e < |pts|
    ensures IsFarthest(pts, s, e, i, dist, ScanMax(pts, s, e, i, dist))
    decreases e - i
  {
    if i < e {
      ScanMaxFindsFarthest(pts, s, e, i + 1, dist);
    }
  }

  /**
   * The indices in s+1 .. e that douglasPeucker(points, s, e, err) keeps:
   * nothing between adjacent points; otherwise, when the farthest interior
   * point is beyond err, the kept indices of both halves around it, else
   * only e. The end e is always kept.
   */
  function KeptAbove(pts: seq<Coord>, s: nat, e: nat, err: real, dist: Distance): (ks: seq<nat>)
    requires err >= 0.0 && s <= e < |pts|
    ensures Within(ks, s, e)
    ensures s == e ==> ks == []
    ensures s < e ==> |ks| >= 1 && ks[|ks| - 1] == e
    decreases e - s
  {
    if e - s <= 1 then (if s == e then [] else [e])
    else
      var r := ScanMax(pts, s, e, s + 1, dist);
      if r.0 > err then KeptAbove(pts, s, r.1, err, dist) + KeptAbove(pts, r.1, e, err, dist) else [e]
  }

  /**
   * The calls douglasPeucker(points, s, e, err) makes on itself, as the
   * code is written and for any err: (maxIndex, e), then (s, maxIndex),
   * when the farthest distance exceeds err. With a tolerance that is not
   * negative each call is on a shorter stretch.
   */
  function RecursiveCalls(pts: seq<Coord>, s: nat, e: nat, err: real, dist: Distance): (calls: seq<(nat, nat)>)
    requires s <= e < |pts|
    ensures err >= 0.0 ==> forall k :: 0 <= k < |calls| ==> s <= calls[k].0 < calls[k].1 <= e && calls[k].1 - calls[k].0 < e - s
  {
    if e - s <= 1 then []
    else
      var r := ScanMax(pts, s, e, s + 1, dist);
      if r.0 > err then [(r.1, e), (s, r.1)] else []
  }

  /**
   * With a negative tolerance, a stretch whose interior points all lie on
   * the chord keeps maxDistance at 0 and maxIndex at e, and 0 > err, so
   * douglasPeucker(points, s, e, err) calls itself on (s, e) again.
   */
  lemma NegativeToleranceRepeats(pts: seq<Coord>, s: nat, e: nat, err: real, dist: Distance)
    requires err < 0.0 && s + 2 <= e < |pts|
    requires forall j :: s < j < e ==> dist(pts[j], pts[s], pts[e]) <= 0.0
    ensures (s, e) in RecursiveCalls(pts, s, e, err, dist)
  {
    ScanMaxFindsFarthest(pts, s, e, s + 1, dist);
  }

  /** The list after douglasPeucker(points, s, e, err). */
  function Simplified(pts: seq<Coord>, s: int, e: int, err: real, dist: Distance): seq<Coord>
    requires err >= 0.0 && (e - s <= 1 || 0 <= s < e < |pts|)
  {
    if e - s <= 1 then pts
    else pts[..s + 1] + Pick(pts, KeptAbove(pts, s, e, err, dist)) + pts[e + 1..]
  }

  /** Simplified in one form for every stretch, short ones included. */
  lemma Stretched(pts: seq<Coord>, s: nat, e: nat, err: real, dist: Distance)
    requires err >= 0.0 && s <= e < |pts|
    ensures Simplified(pts, s, e, err, dist) == pts[..s + 1] + Pick(pts, KeptAbove(pts, s, e, err, dist)) + pts[e + 1..]
  {
    if e == s + 1 {
      assert pts == pts[..s + 1] + [pts[e]] + pts[e + 1..];
    } else if e == s {
      assert pts == pts[..s + 1] + pts[e + 1..];
    }
  }

  /** Every point strictly between indices a and b lies within err of the chord from pts[a] to pts[b]. */
  predicate ChordHolds(pts: seq<Coord>, a: nat, b: nat, err: real, dist: Distance)
    requires a < |pts| && b < |pts|
  {
    forall j :: a < j < b ==> dist(pts[j], pts[a], pts[b]) <= err
  }

  /** Every point between two consecutive indices of ks lies within err of their chord. */
  predicate Tolerated(pts: seq<Coord>, ks: seq<nat>, err: real, dist: Distance)
    requires Within(ks, -1, |pts| - 1)
  {
    forall k :: 0 < k < |ks| ==> ChordHolds(pts, ks[k - 1], ks[k], err, dist)
  }

  // ---------------------------------------------------------------------
  // Properties of one stretch
  // ---------------------------------------------------------------------

  /** The kept indices of a stretch only depend on the points up to its end. */
  lemma {:induction false} ScanMaxLocal(p: seq<Coord>, q: seq<Coord>, s: nat, e: nat, i: nat, dist: Distance)
    requires s < i <= e < |p| && e < |q|
    requires forall k :: 0 <= k <= e ==> p[k] == q[k]
    ensures ScanMax(p, s, e, i, dist) == ScanMax(q, s, e, i, dist)
    decreases e - i
  {
    if i < e {
      ScanMaxLocal(p, q, s, e, i + 1, dist);
    }
  }

  lemma {:induction false} KeptAboveLocal(p: seq<Coord>, q: seq<Coord>, s: nat, e: nat, err: real, dist: Distance)
    requires err >= 0.0 && s <= e < |p| && e < |q|
    requires forall k :: 0 <= k <= e ==> p[k] == q[k]
    ensures KeptAbove(p, s, e, err, dist) == KeptAbove(q, s, e, err, dist)
    decreases e - s
  {
    if e - s > 1 {
      ScanMaxLocal(p, q, s, e, s + 1, dist);
      var r := ScanMax(p, s, e, s + 1, dist);
      ScanMaxFindsFarthest(p, s, e, s + 1, dist);
      if r.0 > err {
        KeptAboveLocal(p, q, s, r.1, err, dist);
        KeptAboveLocal(p, q, r.1, e, err, dist);
      }
    }
  }

  /** Picking indices up to n only reads the points up to n. */
  lemma PickLocal(p: seq<Coord>, q: seq<Coord>, ks: seq<nat>, n: nat)
    requires n < |p| && n < |q| && Within(ks, -1, n)
    requires forall k :: 0 <= k <= n ==> p[k] == q[k]
    ensures Pick(p, ks) == Pick(q, ks)
  {
  }

  lemma PickAppend(s: seq<Coord>, a: seq<nat>, b: seq<nat>)
    requires Within(a, -1, |s| - 1) && Within(b, -1, |s| - 1)
    ensures Within(a + b, -1, |s| - 1)
    ensures Pick(s, a + b) == Pick(s, a) + Pick(s, b)
  {
    WithinAppend(a, b, -1, |s| - 1);
  }

  lemma WithinAppend(a: seq<nat>, b: seq<nat>, lo: int, hi: int)
    requires Within(a, lo, hi) && Within(b, lo, hi)
    ensures Within(a + b, lo, hi)
  {
    forall k | 0 <= k < |a + b| ensures lo < (a + b)[k] <= hi {
      if k >= |a| {
        assert (a + b)[k] == b[k - |a|];
      }
    }
  }

  lemma AppendIncreasing(a: seq<nat>, b: seq<nat>)
    requires Increasing(a) && Increasing(b)
    requires |a| > 0 && |b| > 0 ==> a[|a| - 1] < b[0]
    ensures Increasing(a + b)
  {
    forall k | 0 < k < |a + b| ensures (a + b)[k - 1] < (a + b)[k] {
      if k > |a| {
        assert (a + b)[k - 1] == b[k - 1 - |a|] && (a + b)[k] == b[k - |a|];
      }
    }
  }

  /** The kept indices of a stretch are strictly increasing. */
  lemma {:induction false} KeptIncreasing(pts: seq<Coord>, s: nat, e: nat, err: real, dist: Distance)
    requires err >= 0.0 && s <= e < |pts|
    ensures Increasing(KeptAbove(pts, s, e, err, dist))
    decreases e - s
  {
    if e - s > 1 {
      var r := ScanMax(pts, s, e, s + 1, dist);
      ScanMaxFindsFarthest(pts, s, e, s + 1, dist);
      if r.0 > err {
        KeptIncreasing(pts, s, r.1, err, dist);
        KeptIncreasing(pts, r.1, e, err, dist);
        AppendIncreasing(KeptAbove(pts, s, r.1, err, dist), KeptAbove(pts, r.1, e, err, dist));
      }
    }
  }

  /** Tolerances of two runs of kept indices where the second continues from m, the last index of the first. */
  lemma ToleratedAppend(pts: seq<Coord>, a: seq<nat>, m: nat, b: seq<nat>, err: real, dist: Distance)
    requires |a| > 0 && a[|a| - 1] == m && m < |pts|
    requires Within(a, -1, |pts| - 1) && Within(b, -1, |pts| - 1)
    requires Tolerated(pts, a, err, dist)
    requires Within([m] + b, -1, |pts| - 1) && Tolerated(pts, [m] + b, err, dist)
    ensures Within(a + b, -1, |pts| - 1)
    ensures Tolerated(pts, a + b, err, dist)
  {
    WithinAppend(a, b, -1, |pts| - 1);
    var c := a + b;
    var d := [m] + b;
    forall k | 0 < k < |c| ensures ChordHolds(pts, c[k - 1], c[k], err, dist) {
      if k < |a| {
        assert c[k - 1] == a[k - 1] && c[k] == a[k];
      } else {
        assert c[k - 1] == d[k - |a|] && c[k] == d[k - |a| + 1];
      }
    }
  }

  /**
   * The guarantee of Douglas-Peucker: every point a stretch drops lies
   * within err of the chord between the kept points on either side of it.
   */
  lemma {:induction false} KeptTolerated(pts: seq<Coord>, s: nat, e: nat, err: real, dist: Distance)
    requires err >= 0.0 && s <= e < |pts|
    ensures Within([s] + KeptAbove(pts, s, e, err, dist), -1, |pts| - 1)
    ensures Tolerated(pts, [s] + KeptAbove(pts, s, e, err, dist), err, dist)
    decreases e - s
  {
    WithinAppend([s], KeptAbove(pts, s, e, err, dist), -1, |pts| - 1);
    if e - s > 1 {
      var r := ScanMax(pts, s, e, s + 1, dist);
      ScanMaxFindsFarthest(pts, s, e, s + 1, dist);
      if r.0 > err {
        KeptTolerated(pts, s, r.1, err, dist);
        KeptTolerated(pts, r.1, e, err, dist);
        JoinRuns(pts, s, r.1, KeptAbove(pts, s, r.1, err, dist), KeptAbove(pts, r.1, e, err, dist), err, dist);
      } else {
        assert [s] + KeptAbove(pts, s, e, err, dist) == [s, e];
      }
    }
  }

  lemma JoinRuns(pts: seq<Coord>, s: nat, m: nat, a: seq<nat>, b: seq<nat>, err: real, dist: Distance)
    requires |a| > 0 && a[|a| - 1] == m && s < |pts| && m < |pts|
    requires Within([s] + a, -1, |pts| - 1) && Tolerated(pts, [s] + a, err, dist)
    requires Within([m] + b, -1, |pts| - 1) && Tolerated(pts, [m] + b, err, dist)
    ensures Within([s] + (a + b), -1, |pts| - 1)
    ensures Tolerated(pts, [s] + (a + b), err, dist)
  {
    var L := [s] + a;
    forall k | 0 <= k < |b| ensures -1 < b[k] <= |pts| - 1 {
      assert b[k] == ([m] + b)[k + 1];
    }
    assert L[|L| - 1] == m;
    ToleratedAppend(pts, L, m, b, err, dist);
    assert [s] + (a + b) == L + b;
  }

  /**
   * A stretch of at least three points keeps only its ends exactly when
   * every interior point is within err of the chord between them.
   */
  lemma OnlyEndsKept(pts: seq<Coord>, s: nat, e: nat, err: real, dist: Distance)
    requires err >= 0.0 && s + 2 <= e < |pts|
    ensures KeptAbove(pts, s, e, err, dist) == [e] <==>
              forall j :: s < j < e ==> dist(pts[j], pts[s], pts[e]) <= err
  {
    var r := ScanMax(pts, s, e, s + 1, dist);
    ScanMaxFindsFarthest(pts, s, e, s + 1, dist);
    if r.0 > err {
      assert dist(pts[r.1], pts[s], pts[e]) > err;
      assert |KeptAbove(pts, s, e, err, dist)| >= 2;
    }
  }

  /**
   * A stretch with a point beyond err keeps its farthest interior point,
   * the highest-indexed one among equally far points.
   */
  lemma FarthestKept(pts: seq<Coord>, s: nat, e: nat, err: real, dist: Distance, j: nat)
    requires err >= 0.0 && s < j < e < |pts|
    requires dist(pts[j], pts[s], pts[e]) > err
    ensures var m := ScanMax(pts, s, e, s + 1, dist).1;
      && s < m < e
      && m in KeptAbove(pts, s, e, err, dist)
      && (forall i :: s < i < e ==> dist(pts[i], pts[s], pts[e]) <= dist(pts[m], pts[s], pts[e]))
      && (forall i :: m < i < e ==> dist(pts[i], pts[s], pts[e]) < dist(pts[m], pts[s], pts[e]))
  {
    var r := ScanMax(pts, s, e, s + 1, dist);
    ScanMaxFindsFarthest(pts, s, e, s + 1, dist);
    var L := KeptAbove(pts, s, r.1, err, dist);
    assert L[|L| - 1] in L;
  }

  // ---------------------------------------------------------------------
  // Steps of the in-place simplification
  // ---------------------------------------------------------------------

  /** A list that starts with the first n points of pts agrees with pts below n. */
  lemma PrefixAgrees(u: seq<Coord>, pts: seq<Coord>, n: nat, tail: seq<Coord>)
    requires n <= |pts| && u == pts[..n] + tail
    ensures |u| >= n && u[n..] == tail
    ensures forall k :: 0 <= k < n ==> u[k] == pts[k]
  {
  }

  lemma Reassemble(x: seq<Coord>, y: seq<Coord>, z: seq<Coord>, w: seq<Coord>)
    ensures x + y + (z + w) == x + (y + z) + w
  {
  }

  /**
   * Simplifying s..m of a list p that agrees with q up to m: the kept
   * points are those q keeps, followed by the rest of p.
   */
  lemma SimplifiedPrefix(p: seq<Coord>, q: seq<Coord>, s: nat, m: nat, err: real, dist: Distance)
    requires err >= 0.0 && s <= m < |p| && m < |q|
    requires forall k :: 0 <= k <= m ==> p[k] == q[k]
    ensures Within(KeptAbove(q, s, m, err, dist), -1, |q| - 1)
    ensures Simplified(p, s, m, err, dist) == q[..s + 1] + Pick(q, KeptAbove(q, s, m, err, dist)) + p[m + 1..]
  {
    var K := KeptAbove(q, s, m, err, dist);
    KeptAboveLocal(p, q, s, m, err, dist);
    PickLocal(p, q, K, m);
    Stretched(p, s, m, err, dist);
    assert p[..s + 1] == q[..s + 1];
  }

  /**
   * Simplifying around the farthest point: the upper half first, then the
   * lower half of the result, gives the simplified whole stretch.
   */
  lemma SplitStep(pts: seq<Coord>, s: nat, m: nat, e: nat, err: real, dist: Distance)
    requires err >= 0.0 && s < m < e < |pts|
    requires ScanMax(pts, s, e, s + 1, dist).0 > err && ScanMax(pts, s, e, s + 1, dist).1 == m
    ensures |Simplified(pts, m, e, err, dist)| > m
    ensures Simplified(Simplified(pts, m, e, err, dist), s, m, err, dist) == Simplified(pts, s, e, err, dist)
  {
    var L := KeptAbove(pts, s, m, err, dist);
    var R := KeptAbove(pts, m, e, err, dist);
    ScanMaxFindsFarthest(pts, s, e, s + 1, dist);
    assert KeptAbove(pts, s, e, err, dist) == L + R;
    Stretched(pts, m, e, err, dist);
    var mid := Simplified(pts, m, e, err, dist);
    var tail := Pick(pts, R) + pts[e + 1..];
    PrefixAgrees(mid, pts, m + 1, tail);
    SimplifiedPrefix(mid, pts, s, m, err, dist);
    PickAppend(pts, L, R);
    Reassemble(pts[..s + 1], Pick(pts, L), Pick(pts, R), pts[e + 1..]);
  }

  /** Within the tolerance, a stretch loses all its interior points. */
  lemma ToleranceStep(pts: seq<Coord>, s: nat, e: nat, err: real, dist: Distance)
    requires err >= 0.0 && s + 2 <= e < |pts|
    requires ScanMax(pts, s, e, s + 1, dist).0 <= err
    ensures Simplified(pts, s, e, err, dist) == pts[..s + 1] + pts[e..]
  {
    assert KeptAbove(pts, s, e, err, dist) == [e];
    assert Pick(pts, [e]) == [pts[e]];
    assert pts[e..] == [pts[e]] + pts[e + 1..];
  }

  /**
   * douglasPeucker(points, s, e, err): scans for the interior point farthest
   * from the chord; beyond the tolerance it recurses on both halves, the
   * upper one first, otherwise it removes every interior point (with one
   * range clear for more than three of them, else one by one from the top).
   */
  method Simplify(points: PointList, s: int, e: int, err: real, dist: Distance)
    requires err >= 0.0 && (e - s <= 1 || 0 <= s < e < |points.items|)
    modifies points
    ensures points.items == Simplified(old(points.items), s, e, err, dist)
    decreases e - s
  {
    if e - s <= 1 {
      return;
    }
    ghost var pts := points.items;
    var maxDistance := 0.0;
    var maxIndex := e;
    var a := points.items[s];
    var b := points.items[e];
    var i := e - 1;
    while i > s
      invariant s <= i < e
      invariant (maxDistance, maxIndex) == ScanMax(pts, s, e, i + 1, dist)
    {
      var p := points.items[i];
      var distance := dist(p, a, b);
      if distance > maxDistance {
        maxDistance := distance;
        maxIndex := i;
      }
      i := i - 1;
    }
    ScanMaxFindsFarthest(pts, s, e, s + 1, dist);
    if maxDistance > err {
      SplitStep(pts, s, maxIndex, e, err, dist);
      Simplify(points, maxIndex, e, err, dist);
      Simplify(points, s, maxIndex, err, dist);
    } else {
      ToleranceStep(pts, s, e, err, dist);
      RemoveInterior(points, s, e);
    }
  }

  /**
   * The tolerance branch of douglasPeucker: deletes the points strictly
   * between s and e, with one range clear for more than three of them,
   * else one by one from the top.
   */
  method RemoveInterior(points: PointList, s: nat, e: nat)
    requires s < e < |points.items|
    modifies points
    ensures points.items == old(points.items[..s + 1] + points.items[e..])
  {
    if e - s > 4 {
      points.ClearRange(s + 1, e);
    } else {
      ghost var pts := points.items;
      var j := e - 1;
      while j > s
        invariant s <= j < e
        invariant points.items == pts[..j + 1] + pts[e..]
      {
        points.Remove(j);
        j := j - 1;
      }
    }
  }

  // ---------------------------------------------------------------------
  // The whole filter
  // ---------------------------------------------------------------------

  /**
   * The indices the filter keeps from index 0 to e once its loop has come
   * down to i: stretches closed by the preserved points above i are
   * simplified separately, and the loop ends with the stretch 0 .. e.
   */
  function Segments(pts: seq<Coord>, pres: seq<bool>, i: int, e: int, err: real, dist: Distance): (ks: seq<nat>)
    requires err >= 0.0 && |pres| == |pts| && -1 <= e < |pts| && i < e
    ensures Within(ks, -1, e)
    ensures e >= 0 ==> |ks| >= 1 && ks[0] == 0 && ks[|ks| - 1] == e
    decreases i
  {
    if i <= 0 then (if e < 0 then [] else [0] + KeptAbove(pts, 0, e, err, dist))
    else if pres[i] then
      var left := Segments(pts, pres, i - 1, i, err, dist);
      var right := KeptAbove(pts, i, e, err, dist);
      left + right
    else Segments(pts, pres, i - 1, e, err, dist)
  }

  /** The indices doFilter keeps of a line with the given points and preserved flags. */
  function FilterKept(pts: seq<Coord>, pres: seq<bool>, err: real, dist: Distance): seq<nat>
    requires err >= 0.0 && |pres| == |pts|
  {
    Segments(pts, pres, |pts| - 2, |pts| - 1, err, dist)
  }

  lemma {:induction false} SegmentsIncreasing(pts: seq<Coord>, pres: seq<bool>, i: int, e: int, err: real, dist: Distance)
    requires err >= 0.0 && |pres| == |pts| && -1 <= e < |pts| && i < e
    ensures Increasing(Segments(pts, pres, i, e, err, dist))
    decreases i
  {
    if i <= 0 {
      if e >= 0 {
        KeptIncreasing(pts, 0, e, err, dist);
        AppendIncreasing([0], KeptAbove(pts, 0, e, err, dist));
      }
    } else if pres[i] {
      SegmentsIncreasing(pts, pres, i - 1, i, err, dist);
      KeptIncreasing(pts, i, e, err, dist);
      AppendIncreasing(Segments(pts, pres, i - 1, i, err, dist), KeptAbove(pts, i, e, err, dist));
    } else {
      SegmentsIncreasing(pts, pres, i - 1, e, err, dist);
    }
  }

  lemma {:induction false} SegmentsKeepPreserved(pts: seq<Coord>, pres: seq<bool>, i: int, e: int, err: real, dist: Distance, j: nat)
    requires err >= 0.0 && |pres| == |pts| && -1 <= e < |pts| && i < e
    requires 0 < j <= i && pres[j]
    ensures j in Segments(pts, pres, i, e, err, dist)
    decreases i
  {
    if pres[i] {
      var left := Segments(pts, pres, i - 1, i, err, dist);
      if j < i {
        SegmentsKeepPreserved(pts, pres, i - 1, i, err, dist, j);
      } else {
        LastIn(left);
      }
      InAppend(left, KeptAbove(pts, i, e, err, dist), j);
    } else {
      SegmentsKeepPreserved(pts, pres, i - 1, e, err, dist, j);
    }
  }

  lemma LastIn(a: seq<nat>)
    requires |a| > 0
    ensures a[|a| - 1] in a
  {
  }

  lemma InAppend(a: seq<nat>, b: seq<nat>, j: nat)
    requires j in a
    ensures j in a + b
  {
  }

  lemma {:induction false} SegmentsTolerated(pts: seq<Coord>, pres: seq<bool>, i: int, e: int, err: real, dist: Distance)
    requires err >= 0.0 && |pres| == |pts| && -1 <= e < |pts| && i < e
    ensures Within(Segments(pts, pres, i, e, err, dist), -1, |pts| - 1)
    ensures Tolerated(pts, Segments(pts, pres, i, e, err, dist), err, dist)
    decreases i
  {
    if i <= 0 {
      if e >= 0 {
        KeptTolerated(pts, 0, e, err, dist);
      }
    } else if pres[i] {
      SegmentsTolerated(pts, pres, i - 1, i, err, dist);
      KeptTolerated(pts, i, e, err, dist);
      JoinAtPreserved(pts, pres, i, e, err, dist);
    } else {
      SegmentsTolerated(pts, pres, i - 1, e, err, dist);
    }
  }

  lemma JoinAtPreserved(pts: seq<Coord>, pres: seq<bool>, i: nat, e: nat, err: real, dist: Distance)
    requires err >= 0.0 && |pres| == |pts| && 0 < i < e < |pts| && pres[i]
    requires Within(Segments(pts, pres, i - 1, i, err, dist), -1, |pts| - 1)
    requires Tolerated(pts, Segments(pts, pres, i - 1, i, err, dist), err, dist)
    requires Within([i] + KeptAbove(pts, i, e, err, dist), -1, |pts| - 1)
    requires Tolerated(pts, [i] + KeptAbove(pts, i, e, err, dist), err, dist)
    ensures Within(Segments(pts, pres, i, e, err, dist), -1, |pts| - 1)
    ensures Tolerated(pts, Segments(pts, pres, i, e, err, dist), err, dist)
  {
    var left := Segments(pts, pres, i - 1, i, err, dist);
    var K := KeptAbove(pts, i, e, err, dist);
    assert Within(K, -1, |pts| - 1);
    ToleratedAppend(pts, left, i, K, err, dist);
    assert Segments(pts, pres, i, e, err, dist) == left + K;
  }

  /**
   * What doFilter keeps: strictly increasing indices into the line, its
   * first and last point and every preserved point among them, and every
   * dropped point within err of the chord between its kept neighbours.
   */
  lemma FilterKeepsPreserved(pts: seq<Coord>, pres: seq<bool>, err: real, dist: Distance)
    requires err >= 0.0 && |pres| == |pts|
    ensures var ks := FilterKept(pts, pres, err, dist);
      && Within(ks, -1, |pts| - 1)
      && Increasing(ks)
      && (|pts| > 0 ==> |ks| > 0 && ks[0] == 0 && ks[|ks| - 1] == |pts| - 1)
      && (forall j :: 0 <= j < |pts| && pres[j] ==> j in ks)
      && Tolerated(pts, ks, err, dist)
  {
    var ks := FilterKept(pts, pres, err, dist);
    SegmentsIncreasing(pts, pres, |pts| - 2, |pts| - 1, err, dist);
    SegmentsTolerated(pts, pres, |pts| - 2, |pts| - 1, err, dist);
    forall j | 0 <= j < |pts| && pres[j] ensures j in ks {
      if j == 0 {
        assert ks[0] in ks;
      } else if j == |pts| - 1 {
        assert ks[|ks| - 1] in ks;
      } else {
        SegmentsKeepPreserved(pts, pres, |pts| - 2, |pts| - 1, err, dist, j);
      }
    }
  }

  /** Keeping as many strictly increasing indices as there are points keeps them all. */
  lemma FullPickIsIdentity(s: seq<Coord>, ks: seq<nat>)
    requires Within(ks, -1, |s| - 1) && Increasing(ks) && |ks| == |s|
    ensures Pick(s, ks) == s
  {
    forall k | 0 <= k < |ks| ensures ks[k] == k {
      IncreasingLower(ks, k);
      IncreasingUpper(ks, |s|, k);
    }
  }

  /** When the filter keeps as many points as the line has, it keeps the line itself. */
  lemma NothingRemoved(pts: seq<Coord>, pres: seq<bool>, err: real, dist: Distance)
    requires err >= 0.0 && |pres| == |pts| && |FilterKept(pts, pres, err, dist)| == |pts|
    ensures Pick(pts, FilterKept(pts, pres, err, dist)) == pts
  {
    SegmentsIncreasing(pts, pres, |pts| - 2, |pts| - 1, err, dist);
    FullPickIsIdentity(pts, FilterKept(pts, pres, err, dist));
  }

  lemma {:induction false} IncreasingLower(ks: seq<nat>, k: nat)
    requires Increasing(ks) && k < |ks|
    ensures k <= ks[k]
  {
    if k > 0 {
      IncreasingLower(ks, k - 1);
      assert ks[k - 1] < ks[k];
    }
  }

  lemma {:induction false} IncreasingUpper(ks: seq<nat>, n: nat, k: nat)
    requires Within(ks, -1, n - 1) && Increasing(ks) && k < |ks|
    ensures ks[k] <= n - |ks| + k
    decreases |ks| - k
  {
    if k + 1 < |ks| {
      IncreasingUpper(ks, n, k + 1);
      assert ks[k] < ks[k + 1];
    }
  }

  lemma AppendAssoc(a: seq<nat>, b: seq<nat>, c: seq<nat>)
    ensures (a + b) + c == a + (b + c)
  {
  }

  lemma CoordAssoc(x: seq<Coord>, y: seq<Coord>, z: seq<Coord>)
    ensures x + y + z == x + (y + z)
  {
  }

  /** Simplifying s..m of a list whose points up to m are those of pts. */
  lemma StretchOfPrefix(pts: seq<Coord>, tail: seq<Coord>, s: nat, m: nat, err: real, dist: Distance)
    requires err >= 0.0 && s <= m < |pts|
    ensures |pts[..m + 1] + tail| > m
    ensures Within(KeptAbove(pts, s, m, err, dist), -1, |pts| - 1)
    ensures Simplified(pts[..m + 1] + tail, s, m, err, dist) == pts[..s + 1] + Pick(pts, KeptAbove(pts, s, m, err, dist)) + tail
  {
    var u := pts[..m + 1] + tail;
    PrefixAgrees(u, pts, m + 1, tail);
    SimplifiedPrefix(u, pts, s, m, err, dist);
  }

  /**
   * The loop at a preserved point i: simplifying i..e of the working list,
   * whose points up to e are still the original ones, adds the kept
   * indices of that stretch in front of those already settled.
   */
  lemma PreservedStep(pts: seq<Coord>, pres: seq<bool>, i: nat, e: nat, rest: seq<nat>, err: real, dist: Distance)
      returns (rest': seq<nat>)
    requires err >= 0.0 && |pres| == |pts| && 0 < i < e < |pts| && Within(rest, -1, |pts| - 1) && pres[i]
    ensures Within(rest', -1, |pts| - 1)
    ensures |pts[..e + 1] + Pick(pts, rest)| > e
    ensures Simplified(pts[..e + 1] + Pick(pts, rest), i, e, err, dist) == pts[..i + 1] + Pick(pts, rest')
    ensures rest' == KeptAbove(pts, i, e, err, dist) + rest
  {
    var K := KeptAbove(pts, i, e, err, dist);
    rest' := K + rest;
    StretchOfPrefix(pts, Pick(pts, rest), i, e, err, dist);
    PickAppend(pts, K, rest);
    CoordAssoc(pts[..i + 1], Pick(pts, K), Pick(pts, rest));
  }

  /** The filter's last call, douglasPeucker on 0..e, stated on the kept indices. */
  lemma FrontStep(pts: seq<Coord>, pres: seq<bool>, i: int, e: int, rest: seq<nat>, err: real, dist: Distance)
      returns (ks: seq<nat>)
    requires err >= 0.0 && |pres| == |pts| && i <= 0 && -1 <= e < |pts| && i < e && Within(rest, -1, |pts| - 1)
    ensures ks == Settled(pts, pres, i, e, rest, err, dist)
    ensures Within(ks, -1, |pts| - 1)
    ensures |pts[..e + 1] + Pick(pts, rest)| > e
    ensures Simplified(pts[..e + 1] + Pick(pts, rest), 0, e, err, dist) == Pick(pts, ks)
  {
    ks := Settled(pts, pres, i, e, rest, err, dist);
    if e < 0 {
      assert pts[..e + 1] + Pick(pts, rest) == Pick(pts, rest);
    } else {
      FrontStretch(pts, e, rest, err, dist);
    }
  }

  lemma FrontStretch(pts: seq<Coord>, e: nat, rest: seq<nat>, err: real, dist: Distance)
    requires err >= 0.0 && e < |pts| && Within(rest, -1, |pts| - 1)
    ensures Within([0] + KeptAbove(pts, 0, e, err, dist) + rest, -1, |pts| - 1)
    ensures Simplified(pts[..e + 1] + Pick(pts, rest), 0, e, err, dist)
         == Pick(pts, [0] + KeptAbove(pts, 0, e, err, dist) + rest)
  {
    var K := KeptAbove(pts, 0, e, err, dist);
    StretchOfPrefix(pts, Pick(pts, rest), 0, e, err, dist);
    PickAppend(pts, [0], K);
    PickAppend(pts, [0] + K, rest);
    assert pts[..1] == Pick(pts, [0]);
  }

  /** The preserved flags of a line's points, as the filter reads them. */
  function PreservedFlags(pts: seq<Coord>): (pres: seq<bool>)
    reads pts
    ensures |pres| == |pts|
    ensures forall k :: 0 <= k < |pts| ==> pres[k] == pts[k].Preserved()
  {
    if pts == [] then [] else PreservedFlags(pts[..|pts| - 1]) + [pts[|pts| - 1].Preserved()]
  }

  /** Java's `1 << shift` on an `int`: the shift distance is taken modulo 32. */
  function ShiftOne(shift: int): int32
  {
    Wrap32(Pow2(shift % 32))
  }

  function Pow2(n: nat): (r: nat)
    ensures r >= 1
  {
    if n == 0 then 1 else 2 * Pow2(n - 1)
  }

  /** For the shifts a resolution yields, 1 << shift is 2^shift. */
  lemma ShiftOneExact(shift: int)
    requires 0 <= shift < 31
    ensures ShiftOne(shift) == Pow2(shift)
  {
    assert shift % 32 == shift;
    PowMono(shift, 30);
    PowThirty();
  }

  /** A distance scaled by an integer factor, as Java's double * int. */
  function Scale(d: real, k: int): real
  {
    d * (k as real)
  }

  /** The tolerance init computes: filterDistance * (1 << shift). */
  function Tolerance(filterDistance: real, shift: int): real
  {
    Scale(filterDistance, ShiftOne(shift))
  }

  /**
   * For the shifts a resolution yields the tolerance is filterDistance * 2^shift,
   * and it is not negative when the filter distance is not.
   */
  lemma ToleranceExact(filterDistance: real, shift: int)
    requires 0 <= shift < 31
    ensures Tolerance(filterDistance, shift) == Scale(filterDistance, Pow2(shift))
    ensures filterDistance >= 0.0 ==> Tolerance(filterDistance, shift) >= 0.0
  {
    ShiftOneExact(shift);
    if filterDistance >= 0.0 {
      ScaleNonNegative(filterDistance, Pow2(shift));
    }
  }

  lemma ScaleNonNegative(a: real, k: int)
    requires a >= 0.0 && k >= 0
    ensures Scale(a, k) >= 0.0
  {
  }

  lemma PowThirty()
    ensures Pow2(30) == 0x4000_0000
  {
    assert Pow2(10) == 1024;
    assert Pow2(20) == 1024 * 1024;
  }

  lemma {:induction false} PowMono(a: nat, b: nat)
    requires a <= b
    ensures Pow2(a) <= Pow2(b)
    decreases b
  {
    if a < b {
      PowMono(a, b - 1);
    }
  }

  /**
   * What doFilter's loop will have settled once it has run down from i with
   * the current stretch ending at e and the indices rest already settled:
   * the loop's own accumulation, the last stretch 0 .. e included.
   */
  function Settled(pts: seq<Coord>, pres: seq<bool>, i: int, e: int, rest: seq<nat>, err: real, dist: Distance): seq<nat>
    requires err >= 0.0 && |pres| == |pts| && -1 <= e < |pts| && i < e
    decreases i
  {
    if i <= 0 then (if e < 0 then rest else [0] + KeptAbove(pts, 0, e, err, dist) + rest)
    else if pres[i] then Settled(pts, pres, i - 1, i, KeptAbove(pts, i, e, err, dist) + rest, err, dist)
    else Settled(pts, pres, i - 1, e, rest, err, dist)
  }

  /** The loop's accumulation settles the stretches below e in front of rest. */
  lemma {:induction false} SettledSegments(pts: seq<Coord>, pres: seq<bool>, i: int, e: int, rest: seq<nat>, err: real, dist: Distance)
    requires err >= 0.0 && |pres| == |pts| && -1 <= e < |pts| && i < e
    ensures Settled(pts, pres, i, e, rest, err, dist) == Segments(pts, pres, i, e, err, dist) + rest
    decreases i
  {
    if i <= 0 {
      SettledFront(pts, pres, i, e, rest, err, dist);
    } else if pres[i] {
      SettledSegments(pts, pres, i - 1, i, KeptAbove(pts, i, e, err, dist) + rest, err, dist);
      SettledAtPreserved(pts, pres, i, e, rest, err, dist);
    } else {
      SettledSegments(pts, pres, i - 1, e, rest, err, dist);
      SettledPast(pts, pres, i, e, rest, err, dist);
    }
  }

  lemma SettledFront(pts: seq<Coord>, pres: seq<bool>, i: int, e: int, rest: seq<nat>, err: real, dist: Distance)
    requires err >= 0.0 && |pres| == |pts| && -1 <= e < |pts| && i < e && i <= 0
    ensures Settled(pts, pres, i, e, rest, err, dist) == Segments(pts, pres, i, e, err, dist) + rest
  {
    if e >= 0 {
      AppendAssoc([0], KeptAbove(pts, 0, e, err, dist), rest);
    }
  }

  /** At a preserved point i the stretch i..e is settled in front of rest. */
  lemma SettledAtPreserved(pts: seq<Coord>, pres: seq<bool>, i: nat, e: nat, rest: seq<nat>, err: real, dist: Distance)
    requires err >= 0.0 && |pres| == |pts| && 0 < i < e < |pts| && pres[i]
    requires var rest' := KeptAbove(pts, i, e, err, dist) + rest;
      Settled(pts, pres, i - 1, i, rest', err, dist) == Segments(pts, pres, i - 1, i, err, dist) + rest'
    ensures Settled(pts, pres, i, e, rest, err, dist) == Segments(pts, pres, i, e, err, dist) + rest
  {
    AppendAssoc(Segments(pts, pres, i - 1, i, err, dist), KeptAbove(pts, i, e, err, dist), rest);
  }

  /** A point that is not preserved settles nothing. */
  lemma SettledPast(pts: seq<Coord>, pres: seq<bool>, i: nat, e: nat, rest: seq<nat>, err: real, dist: Distance)
    requires err >= 0.0 && |pres| == |pts| && 0 < i < e < |pts| && !pres[i]
    requires Settled(pts, pres, i - 1, e, rest, err, dist) == Segments(pts, pres, i - 1, e, err, dist) + rest
    ensures Settled(pts, pres, i, e, rest, err, dist) == Segments(pts, pres, i, e, err, dist) + rest
  {
  }

  /**
   * The state of doFilter's loop with the current stretch ending at e and
   * the loop index at i: the working list holds the original points up to e,
   * followed by the points settled so far, picked at the indices rest, and
   * target, the indices the whole filter keeps, is what the loop goes on to
   * settle from there.
   */
  predicate LoopState(items: seq<Coord>, pts: seq<Coord>, pres: seq<bool>, i: int, e: int, rest: seq<nat>,
                      target: seq<nat>, err: real, dist: Distance)
  {
    && err >= 0.0 && |pres| == |pts| && -1 <= e < |pts| && i < e
    && Within(rest, -1, |pts| - 1)
    && items == pts[..e + 1] + Pick(pts, rest)
    && target == Settled(pts, pres, i, e, rest, err, dist)
  }

  /** The state on entry to doFilter's loop: the working list is the line's points and nothing is settled. */
  lemma LoopStart(pts: seq<Coord>, pres: seq<bool>, err: real, dist: Distance)
    requires err >= 0.0 && |pres| == |pts|
    ensures LoopState(pts, pts, pres, |pts| - 2, |pts| - 1, [], FilterKept(pts, pres, err, dist), err, dist)
  {
    assert pts == pts[..|pts|] + Pick(pts, []);
    SettledSegments(pts, pres, |pts| - 2, |pts| - 1, [], err, dist);
    assert FilterKept(pts, pres, err, dist) == Segments(pts, pres, |pts| - 2, |pts| - 1, err, dist) + [];
  }

  /**
   * One turn of the filter's loop at index i: a preserved point closes the
   * stretch i..e, which is simplified, and becomes the new end index.
   */
  method FilterStep(coords: PointList, ghost pts: seq<Coord>, ghost pres: seq<bool>, i: nat, e: nat,
                    ghost rest: seq<nat>, ghost target: seq<nat>, err: real, dist: Distance)
      returns (e': nat, ghost rest': seq<nat>)
    requires 0 < i && LoopState(coords.items, pts, pres, i, e, rest, target, err, dist)
    requires pts[i].Preserved() == pres[i]
    modifies coords
    ensures LoopState(coords.items, pts, pres, i - 1, e', rest', target, err, dist)
  {
    PrefixAgrees(coords.items, pts, e + 1, Pick(pts, rest));
    var p := coords.items[i];
    if p.Preserved() {
      rest' := PreservedStep(pts, pres, i, e, rest, err, dist);
      Simplify(coords, i, e, err, dist);
      e' := i;
    } else {
      e', rest' := e, rest;
    }
  }

  /**
   * The loop of doFilter, from the end of the working list down to index 1:
   * each preserved point closes a stretch that is simplified on its own.
   */
  method FilterStretches(coords: PointList, ghost pts: seq<Coord>, ghost pres: seq<bool>, err: real, dist: Distance)
      returns (endIndex: int, i: int, ghost rest: seq<nat>)
    requires err >= 0.0 && coords.items == pts && |pres| == |pts|
    requires forall k :: 0 <= k < |pts| ==> pts[k].Preserved() == pres[k]
    modifies coords
    ensures i <= 0 && LoopState(coords.items, pts, pres, i, endIndex, rest, FilterKept(pts, pres, err, dist), err, dist)
  {
    ghost var target := FilterKept(pts, pres, err, dist);
    endIndex := |coords.items| - 1;
    i := endIndex - 1;
    rest := [];
    LoopStart(pts, pres, err, dist);
    while i > 0
      invariant LoopState(coords.items, pts, pres, i, endIndex, rest, target, err, dist)
    {
      endIndex, rest := FilterStep(coords, pts, pres, i, endIndex, rest, target, err, dist);
      i := i - 1;
    }
  }

  /**
   * The points doFilter forwards: a fresh copy of the line's points,
   * simplified between consecutive preserved points from the end and
   * finally from the start to the lowest preserved point.
   */
  method FilterPoints(points: PointList, err: real, dist: Distance, ghost pts: seq<Coord>, ghost pres: seq<bool>)
      returns (coords: PointList)
    requires err >= 0.0 && pts == points.items && |pres| == |pts|
    requires forall k :: 0 <= k < |pts| ==> pts[k].Preserved() == pres[k]
    ensures fresh(coords)
    ensures coords.items == Pick(pts, FilterKept(pts, pres, err, dist))
  {
    coords := new PointList(points.items);
    var endIndex, i, rest := FilterStretches(coords, pts, pres, err, dist);
    ghost var ks := FrontStep(pts, pres, i, endIndex, rest, err, dist);
    Simplify(coords, 0, endIndex, err, dist);
  }

  class DouglasPeuckerFilter {
    const filterDistance: real
    var maxErrorDistance: real
    var resolution: int

    constructor (filterDistance: real)
      ensures this.filterDistance == filterDistance
      ensures maxErrorDistance == 0.0 && resolution == 0
    {
      this.filterDistance := filterDistance;
      maxErrorDistance, resolution := 0.0, 0;
    }

    /** init(config): the resolution and the tolerance of the filter's level. */
    method Init(resolution: int, shift: int)
      modifies this
      ensures this.resolution == resolution
      ensures maxErrorDistance == Tolerance(filterDistance, shift)
    {
      this.resolution := resolution;
      maxErrorDistance := Scale(filterDistance, ShiftOne(shift));
    }

    /**
     * doFilter(element, next): returns the line handed to `next`. At the top
     * resolution the element itself; otherwise a copy of the point list is
     * simplified stretch by stretch between preserved points, and the same
     * line is forwarded when nothing was removed, else a fresh copy carrying
     * the shorter list. The original line and its list are never changed.
     */
    method DoFilter(line: MapLine, dist: Distance) returns (forwarded: MapLine)
      requires resolution != TOP_RESOLUTION ==> maxErrorDistance >= 0.0
      ensures resolution == TOP_RESOLUTION ==> forwarded == line
      ensures resolution != TOP_RESOLUTION ==>
        var pts := line.points.items;
        var ks := FilterKept(pts, PreservedFlags(pts), maxErrorDistance, dist);
        && forwarded.points.items == Pick(pts, ks)
        && (|ks| == |pts| ==> forwarded == line)
        && (|ks| != |pts| ==>
              && fresh(forwarded) && fresh(forwarded.points)
              && forwarded.kind == line.kind && forwarded.isRoad == line.isRoad
              && forwarded.minResolution == line.minResolution && forwarded.maxResolution == line.maxResolution)
    {
      if resolution == TOP_RESOLUTION {
        return line;
      }
      var points := line.points;
      ghost var pts := points.items;
      ghost var pres := PreservedFlags(pts);
      var coords := FilterPoints(points, maxErrorDistance, dist, pts, pres);
      ghost var kept := coords.items;
      if |coords.items| == |points.items| {
        NothingRemoved(pts, pres, maxErrorDistance, dist);
        forwarded := line;
      } else {
        forwarded := line.Copy();
        forwarded.SetPoints(coords);
        assert line.points == points && points.items == pts && coords.items == kept;
      }
    }
  }
}
