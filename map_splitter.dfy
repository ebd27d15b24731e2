/**
 * The map splitter: divides the area of a map into subdivisions that are
 * no larger than the maximum subdivision size and hold no more than the
 * maximum number of points, lines and shapes each.
 *
 * MapArea and its split(xsplit, ysplit) are not part of this model: an area
 * is the value of what the splitter reads of it (its bounds' width and
 * height and its three feature counts), and split is a parameter. The
 * recursion on oversized areas terminates only because split(2, 2) makes
 * areas smaller in some sense; that is a hypothesis (Shrinks) on a ghost
 * measure, not a depth limit.
 */
module MapSplitter {
  const MAX_DIVISION_SIZE: int := 0x3fff
  const MAX_FEATURE_NUMBER: int := 3000

  datatype MapArea = MapArea(width: int, height: int, pointCount: int, lineCount: int, shapeCount: int)

  /** MapArea.split(xsplit, ysplit): the areas an area is divided into. */
  type Splitter = (MapArea, int, int) -> seq<MapArea>

  /** An area with too many points, lines or shapes for one subdivision. */
  predicate Oversized(a: MapArea)
  {
    a.pointCount > MAX_FEATURE_NUMBER || a.lineCount > MAX_FEATURE_NUMBER || a.shapeCount > MAX_FEATURE_NUMBER
  }

  /** An area whose counts are each within the maximum. */
  predicate Fits(a: MapArea)
  {
    a.pointCount <= MAX_FEATURE_NUMBER && a.lineCount <= MAX_FEATURE_NUMBER && a.shapeCount <= MAX_FEATURE_NUMBER
  }

  /** Each area split(2, 2) makes of an oversized area is smaller by the measure. */
  ghost predicate Shrinks(split: Splitter, measure: MapArea -> nat)
  {
    forall a :: Oversized(a) ==> Below(split(a, 2, 2), measure, measure(a))
  }

  /** Every area of areas has a measure below bound. */
  ghost predicate Below(areas: seq<MapArea>, measure: MapArea -> nat, bound: nat)
  {
    forall k :: 0 <= k < |areas| ==> measure(areas[k]) < bound
  }

  // ---------------------------------------------------------------------
  // splitMaxSize
  // ---------------------------------------------------------------------

  /**
   * The number of pieces one side of length size is cut into: one when it
   * is within the maximum, else the least n with n pieces of the maximum
   * size covering more than the side.
   */
  function SplitCount(size: int): (n: int)
    ensures n >= 1
    ensures size <= MAX_DIVISION_SIZE ==> n == 1
    ensures size > MAX_DIVISION_SIZE ==> (n - 1) * MAX_DIVISION_SIZE <= size < n * MAX_DIVISION_SIZE
  {
    if size > MAX_DIVISION_SIZE then size / MAX_DIVISION_SIZE + 1 else 1
  }

  /**
   * Cutting a side into SplitCount(size) equal pieces leaves each piece
   * within the maximum, and strictly below it when the side was cut.
   */
  lemma PiecesWithinMaximum(size: int)
    requires size > 0
    ensures size / SplitCount(size) <= MAX_DIVISION_SIZE
    ensures size > MAX_DIVISION_SIZE ==> size / SplitCount(size) < MAX_DIVISION_SIZE
  {
    var n := SplitCount(size);
    if size > MAX_DIVISION_SIZE {
      var q := size / n;
      assert q * n <= size < MAX_DIVISION_SIZE * n;
      ProductOrder(q, MAX_DIVISION_SIZE, n);
    }
  }

  lemma ProductOrder(a: int, b: int, n: int)
    requires n > 0 && a * n < b * n
    ensures a < b
  {
    assert (a - b) * n == a * n - b * n;
  }

  /** splitMaxSize(mapArea): the grid of pieces below the maximum size. */
  function SplitMaxSize(a: MapArea, split: Splitter): (r: seq<MapArea>)
    ensures a.width <= MAX_DIVISION_SIZE && a.height <= MAX_DIVISION_SIZE ==> r == split(a, 1, 1)
    ensures r == split(a, SplitCount(a.width), SplitCount(a.height))
  {
    var xsplit := if a.width > MAX_DIVISION_SIZE then a.width / MAX_DIVISION_SIZE + 1 else 1;
    var ysplit := if a.height > MAX_DIVISION_SIZE then a.height / MAX_DIVISION_SIZE + 1 else 1;
    split(a, xsplit, ysplit)
  }

  // ---------------------------------------------------------------------
  // addAreasToList, specified
  // ---------------------------------------------------------------------

  /** What addAreasToList appends for one area: the area, or the leaves of its 2x2 split. */
  ghost function LeavesOf(a: MapArea, split: Splitter, measure: MapArea -> nat): seq<MapArea>
    requires Shrinks(split, measure)
    decreases measure(a), 1
  {
    if Oversized(a) then LeavesBelow(split(a, 2, 2), split, measure, measure(a)) else [a]
  }

  /** What addAreasToList appends for areas, each of measure below bound, in order. */
  ghost function LeavesBelow(areas: seq<MapArea>, split: Splitter, measure: MapArea -> nat, bound: nat): seq<MapArea>
    requires Shrinks(split, measure)
    requires Below(areas, measure, bound)
    decreases bound, 0, |areas|
  {
    if areas == [] then []
    else
      var n := |areas| - 1;
      LeavesBelow(areas[..n], split, measure, bound) + LeavesOf(areas[n], split, measure)
  }

  /** A bound above the measure of every area. */
  ghost function Bound(areas: seq<MapArea>, measure: MapArea -> nat): (b: nat)
    ensures Below(areas, measure, b)
  {
    if areas == [] then 0
    else
      var b := Bound(areas[1..], measure);
      if measure(areas[0]) < b then b else measure(areas[0]) + 1
  }

  /** What addAreasToList appends for areas. */
  ghost function Leaves(areas: seq<MapArea>, split: Splitter, measure: MapArea -> nat): seq<MapArea>
    requires Shrinks(split, measure)
  {
    LeavesBelow(areas, split, measure, Bound(areas, measure))
  }

  // ---------------------------------------------------------------------
  // Properties
  // ---------------------------------------------------------------------

  /** An area that fits is appended as it is. */
  lemma FittingAreaKept(a: MapArea, split: Splitter, measure: MapArea -> nat)
    requires Shrinks(split, measure) && Fits(a)
    ensures LeavesOf(a, split, measure) == [a]
  {
  }

  /** An oversized area is replaced by the leaves of its 2x2 split, in their order. */
  lemma OversizedAreaReplaced(a: MapArea, split: Splitter, measure: MapArea -> nat)
    requires Shrinks(split, measure) && Oversized(a)
    ensures LeavesOf(a, split, measure) == Leaves(split(a, 2, 2), split, measure)
  {
    BoundIrrelevant(split(a, 2, 2), split, measure, measure(a), Bound(split(a, 2, 2), measure));
  }

  /** The leaves of areas do not depend on the bound chosen for them. */
  lemma {:induction false} BoundIrrelevant(areas: seq<MapArea>, split: Splitter, measure: MapArea -> nat, b1: nat, b2: nat)
    requires Shrinks(split, measure)
    requires Below(areas, measure, b1) && Below(areas, measure, b2)
    ensures LeavesBelow(areas, split, measure, b1) == LeavesBelow(areas, split, measure, b2)
    decreases |areas|
  {
    if areas != [] {
      var n := |areas| - 1;
      BoundIrrelevant(areas[..n], split, measure, b1, b2);
    }
  }

  /** Every area appended for one area fits. */
  lemma {:induction false} LeavesOfFit(a: MapArea, split: Splitter, measure: MapArea -> nat)
    requires Shrinks(split, measure)
    ensures forall x :: x in LeavesOf(a, split, measure) ==> Fits(x)
    decreases measure(a), 1
  {
    if Oversized(a) {
      LeavesBelowFit(split(a, 2, 2), split, measure, measure(a));
    }
  }

  /** Every area appended for a sequence of areas fits. */
  lemma {:induction false} LeavesBelowFit(areas: seq<MapArea>, split: Splitter, measure: MapArea -> nat, bound: nat)
    requires Shrinks(split, measure)
    requires Below(areas, measure, bound)
    ensures forall x :: x in LeavesBelow(areas, split, measure, bound) ==> Fits(x)
    decreases bound, 0, |areas|
  {
    if areas != [] {
      var n := |areas| - 1;
      LeavesBelowFit(areas[..n], split, measure, bound);
      LeavesOfFit(areas[n], split, measure);
    }
  }

  /** The leaves of a concatenation are the leaves of each part, in order. */
  lemma {:induction false} LeavesAppend(p: seq<MapArea>, q: seq<MapArea>, split: Splitter, measure: MapArea -> nat, bound: nat)
    requires Shrinks(split, measure)
    requires Below(p, measure, bound) && Below(q, measure, bound)
    ensures LeavesBelow(p + q, split, measure, bound)
         == LeavesBelow(p, split, measure, bound) + LeavesBelow(q, split, measure, bound)
    decreases |q|
  {
    if q == [] {
      assert p + q == p;
    } else {
      var n := |q| - 1;
      assert (p + q)[..|p| + n] == p + q[..n];
      assert (p + q)[|p| + n] == q[n];
      LeavesAppend(p, q[..n], split, measure, bound);
      var lp := LeavesBelow(p, split, measure, bound);
      var lq := LeavesBelow(q[..n], split, measure, bound);
      var last := LeavesOf(q[n], split, measure);
      assert LeavesBelow(p + q, split, measure, bound) == (lp + lq) + last;
      assert LeavesBelow(q, split, measure, bound) == lq + last;
    }
  }

  /** Every area that fits is appended as it is, so an input that fits entirely comes out unchanged. */
  lemma {:induction false} FittingAreasUnchanged(areas: seq<MapArea>, split: Splitter, measure: MapArea -> nat, bound: nat)
    requires Shrinks(split, measure)
    requires Below(areas, measure, bound) && forall k :: 0 <= k < |areas| ==> Fits(areas[k])
    ensures LeavesBelow(areas, split, measure, bound) == areas
    decreases |areas|
  {
    if areas != [] {
      var n := |areas| - 1;
      FittingAreasUnchanged(areas[..n], split, measure, bound);
      assert LeavesOf(areas[n], split, measure) == [areas[n]];
      LastSplit(areas);
    }
  }

  /** A nonempty sequence is its front followed by its last element. */
  lemma LastSplit<T>(s: seq<T>)
    requires s != []
    ensures s[..|s| - 1] + [s[|s| - 1]] == s
  {
  }

  // ---------------------------------------------------------------------
  // The splitter
  // ---------------------------------------------------------------------

  /** The java.util.List<MapArea> addAreasToList appends to. */
  class AreaList {
    var items: seq<MapArea>

    constructor ()
      ensures items == []
    {
      items := [];
    }

    method Add(a: MapArea)
      modifies this
      ensures items == old(items) + [a]
    {
      items := items + [a];
    }
  }

  class MapSplitter {
    /** initialArea(mapSource): the area holding every feature of the map. */
    const initial: MapArea
    const split: Splitter

    constructor (initial: MapArea, split: Splitter)
      ensures this.initial == initial && this.split == split
    {
      this.initial, this.split := initial, split;
    }

    /**
     * addAreasToList(areas, alist): appends the areas that fit, in order,
     * and in place of each oversized area what its 2x2 split gives.
     */
    method AddAreasToList(areas: seq<MapArea>, alist: AreaList, ghost measure: MapArea -> nat, ghost bound: nat)
      requires Shrinks(split, measure)
      requires Below(areas, measure, bound)
      modifies alist
      ensures alist.items == old(alist.items) + LeavesBelow(areas, split, measure, bound)
      decreases bound
    {
      ghost var start := alist.items;
      for k := 0 to |areas|
        invariant Below(areas[..k], measure, bound)
        invariant alist.items == start + LeavesBelow(areas[..k], split, measure, bound)
      {
        var a := areas[k];
        assert areas[..k + 1][..k] == areas[..k];
        if Oversized(a) {
          var sublist := split(a, 2, 2);
          AddAreasToList(sublist, alist, measure, measure(a));
        } else {
          alist.Add(a);
        }
      }
      assert areas[..|areas|] == areas;
    }

    /**
     * split(): the subdivisions of the whole map, as an array holding what
     * addAreasToList collected, in order.
     */
    method Split(ghost measure: MapArea -> nat) returns (results: array<MapArea>)
      requires Shrinks(split, measure)
      ensures fresh(results)
      ensures results[..] == Leaves(SplitMaxSize(initial, split), split, measure)
    {
      var areas := SplitMaxSize(initial, split);
      var alist := new AreaList();
      AddAreasToList(areas, alist, measure, Bound(areas, measure));
      var items := alist.items;
      results := new MapArea[|items|];
      for k := 0 to results.Length
        invariant results[..k] == items[..k]
      {
        results[k] := items[k];
      }
    }
  }

  /** Every subdivision split() returns fits. */
  lemma SplitResultsFit(a: MapArea, split: Splitter, measure: MapArea -> nat)
    requires Shrinks(split, measure)
    ensures forall x :: x in Leaves(SplitMaxSize(a, split), split, measure) ==> Fits(x)
  {
    var areas := SplitMaxSize(a, split);
    LeavesBelowFit(areas, split, measure, Bound(areas, measure));
  }
}
