/**
 * The collaborators the core hands lines to and takes them from, reduced to
 * the state the core touches: a mutable list of points (a Java ArrayList of
 * Coord), a line with its type code and points, and the sink lines are added to.
 */
module Elements {
  import opened Coords

  /** A java.util.List<Coord>; the core reads, copies and removes from it in place. */
  class PointList {
    var items: seq<Coord>

    constructor (items: seq<Coord>)
      ensures this.items == items
    {
      this.items := items;
    }

    /** remove(i) */
    method Remove(i: nat)
      requires i < |items|
      modifies this
      ensures items == old(items[..i] + items[i + 1..])
    {
      items := items[..i] + items[i + 1..];
    }

    /** subList(from, to).clear() */
    method ClearRange(from: nat, to: nat)
      requires from <= to <= |items|
      modifies this
      ensures items == old(items[..from] + items[to..])
    {
      items := items[..from] + items[to..];
    }
  }

  /**
   * A MapLine: its type code, resolution range, whether it is a road (the
   * subclass MapRoad) and its point list.
   */
  class MapLine {
    var kind: int
    var minResolution: int
    var maxResolution: int
    var isRoad: bool
    var points: PointList

    constructor (kind: int, minResolution: int, maxResolution: int, isRoad: bool, points: PointList)
      ensures this.kind == kind && this.minResolution == minResolution
      ensures this.maxResolution == maxResolution && this.isRoad == isRoad && this.points == points
    {
      this.kind, this.minResolution, this.maxResolution := kind, minResolution, maxResolution;
      this.isRoad, this.points := isRoad, points;
    }

    /** line.copy(): a shallow copy of the same kind of line (a road stays a road). */
    method Copy() returns (c: MapLine)
      ensures fresh(c)
      ensures c.kind == kind && c.minResolution == minResolution && c.maxResolution == maxResolution
      ensures c.isRoad == isRoad && c.points == points
    {
      c := new MapLine(kind, minResolution, maxResolution, isRoad, points);
    }

    /** new MapLine(line): a shallow copy that is a plain line, never a road. */
    method AsPlainLine() returns (c: MapLine)
      ensures fresh(c)
      ensures c.kind == kind && c.minResolution == minResolution && c.maxResolution == maxResolution
      ensures !c.isRoad && c.points == points
    {
      c := new MapLine(kind, minResolution, maxResolution, false, points);
    }

    method SetType(kind: int)
      modifies this`kind
      ensures this.kind == kind
    {
      this.kind := kind;
    }

    method SetPoints(points: PointList)
      modifies this`points
      ensures this.points == points
    {
      this.points := points;
    }
  }

  /** A LineAdder: everything added to it, in order. */
  class LineAdder {
    var added: seq<MapLine>

    constructor ()
      ensures added == []
    {
      added := [];
    }

    method Add(line: MapLine)
      modifies this
      ensures added == old(added) + [line]
    {
      added := added + [line];
    }
  }
}
