/**
 * A point coordinate in map units (360/2^24 degrees) that also remembers a
 * 30-bit "high precision" value per axis as a signed byte delta:
 *   high precision = (map unit << 6) - delta.
 * The position is fixed at construction; the highway count and the five flag
 * bits are mutable and shared by every line that holds the same point.
 */
module Coords {
  import opened JavaInt

  const ON_BOUNDARY_MASK: bv8 := 0x01
  const PRESERVED_MASK: bv8 := 0x02
  const REPLACED_MASK: bv8 := 0x04
  const TREAT_AS_NODE_MASK: bv8 := 0x08
  const FIXME_NODE_MASK: bv8 := 0x10

  /** The five flag masks; each is a single bit and no two share one. */
  const MASKS: seq<bv8> := [ON_BOUNDARY_MASK, PRESERVED_MASK, REPLACED_MASK, TREAT_AS_NODE_MASK, FIXME_NODE_MASK]

  /** The largest value of the highway count, Java's Byte.MAX_VALUE. */
  const HIGHWAY_COUNT_MAX: int8 := 127

  /** Java `x << 6` on an `int`. */
  function Shl6(x: int32): int32
  {
    Wrap32(x * 64)
  }

  /** getHighPrecLat / getHighPrecLon: `(v24 << 6) - delta` in `int` arithmetic. */
  function HighPrec(v24: int32, delta: int8): int32
  {
    Wrap32(Shl6(v24) - delta)
  }

  /**
   * The 24-bit value makeHighPrecCoord derives from a 30-bit one,
   * `(v30 + (1 << 5)) >> 6`. Java's `>>` on an `int` is floor division by 64,
   * which is what Dafny's `/` does for a positive divisor. When the addition
   * does not overflow, the result is the nearest multiple of 64 to v30, with
   * halves rounded up.
   */
  function Round24(v30: int32): (r: int32)
    ensures v30 + 32 <= INT_MAX ==> r * 64 - 32 <= v30 < r * 64 + 32
    ensures -0x200_0000 <= r < 0x200_0000
  {
    Wrap32(v30 + 32) / 64
  }

  /** The stored delta, `(byte) ((v24 << 6) - v30)`. */
  function Residual(v24: int32, v30: int32): int8
  {
    ToByte(Wrap32(Shl6(v24) - v30))
  }

  /**
   * makeHighPrecCoord loses nothing: for every 30-bit input the stored pair
   * gives back exactly that input, even where `v30 + 32` wraps (every step
   * agrees modulo 2^32 and the residual is small enough for a byte).
   */
  lemma HighPrecRoundTrip(v30: int32)
    ensures HighPrec(Round24(v30), Residual(Round24(v30), v30)) == v30
  {
    var r := Round24(v30);
    assert Shl6(r) == r * 64;
    if v30 + 32 <= INT_MAX {
      assert Wrap32(v30 + 32) == v30 + 32;
      assert Wrap32(r * 64 - v30) == r * 64 - v30;
    } else {
      assert Wrap32(v30 + 32) == v30 + 32 - TWO32;
      assert Wrap32(r * 64 - v30) == r * 64 - v30 + TWO32;
    }
  }

  /**
   * The residual of makeHighPrecCoord lies in [-31, 32], so the byte cast
   * keeps it exactly when the rounding addition does not overflow.
   */
  lemma ResidualFitsByte(v30: int32)
    requires v30 + 32 <= INT_MAX
    ensures Residual(Round24(v30), v30) == Round24(v30) * 64 - v30
    ensures -31 <= Residual(Round24(v30), v30) <= 32
  {
    var r := Round24(v30);
    assert Shl6(r) == r * 64;
    assert Wrap32(r * 64 - v30) == r * 64 - v30;
  }

  /**
   * The consistency check of the degree constructor: the stored delta
   * reconstructs the 30-bit value exactly when the difference
   * `(v24 << 6) - v30` (as an `int`) fits in a signed byte.
   */
  lemma DegreeDeltaCheck(v24: int32, v30: int32)
    ensures HighPrec(v24, Residual(v24, v30)) == v30 <==> -128 <= Wrap32(Shl6(v24) - v30) < 128
  {
    var s := Shl6(v24);
    var d := Wrap32(s - v30);
    var t := ToByte(d);
    assert d == s - v30 || d == s - v30 + TWO32 || d == s - v30 - TWO32;
    if -128 <= d < 128 {
      assert t == d;
    } else {
      assert t != d;
      var w := Wrap32(s - t);
      assert w == s - t || w == s - t + TWO32 || w == s - t - TWO32;
    }
  }

  /** Zero deltas give the plain shifted map unit, as Coord(int, int) promises. */
  lemma ZeroDeltaHighPrec(v24: int32)
    requires -0x200_0000 <= v24 < 0x200_0000
    ensures HighPrec(v24, 0) == v24 * 64
  {
  }

  /** A flag test on the flag byte. */
  predicate HasFlag(flags: bv8, mask: bv8)
  {
    flags & mask != 0
  }

  /**
   * `flags |= mask` or `flags &= ~mask`: the bit of `mask` becomes `on` and
   * every other bit keeps its value.
   */
  function SetFlag(flags: bv8, mask: bv8, on: bool): (r: bv8)
    requires mask in MASKS
    ensures HasFlag(r, mask) == on
    ensures r & !mask == flags & !mask
  {
    if on then flags | mask else flags & !mask
  }

  /** Setting one flag leaves each of the other four as it was. */
  lemma SetFlagKeepsOthers(flags: bv8, mask: bv8, other: bv8, on: bool)
    requires mask in MASKS && other in MASKS && mask != other
    ensures HasFlag(SetFlag(flags, mask, on), other) == HasFlag(flags, other)
  {
  }

  /**
   * The increment of incHighwayCount: never wraps, moves by at most one and
   * stands still exactly at Byte.MAX_VALUE.
   */
  function SaturatingInc(n: int8): (r: int8)
    ensures n <= r <= n + 1
    ensures r == n <==> n == HIGHWAY_COUNT_MAX
  {
    if n < HIGHWAY_COUNT_MAX then n + 1 else n
  }

  /** The highway count after k increments from c. */
  function IncTimes(c: int8, k: nat): int8
  {
    if k == 0 then c else SaturatingInc(IncTimes(c, k - 1))
  }

  /** Starting from zero, k increments give min(k, 127): the count saturates and never wraps. */
  lemma {:induction false} IncTimesSaturates(k: nat)
    ensures IncTimes(0, k) == if k < 127 then k else 127
  {
    if k > 0 {
      IncTimesSaturates(k - 1);
    }
  }

  /** Lexicographic order on (longitude, latitude): the order of compareTo. */
  predicate PrecedesLex(a: Coord, b: Coord)
  {
    a.longitude < b.longitude || (a.longitude == b.longitude && a.latitude < b.latitude)
  }

  class Coord {
    const latitude: int32
    const longitude: int32
    const latDelta: int8
    const lonDelta: int8
    var highwayCount: int8
    var flags: bv8

    /** Coord(int, int): a point already in map units; both deltas are zero. */
    constructor (latitude: int32, longitude: int32)
      ensures this.latitude == latitude && this.longitude == longitude
      ensures latDelta == 0 && lonDelta == 0
      ensures HighPrecLat() == Shl6(latitude) && HighPrecLon() == Shl6(longitude)
      ensures highwayCount == 0 && flags == 0
    {
      this.latitude := latitude;
      this.longitude := longitude;
      latDelta, lonDelta := 0, 0;
      highwayCount, flags := 0, 0;
    }

    /**
     * Coord(double, double), given the integers its conversions yield: the
     * map units lat24/lon24 and the 30-bit values lat30/lon30. The asserted
     * reconstruction holds exactly under the byte-range condition.
     */
    constructor FromDegrees(lat24: int32, lon24: int32, lat30: int32, lon30: int32)
      ensures latitude == lat24 && longitude == lon24
      ensures latDelta == Residual(lat24, lat30) && lonDelta == Residual(lon24, lon30)
      ensures HighPrecLat() == lat30 <==> -128 <= Wrap32(Shl6(lat24) - lat30) < 128
      ensures HighPrecLon() == lon30 <==> -128 <= Wrap32(Shl6(lon24) - lon30) < 128
      ensures highwayCount == 0 && flags == 0
    {
      latitude, longitude := lat24, lon24;
      latDelta := Residual(lat24, lat30);
      lonDelta := Residual(lon24, lon30);
      highwayCount, flags := 0, 0;
      DegreeDeltaCheck(lat24, lat30);
      DegreeDeltaCheck(lon24, lon30);
    }

    /** The private four-argument constructor. */
    constructor WithDeltas(lat: int32, lon: int32, latDelta: int8, lonDelta: int8)
      ensures latitude == lat && longitude == lon
      ensures this.latDelta == latDelta && this.lonDelta == lonDelta
      ensures highwayCount == 0 && flags == 0
    {
      latitude, longitude := lat, lon;
      this.latDelta, this.lonDelta := latDelta, lonDelta;
      highwayCount, flags := 0, 0;
    }

    /** Coord(Coord): copies the position and deltas, but neither the flags nor the highway count. */
    constructor Copy(other: Coord)
      ensures latitude == other.latitude && longitude == other.longitude
      ensures latDelta == other.latDelta && lonDelta == other.lonDelta
      ensures HighPrecLat() == other.HighPrecLat() && HighPrecLon() == other.HighPrecLon()
      ensures highwayCount == 0 && flags == 0
    {
      latitude, longitude := other.latitude, other.longitude;
      latDelta, lonDelta := other.latDelta, other.lonDelta;
      highwayCount, flags := 0, 0;
    }

    /** A new point at the given 30-bit position, rounded to map units half up. */
    method MakeHighPrecCoord(lat30: int32, lon30: int32) returns (c: Coord)
      ensures fresh(c)
      ensures c.latitude == Round24(lat30) && c.longitude == Round24(lon30)
      ensures c.HighPrecLat() == lat30 && c.HighPrecLon() == lon30
      ensures c.highwayCount == 0 && c.flags == 0
    {
      var lat24 := Round24(lat30);
      var lon24 := Round24(lon30);
      var dLat := Residual(lat24, lat30);
      var dLon := Residual(lon24, lon30);
      HighPrecRoundTrip(lat30);
      HighPrecRoundTrip(lon30);
      c := new Coord.WithDeltas(lat24, lon24, dLat, dLon);
    }

    function HighPrecLat(): int32
    {
      HighPrec(latitude, latDelta)
    }

    function HighPrecLon(): int32
    {
      HighPrec(longitude, lonDelta)
    }

    function HighwayCount(): int8
      reads this
    {
      highwayCount
    }

    method IncHighwayCount()
      modifies this`highwayCount
      ensures highwayCount == SaturatingInc(old(highwayCount))
    {
      if highwayCount < HIGHWAY_COUNT_MAX {
        highwayCount := highwayCount + 1;
      }
    }

    predicate OnBoundary()
      reads this
    {
      HasFlag(flags, ON_BOUNDARY_MASK)
    }

    predicate Preserved()
      reads this
    {
      HasFlag(flags, PRESERVED_MASK)
    }

    predicate IsReplaced()
      reads this
    {
      HasFlag(flags, REPLACED_MASK)
    }

    predicate IsTreatAsNode()
      reads this
    {
      HasFlag(flags, TREAT_AS_NODE_MASK)
    }

    predicate IsFixme()
      reads this
    {
      HasFlag(flags, FIXME_NODE_MASK)
    }

    method SetOnBoundary(on: bool)
      modifies this`flags
      ensures flags == SetFlag(old(flags), ON_BOUNDARY_MASK, on)
      ensures OnBoundary() == on
      ensures Preserved() == old(Preserved()) && IsReplaced() == old(IsReplaced())
      ensures IsTreatAsNode() == old(IsTreatAsNode()) && IsFixme() == old(IsFixme())
    {
      flags := SetFlag(flags, ON_BOUNDARY_MASK, on);
      KeepOthers(old(flags), ON_BOUNDARY_MASK, on);
    }

    method SetPreserved(on: bool)
      modifies this`flags
      ensures flags == SetFlag(old(flags), PRESERVED_MASK, on)
      ensures Preserved() == on
      ensures OnBoundary() == old(OnBoundary()) && IsReplaced() == old(IsReplaced())
      ensures IsTreatAsNode() == old(IsTreatAsNode()) && IsFixme() == old(IsFixme())
    {
      flags := SetFlag(flags, PRESERVED_MASK, on);
      KeepOthers(old(flags), PRESERVED_MASK, on);
    }

    method SetReplaced(on: bool)
      modifies this`flags
      ensures flags == SetFlag(old(flags), REPLACED_MASK, on)
      ensures IsReplaced() == on
      ensures OnBoundary() == old(OnBoundary()) && Preserved() == old(Preserved())
      ensures IsTreatAsNode() == old(IsTreatAsNode()) && IsFixme() == old(IsFixme())
    {
      flags := SetFlag(flags, REPLACED_MASK, on);
      KeepOthers(old(flags), REPLACED_MASK, on);
    }

    method SetTreatAsNode(on: bool)
      modifies this`flags
      ensures flags == SetFlag(old(flags), TREAT_AS_NODE_MASK, on)
      ensures IsTreatAsNode() == on
      ensures OnBoundary() == old(OnBoundary()) && Preserved() == old(Preserved())
      ensures IsReplaced() == old(IsReplaced()) && IsFixme() == old(IsFixme())
    {
      flags := SetFlag(flags, TREAT_AS_NODE_MASK, on);
      KeepOthers(old(flags), TREAT_AS_NODE_MASK, on);
    }

    method SetFixme(on: bool)
      modifies this`flags
      ensures flags == SetFlag(old(flags), FIXME_NODE_MASK, on)
      ensures IsFixme() == on
      ensures OnBoundary() == old(OnBoundary()) && Preserved() == old(Preserved())
      ensures IsReplaced() == old(IsReplaced()) && IsTreatAsNode() == old(IsTreatAsNode())
    {
      flags := SetFlag(flags, FIXME_NODE_MASK, on);
      KeepOthers(old(flags), FIXME_NODE_MASK, on);
    }

    /** hashCode: `503 * latitude + longitude` in `int` arithmetic. */
    function HashCode(): int32
    {
      Wrap32(503 * latitude + longitude)
    }

    /** equals: the same map-unit pair; the deltas and flags play no part. */
    predicate Equals(other: Coord?)
    {
      other != null && latitude == other.latitude && longitude == other.longitude
    }

    /** compareTo: -1, 0 or 1 by the lexicographic order on (longitude, latitude). */
    function CompareTo(other: Coord): (r: int)
      ensures -1 <= r <= 1
      ensures r == 0 <==> Equals(other)
      ensures r < 0 <==> PrecedesLex(this, other)
      ensures r > 0 <==> PrecedesLex(other, this)
    {
      if longitude == other.longitude then
        if latitude == other.latitude then 0
        else if latitude > other.latitude then 1 else -1
      else if longitude > other.longitude then 1 else -1
    }
  }

  /** The flag bits other than `mask` are untouched by SetFlag. */
  lemma KeepOthers(flags: bv8, mask: bv8, on: bool)
    requires mask in MASKS
    ensures forall other :: other in MASKS && other != mask ==>
      HasFlag(SetFlag(flags, mask, on), other) == HasFlag(flags, other)
  {
    forall other | other in MASKS && other != mask
      ensures HasFlag(SetFlag(flags, mask, on), other) == HasFlag(flags, other)
    {
      SetFlagKeepsOthers(flags, mask, other, on);
    }
  }

  /** Equality is an equivalence and equal points hash alike. */
  lemma EqualsConsistent(a: Coord, b: Coord, c: Coord)
    ensures a.Equals(a)
    ensures a.Equals(b) ==> b.Equals(a)
    ensures a.Equals(b) && b.Equals(c) ==> a.Equals(c)
    ensures a.Equals(b) ==> a.HashCode() == b.HashCode()
  {
  }

  /**
   * Within the ranges the source comment names (|latitude| <= 4194304,
   * |longitude| <= 8388608) the hash does not overflow.
   */
  lemma HashCodeExact(c: Coord)
    requires -4194304 <= c.latitude <= 4194304 && -8388608 <= c.longitude <= 8388608
    ensures c.HashCode() == 503 * c.latitude + c.longitude
  {
  }

  /** compareTo is antisymmetric and transitive: a total order on map-unit pairs. */
  lemma CompareToOrder(a: Coord, b: Coord, c: Coord)
    ensures a.CompareTo(b) == -b.CompareTo(a)
    ensures a.CompareTo(b) < 0 && b.CompareTo(c) < 0 ==> a.CompareTo(c) < 0
  {
  }
}
