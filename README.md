# mkgmap core, modelled in Dafny

This project models five pieces of mkgmap, the converter from OpenStreetMap data to Garmin map images, and proves properties of each:

- **Coords** (`coord.dfy`): the point coordinate. It holds a 24-bit map-unit pair plus one signed-byte delta per axis, which recovers the 30-bit high-precision value. It also holds a saturating highway count, five flag bits, and `equals`, `hashCode` and `compareTo`.
- **DouglasPeucker** (`douglas_peucker.dfy`): the line simplifier.
  - It cuts a copied point list at every preserved point.
  - In each stretch it removes, in place and recursively, the interior points that lie within the tolerance of the chord.
  - What survives is specified by a sequence of kept indices. The in-place methods are proved against that sequence.
- **MapSplitter** (`map_splitter.dfy`): the map splitter. It first cuts the map into a grid of pieces below the maximum subdivision size. It then splits any piece with too many features 2×2, recursively.
- **Tags** (`tags.dfy`): the tag table of an OSM element.
  - It is an open-addressing hash table on parallel `keys`/`values` arrays with a power-of-two capacity.
  - Probing starts after the home slot. A removed tag leaves its key behind as a tombstone.
  - While an iterator is out, puts go to a side chain of entries.
  - The iterator yields `k=v` then `k=*` for each tag.
- **Overlays** (`overlay_reader.dfy`): the overlay file.
  - A line such as `0x123: 0x12, 0x14` maps a line type to a list of replacement types.
  - `addLine` fans one line out into one line per replacement type.
  - **JavaDecode** (`java_decode.dfy`) models the `Integer.decode` it relies on: sign, `0x`/`#` hex, leading-`0` octal, decimal, and the `int` range.

Support modules:

- `JavaInt` (`java_int.dfy`): Java's 32/16/8-bit wrap-around.
- `Wrappers` (`wrappers.dfy`): `Option` and `Result`.
- `Elements` (`elements.dfy`): stand-ins for the collaborators the core reads and writes, namely the point list, `MapLine` and `LineAdder`.

Java's `null` is `None`. An exception the core raises or lets through becomes an `Err`/`Failure` value.

## Model

Paths are relative to the repository root. `Integer.decode` belongs to the Java platform, so the JavaDecode rows cite the lines that call it.

| member | source | states |
|---|---|---|
| Coords.Round24 | src/uk/me/parabola/imgfmt/app/Coord.java:87-88 | without overflow of `v30 + 32`, the 24-bit value r satisfies `64r - 32 <= v30 < 64r + 32`: nearest multiple of 64, halves rounded up; always a 26-bit value |
| Coords.HighPrecRoundTrip | src/uk/me/parabola/imgfmt/app/Coord.java:86-92 | for every 30-bit input, `(lat24 << 6) - (byte)((lat24 << 6) - lat30)` gives the input back exactly, even where `lat30 + 32` wraps |
| Coords.ResidualFitsByte | src/uk/me/parabola/imgfmt/app/Coord.java:89-90 | without overflow the residual lies in [-31, 32], so the byte cast loses nothing |
| Coords.DegreeDeltaCheck | src/uk/me/parabola/imgfmt/app/Coord.java:70-75 | the constructor's asserted reconstruction holds exactly when `(v24 << 6) - v30` fits a signed byte (both directions) |
| Coords.ZeroDeltaHighPrec | src/uk/me/parabola/imgfmt/app/Coord.java:356-362 | a zero delta makes the high-precision value the map unit times 64 |
| Coords.SetFlag | src/uk/me/parabola/imgfmt/app/Coord.java:132-137 | `flags \|= mask` / `flags &= ~mask`: the mask bit reads as the new value and every other bit is unchanged |
| Coords.SetFlagKeepsOthers | src/uk/me/parabola/imgfmt/app/Coord.java:37-41 | the five masks are independent: setting one leaves the other four flags as they were |
| Coords.SaturatingInc | src/uk/me/parabola/imgfmt/app/Coord.java:122-126 | the count moves up by at most one and stays put exactly at Byte.MAX_VALUE |
| Coords.IncTimesSaturates | src/uk/me/parabola/imgfmt/app/Coord.java:122-126 | k increments from zero give min(k, 127): the count never wraps |
| Coords.Coord.constructor | src/uk/me/parabola/imgfmt/app/Coord.java:54-58 | Coord(int, int): zero deltas, high-precision values `lat << 6` and `lon << 6` |
| Coords.Coord.FromDegrees | src/uk/me/parabola/imgfmt/app/Coord.java:65-77 | given the conversions' integers, stores the byte residuals; the high-precision value equals lat30 iff the difference fits a byte |
| Coords.Coord.WithDeltas | src/uk/me/parabola/imgfmt/app/Coord.java:79-84 | stores position and deltas as given |
| Coords.Coord.Copy | src/uk/me/parabola/imgfmt/app/Coord.java:99-104 | copies position and deltas (hence both high-precision values) but not the flags or the highway count |
| Coords.Coord.MakeHighPrecCoord | src/uk/me/parabola/imgfmt/app/Coord.java:86-92 | a fresh point at the rounded map units whose high-precision values are exactly lat30 and lon30 |
| Coords.Coord.IncHighwayCount | src/uk/me/parabola/imgfmt/app/Coord.java:122-126 | the count becomes its saturating increment |
| Coords.Coord.SetOnBoundary | src/uk/me/parabola/imgfmt/app/Coord.java:128-137 | the boundary flag reads as set; the other four flags unchanged |
| Coords.Coord.SetPreserved | src/uk/me/parabola/imgfmt/app/Coord.java:139-148 | the preserved flag reads as set; the other four unchanged |
| Coords.Coord.SetReplaced | src/uk/me/parabola/imgfmt/app/Coord.java:154-167 | the replaced flag reads as set; the other four unchanged |
| Coords.Coord.SetTreatAsNode | src/uk/me/parabola/imgfmt/app/Coord.java:174-187 | the treat-as-node flag reads as set; the other four unchanged |
| Coords.Coord.SetFixme | src/uk/me/parabola/imgfmt/app/Coord.java:194-203 | the fixme flag reads as set; the other four unchanged |
| Coords.Coord.CompareTo | src/uk/me/parabola/imgfmt/app/Coord.java:286-292 | result in {-1, 0, 1}; 0 iff equals; negative iff this precedes other lexicographically on (longitude, latitude), positive iff other precedes this |
| Coords.EqualsConsistent | src/uk/me/parabola/imgfmt/app/Coord.java:205-218 | equals is reflexive, symmetric and transitive, and equal points have equal hash codes |
| Coords.HashCodeExact | src/uk/me/parabola/imgfmt/app/Coord.java:205-211 | within the latitude and longitude ranges the comment names, `503 * lat + lon` does not overflow |
| Coords.CompareToOrder | src/uk/me/parabola/imgfmt/app/Coord.java:286-292 | compareTo is antisymmetric and transitive |
| DouglasPeucker.ScanMaxFindsFarthest | src/uk/me/parabola/mkgmap/filters/DouglasPeuckerFilter.java:105-119 | the downward scan returns the farthest interior point, the highest-indexed one among equally far points, or the end index with distance 0 when none is beyond 0 |
| DouglasPeucker.KeptAbove | src/uk/me/parabola/mkgmap/filters/DouglasPeuckerFilter.java:99-135 | the kept indices of a stretch lie in (s, e] and end with e; a stretch of one point keeps nothing more |
| DouglasPeucker.RecursiveCalls | src/uk/me/parabola/mkgmap/filters/DouglasPeuckerFilter.java:101-124 | the calls douglasPeucker makes on itself, for any tolerance: with a tolerance that is not negative every call is on a strictly shorter stretch inside (s, e) |
| DouglasPeucker.NegativeToleranceRepeats | src/uk/me/parabola/mkgmap/filters/DouglasPeuckerFilter.java:105-124 | with a negative tolerance and interior points on the chord, maxIndex stays the end index and douglasPeucker calls itself on the same stretch (s, e) again |
| DouglasPeucker.Stretched | src/uk/me/parabola/mkgmap/filters/DouglasPeuckerFilter.java:99-103 | douglasPeucker keeps everything up to s and after e unchanged and in the same positions, and in between keeps the picked points |
| DouglasPeucker.KeptIncreasing | src/uk/me/parabola/mkgmap/filters/DouglasPeuckerFilter.java:120-135 | the kept indices are strictly increasing: the result is an order-preserving subsequence |
| DouglasPeucker.KeptTolerated | src/uk/me/parabola/mkgmap/filters/DouglasPeuckerFilter.java:120-135 | every dropped point lies within the allowed error of the chord between the kept points on either side |
| DouglasPeucker.OnlyEndsKept | src/uk/me/parabola/mkgmap/filters/DouglasPeuckerFilter.java:120-135 | a stretch of three or more points keeps only its ends iff every interior point is within the allowed error |
| DouglasPeucker.FarthestKept | src/uk/me/parabola/mkgmap/filters/DouglasPeuckerFilter.java:111-124 | with a point beyond the error, the farthest interior point is kept |
| DouglasPeucker.SplitStep | src/uk/me/parabola/mkgmap/filters/DouglasPeuckerFilter.java:120-124 | simplifying the upper half first leaves `maxIndex` valid, and the lower half of that result gives the simplified stretch |
| DouglasPeucker.ToleranceStep | src/uk/me/parabola/mkgmap/filters/DouglasPeuckerFilter.java:125-135 | within the tolerance exactly the e - s - 1 interior points are removed |
| DouglasPeucker.Simplify | src/uk/me/parabola/mkgmap/filters/DouglasPeuckerFilter.java:99-136 | douglasPeucker in place: the list becomes the specified simplification of the old list |
| DouglasPeucker.RemoveInterior | src/uk/me/parabola/mkgmap/filters/DouglasPeuckerFilter.java:125-135 | the subList clear and the backward remove loop both delete exactly the points strictly between s and e |
| DouglasPeucker.SegmentsKeepPreserved | src/uk/me/parabola/mkgmap/filters/DouglasPeuckerFilter.java:70-78 | every preserved point the loop reaches is among the kept indices |
| DouglasPeucker.FilterKeepsPreserved | src/uk/me/parabola/mkgmap/filters/DouglasPeuckerFilter.java:64-80 | doFilter keeps strictly increasing indices including the first, the last and every preserved point, and every dropped point is within the tolerance |
| DouglasPeucker.NothingRemoved | src/uk/me/parabola/mkgmap/filters/DouglasPeuckerFilter.java:81-82 | when as many points are kept as there were, the kept list is the original one |
| DouglasPeucker.FilterPoints | src/uk/me/parabola/mkgmap/filters/DouglasPeuckerFilter.java:64-80 | the fresh working list ends as the original points picked at the kept indices; the original list is untouched |
| DouglasPeucker.SegmentsIncreasing | src/uk/me/parabola/mkgmap/filters/DouglasPeuckerFilter.java:70-80 | the indices the loop settles are strictly increasing |
| DouglasPeucker.SegmentsTolerated | src/uk/me/parabola/mkgmap/filters/DouglasPeuckerFilter.java:70-80 | every point the loop drops is within the tolerance of the chord between its kept neighbours |
| DouglasPeucker.ShiftOneExact | src/uk/me/parabola/mkgmap/filters/DouglasPeuckerFilter.java:41-44 | Java's `1 << shift` is 2^shift for shifts below 31 |
| DouglasPeucker.ToleranceExact | src/uk/me/parabola/mkgmap/filters/DouglasPeuckerFilter.java:41-44 | for shifts below 31 the tolerance is filterDistance · 2^shift, and never negative for a non-negative distance |
| DouglasPeucker.DouglasPeuckerFilter.Init | src/uk/me/parabola/mkgmap/filters/DouglasPeuckerFilter.java:41-44 | records the resolution and the tolerance `filterDistance * (1 << shift)` |
| DouglasPeucker.DouglasPeuckerFilter.DoFilter | src/uk/me/parabola/mkgmap/filters/DouglasPeuckerFilter.java:54-88 | at resolution 24 the element itself, for any tolerance; otherwise the forwarded line carries the kept points. It is the same line when nothing was removed, else a fresh copy with the same attributes and a fresh list |
| MapSplitter.SplitCount | src/uk/me/parabola/mkgmap/general/MapSplitter.java:119-125 | 1 within the maximum, else `width / MAX + 1` above the maximum: the n with (n - 1) · MAX <= size < n · MAX, which is one more piece than the ceiling at exact multiples of MAX |
| MapSplitter.PiecesWithinMaximum | src/uk/me/parabola/mkgmap/general/MapSplitter.java:99-129 | each of the n pieces of a side is within the maximum division size, strictly below it when the side was cut |
| MapSplitter.SplitMaxSize | src/uk/me/parabola/mkgmap/general/MapSplitter.java:110-129 | an area within the maximum is split 1×1; otherwise the grid of SplitCount pieces per side |
| MapSplitter.FittingAreaKept | src/uk/me/parabola/mkgmap/general/MapSplitter.java:92-95 | an area within the feature limits is appended as it is |
| MapSplitter.OversizedAreaReplaced | src/uk/me/parabola/mkgmap/general/MapSplitter.java:85-91 | an oversized area is replaced, in its output position, by what its 2×2 split gives |
| MapSplitter.LeavesBelowFit | src/uk/me/parabola/mkgmap/general/MapSplitter.java:83-97 | every appended area has at most 3000 points, lines and shapes |
| MapSplitter.LeavesAppend | src/uk/me/parabola/mkgmap/general/MapSplitter.java:83-97 | the output for a concatenation is the outputs of the parts in order (depth-first, input order) |
| MapSplitter.FittingAreasUnchanged | src/uk/me/parabola/mkgmap/general/MapSplitter.java:83-97 | an input whose areas all fit comes out unchanged |
| MapSplitter.AreaList.Add | src/uk/me/parabola/mkgmap/general/MapSplitter.java:94 | the area joins the end of the list |
| MapSplitter.MapSplitter.AddAreasToList | src/uk/me/parabola/mkgmap/general/MapSplitter.java:83-97 | the list only grows, by exactly the specified leaves of the areas, in order |
| MapSplitter.MapSplitter.Split | src/uk/me/parabola/mkgmap/general/MapSplitter.java:66-81 | a fresh array holding exactly the collected leaves of the grid, in order |
| MapSplitter.SplitResultsFit | src/uk/me/parabola/mkgmap/general/MapSplitter.java:66-97 | every subdivision split() returns is within the feature limits |
| Tags.Home | src/uk/me/parabola/mkgmap/reader/osm/Tags.java:151-152 | the home slot lies in [0, capacity) |
| Tags.ProbeSlot | src/uk/me/parabola/mkgmap/reader/osm/Tags.java:154-158 | the probe's slots lie in the table and, in its capacity - 1 steps, are never the home slot |
| Tags.FindFrom | src/uk/me/parabola/mkgmap/reader/osm/Tags.java:154-164 | a found slot is in the table, is not home, and is free or holds the key |
| Tags.FindSlotNone | src/uk/me/parabola/mkgmap/reader/osm/Tags.java:150-164 | keyPos returns null iff every slot but home holds another key (both directions) |
| Tags.EmptyTable | src/uk/me/parabola/mkgmap/reader/osm/Tags.java:59-63 | an all-null table keeps the invariant and looks every key up as null |
| Tags.PowerOfTwoGap | src/uk/me/parabola/mkgmap/reader/osm/Tags.java:133-135 | no power of two lies strictly between m and 2m, so a valid capacity below the largest short capacity can double |
| Tags.PutArrays | src/uk/me/parabola/mkgmap/reader/osm/Tags.java:89-94 | writing the slot keyPos found keeps the invariant, sets the key, leaves every other key and updates the value count |
| Tags.RemoveArrays | src/uk/me/parabola/mkgmap/reader/osm/Tags.java:99-112 | nulling the value keeps the invariant (the key stays as a tombstone) and removes only that key |
| Tags.PutFindsNoSlot | src/uk/me/parabola/mkgmap/reader/osm/Tags.java:85-89 | a valid table of capacity 8 with no values in which keyPos finds no slot for a new key: put reaches the `assert false` |
| Tags.NoSlotFull | src/uk/me/parabola/mkgmap/reader/osm/Tags.java:154-164 | keyPos finds no slot only when all slots but home hold keys, so a table with fewer than capacity - 1 keys always has a slot |
| Tags.PutFailsWithoutSlot | src/uk/me/parabola/mkgmap/reader/osm/Tags.java:85-89 | put of a new key into that table fails with NoFreeSlot |
| Tags.RebuildStep | src/uk/me/parabola/mkgmap/reader/osm/Tags.java:141-145 | each reinsertion extends the part of the old table already rebuilt by one slot |
| Tags.RebuildDone | src/uk/me/parabola/mkgmap/reader/osm/Tags.java:133-146 | the rebuilt table looks every key up as the old one did |
| Tags.ReplayStep | src/uk/me/parabola/mkgmap/reader/osm/Tags.java:255-262 | each replayed entry with a value extends the replay by one entry; a null value is skipped |
| Tags.ChainTagsAppend | src/uk/me/parabola/mkgmap/reader/osm/Tags.java:173-174 | a tag put during iteration is yielded after everything still to come, unless a null value ended the chain first |
| Tags.SlotTagsHas | src/uk/me/parabola/mkgmap/reader/osm/Tags.java:166-171 | every slot with a value yields its `k=v` with `k=*` right after it |
| Tags.SlotTagsLength | src/uk/me/parabola/mkgmap/reader/osm/Tags.java:190-232 | the slots yield exactly two strings per value |
| Tags.PendingSlot | src/uk/me/parabola/mkgmap/reader/osm/Tags.java:224-232 | the next slot with a value yields `k=v` and leaves `k=*` owed |
| Tags.AsWrittenFirstRound | src/uk/me/parabola/mkgmap/reader/osm/Tags.java:154-162 | the loop as written examines, in its first capacity turns, the slots the probe takes |
| Tags.AsWrittenAgreesAwayFromZero | src/uk/me/parabola/mkgmap/reader/osm/Tags.java:154-162 | for a home slot other than 0 the loop as written examines exactly the capacity - 1 probe slots and then stops |
| Tags.AsWrittenNeverExits | src/uk/me/parabola/mkgmap/reader/osm/Tags.java:154-162 | for home slot 0 the test `i != k` never fails, and the home slot is examined in turn capacity - 1 |
| Tags.ExtraChain.Append | src/uk/me/parabola/mkgmap/reader/osm/Tags.java:76-81 | the entry joins the end of the chain |
| Tags.Tags.constructor | src/uk/me/parabola/mkgmap/reader/osm/Tags.java:59-63 | capacity 8, size 0, every key null, invariant established |
| Tags.Tags.KeyPos | src/uk/me/parabola/mkgmap/reader/osm/Tags.java:150-164 | the loop returns keyPos's specified slot: the first free or matching one after home, home never examined; null when none |
| Tags.FindFromHit | src/uk/me/parabola/mkgmap/reader/osm/Tags.java:154-161 | when every slot examined before step j holds another key and step j's slot holds the key, the probe returns that slot |
| Tags.Tags.Get | src/uk/me/parabola/mkgmap/reader/osm/Tags.java:65-70 | the value stored for the key, null when there is none |
| Tags.Tags.Put | src/uk/me/parabola/mkgmap/reader/osm/Tags.java:72-97 | while iterating: appends to the chain, returns null and leaves the table as it was. Otherwise: on success returns the old value, the key maps to the new value, every other key is unchanged, and at most one key is added. NoFreeSlot only when keyPos finds no slot, and then all slots but home hold keys and every lookup is unchanged. When `size + 1 < capacity` the arrays stay, NegativeArraySize cannot happen, and put fails iff keyPos finds no slot (both directions). When `size + 1 >= capacity` ensureSpace at least doubles the table, so NoFreeSlot cannot happen. NegativeArraySize only at the largest capacity |
| Tags.Tags.PutTable | src/uk/me/parabola/mkgmap/reader/osm/Tags.java:85-96 | put's table branch: on success returns the old value and sets the key, nothing else changes; NoFreeSlot only when keyPos finds no slot, all slots but home holding keys, lookups unchanged; below the growth threshold it fails iff keyPos finds no slot; at or above it, after the growth, NoFreeSlot cannot happen |
| Tags.Tags.Store | src/uk/me/parabola/mkgmap/reader/osm/Tags.java:89-96 | writes the found slot, counts a slot that had no value, returns the old value; adds at most one key |
| Tags.Tags.EnsureSpace | src/uk/me/parabola/mkgmap/reader/osm/Tags.java:133-148 | on success `size + 1 < capacity`, every key has its old value and no key is added; capacity only grows and stays a power of two. Below the threshold nothing changes and it succeeds. Its only failure is NegativeArraySize, at the largest capacity |
| Tags.Tags.Grow | src/uk/me/parabola/mkgmap/reader/osm/Tags.java:135-145 | one doubling: on success the capacity strictly grows, lookups are unchanged and no key is added. Its only failure is the `(short)` cast at the largest short capacity |
| Tags.Tags.Rehash | src/uk/me/parabola/mkgmap/reader/osm/Tags.java:141-145 | on success the new arrays look every key up as the old ones did and hold no more keys than the old ones. Because the new table always has room, its only failure is NegativeArraySize from a nested growth, at the largest capacity |
| Tags.Tags.Remove | src/uk/me/parabola/mkgmap/reader/osm/Tags.java:99-112 | returns the old value, keys unchanged, the key afterwards looks up as null and every other key is unchanged |
| Tags.Tags.AddExtraItems | src/uk/me/parabola/mkgmap/reader/osm/Tags.java:255-263 | clears the chain; with no chain nothing changes and it succeeds; otherwise on success the chained entries with values are put in order, and a failure is NegativeArraySize at the largest capacity or an entry with a value for which keyPos found no slot after the entries before it were put |
| Tags.Tags.Replay | src/uk/me/parabola/mkgmap/reader/osm/Tags.java:259-261 | on success every key takes the last value the entries with values give it, and keeps its value otherwise; a failure is NegativeArraySize at the largest capacity or an entry with a value that found no slot after the entries before it were put |
| Tags.Tags.Copy | src/uk/me/parabola/mkgmap/reader/osm/Tags.java:118-131 | flushes the chain, then a fresh independent tag set with equal arrays, size and capacity; with no chain it always succeeds, and it fails only as the chain's replay fails |
| Tags.Tags.Duplicate | src/uk/me/parabola/mkgmap/reader/osm/Tags.java:121-130 | fresh arrays with identical contents, same size and capacity |
| Tags.Tags.Iterator | src/uk/me/parabola/mkgmap/reader/osm/Tags.java:176-188 | flushes the chain, starts a new one, and the iterator's remaining strings are those of the slots; with no chain it always succeeds, and it fails only as the chain's replay fails |
| Tags.TagIterator.HasNext | src/uk/me/parabola/mkgmap/reader/osm/Tags.java:190-214 | true whenever something remains, and then nothing changes; true only then; false flushes the chain into the table; a failure happens only when nothing remains and the chain's replay fails |
| Tags.TagIterator.Next | src/uk/me/parabola/mkgmap/reader/osm/Tags.java:220-244 | returns the first remaining string and the rest remain; null when nothing remains |
| Tags.NextValued | src/uk/me/parabola/mkgmap/reader/osm/Tags.java:196-201 | the first slot from pos on with a value, or the capacity when none has |
| JavaDecode.ParseDigits | src/uk/me/parabola/mkgmap/osmstyle/OverlayReader.java:74 | an int only for a nonempty run of digits whose signed value fits an int, and then that value |
| JavaDecode.Decode | src/uk/me/parabola/mkgmap/osmstyle/OverlayReader.java:74 | the empty text fails; a negative result needs a leading minus |
| JavaDecode.DecodeDecimal | src/uk/me/parabola/mkgmap/osmstyle/OverlayReader.java:94 | every decimal numeral Integer.toString writes decodes back, -2^31 included |
| JavaDecode.DecodeHex | src/uk/me/parabola/mkgmap/osmstyle/OverlayReader.java:94 | every `0x` numeral, signed, decodes back |
| JavaDecode.DecodeOctal | src/uk/me/parabola/mkgmap/osmstyle/OverlayReader.java:94 | a leading 0 makes the rest octal |
| Overlays.StripComment | src/uk/me/parabola/mkgmap/osmstyle/OverlayReader.java:66-69 | a prefix with no `#`, cut at the first `#`; the whole line when there is none |
| Overlays.CommentIgnored | src/uk/me/parabola/mkgmap/osmstyle/OverlayReader.java:66-69 | whatever follows a `#` is ignored |
| Overlays.SplitFirstColon | src/uk/me/parabola/mkgmap/osmstyle/OverlayReader.java:71-72 | no fields iff the line has no `:`; otherwise key + ":" + rest is the line and the key has no `:` |
| Overlays.SplitAtFirst | src/uk/me/parabola/mkgmap/osmstyle/OverlayReader.java:71 | the split is at the first `:` only; later ones stay in the rest |
| Overlays.NonEmptyTokens | src/uk/me/parabola/mkgmap/osmstyle/OverlayReader.java:88-91 | every token is nonempty and has no space or comma |
| Overlays.TokensSeparator | src/uk/me/parabola/mkgmap/osmstyle/OverlayReader.java:88-91 | repeated spaces and commas add no token |
| Overlays.PiecesPlain | src/uk/me/parabola/mkgmap/osmstyle/OverlayReader.java:88 | no piece of the split contains a space or a comma |
| Overlays.PiecesExtend | src/uk/me/parabola/mkgmap/osmstyle/OverlayReader.java:88 | text without separators only lengthens the last piece |
| Overlays.PiecesJoin | src/uk/me/parabola/mkgmap/osmstyle/OverlayReader.java:88 | splitting separator-free texts joined with commas gives the texts back |
| Overlays.TokensJoin | src/uk/me/parabola/mkgmap/osmstyle/OverlayReader.java:88-91 | tokens written with commas between them tokenise back to the same list, in order |
| Overlays.DecodeAll | src/uk/me/parabola/mkgmap/osmstyle/OverlayReader.java:93-97 | a list iff every token decodes, then their values in order; otherwise the number-list error |
| Overlays.ParseLine | src/uk/me/parabola/mkgmap/osmstyle/OverlayReader.java:66-78 | a line adds no entry iff no `:` is left after the comment is removed |
| Overlays.DecodeAllHex | src/uk/me/parabola/mkgmap/osmstyle/OverlayReader.java:93-97 | the hex numerals of a list of types decode to that list |
| Overlays.ParseFormatLine | src/uk/me/parabola/mkgmap/osmstyle/OverlayReader.java:66-78 | a line written as hex key, `:` and comma-separated hex types parses back to that entry |
| Overlays.ReadLinesAppend | src/uk/me/parabola/mkgmap/osmstyle/OverlayReader.java:63-79 | reading a + b is reading b after a, unless a stopped at an error |
| Overlays.ReadLinesLast | src/uk/me/parabola/mkgmap/osmstyle/OverlayReader.java:74 | without error each key maps to the list of the last line for it; keys no line names keep their mapping |
| Overlays.ReadLinesStops | src/uk/me/parabola/mkgmap/osmstyle/OverlayReader.java:75-77 | the first bad line stops reading: what came before stays, and its error is reported |
| Overlays.ReadLinesStopped | src/uk/me/parabola/mkgmap/osmstyle/OverlayReader.java:75-77 | once an error occurred, later lines change nothing |
| Overlays.ReadReplacements | src/uk/me/parabola/mkgmap/osmstyle/OverlayReader.java:85-101 | the method equals the specified replacement list: the tokens' values in order, empty pieces skipped, the first non-number fails |
| Overlays.NonEmptyHas | src/uk/me/parabola/mkgmap/osmstyle/OverlayReader.java:89-94 | every nonempty piece is among the tokens decoded |
| Overlays.ReadLine | src/uk/me/parabola/mkgmap/osmstyle/OverlayReader.java:64-78 | one turn of readOverlays' loop equals the specified effect of the line |
| Overlays.OverlayReader.ReadOverlays | src/uk/me/parabola/mkgmap/osmstyle/OverlayReader.java:61-80 | the map becomes what the specified reading of the lines gives, and it fails iff, and with the error with which, the reading stops |
| Overlays.OverlayReader.AddLine | src/uk/me/parabola/mkgmap/osmstyle/OverlayReader.java:103-123 | no overlay: the line itself is added. An empty list fails. Otherwise one fresh line is added per type, in order, with the original points: the first shares the list and is a road iff the original was; the rest are plain lines with fresh copies |
| Overlays.AddPlainCopies | src/uk/me/parabola/mkgmap/osmstyle/OverlayReader.java:114-119 | one fresh plain line per type after the first, each with a fresh copy of the points |

## Left out

- Coord's floating-point code is not modelled, because it works on doubles and trigonometry:
  - `toBit30`;
  - `Utils.toMapUnit` (not part of this model);
  - `distance`, `distanceInDegreesSquared`, `bearingTo`;
  - `makeBetweenPoint`;
  - `int30ToRadians`, `int30ToDegrees`.
- Coord(double, double) becomes `Coords.Coord.FromDegrees`. It takes the integers those conversions yield.
- Coord's string methods (`toString`, `toDegreeString`, `toOSMURL`) and the constant `getId` are left out, because they are formatting only.
- `Coord.shortestDistToLineSegment` is not part of this model. The Douglas-Peucker module takes it as a distance function parameter.
- DouglasPeucker.DouglasPeuckerFilter.DoFilter requires a non-negative tolerance below resolution 24, because with a negative one douglasPeucker does not terminate (see Findings).
- DouglasPeucker: the tolerance's `double * int` is a real-valued function (`Scale`); floating-point rounding is not modelled.
- MapSplitter: the following are parameters or values:
  - `MapArea`, `MapArea.split`, `MapDataSource`, `initialArea`;
  - the area's bounds and feature counts.
- MapSplitter: termination rests on the hypothesis `Shrinks`, that each 2×2 child of an oversized area is smaller by a ghost measure. The code itself does not guarantee it.
- Logging calls are left out everywhere.
- The following are not part of this model:
  - `MapLine`, `MapRoad`, `LineAdder` and `MapFilterChain`. `Elements` keeps only the state the core touches.
  - `TokenScanner`, the `Reader` and the file name. `readOverlays` takes a sequence of lines.
  - `SyntaxException`'s message text. It is reduced to `SyntaxError` values.
  - The `getOverlays` accessor. It is the `overlays` field itself.
- JavaDecode: `Character.digit` is modelled for ASCII digits only. Java also accepts other Unicode digits.
- Overlays: Java's `split` drops trailing empty strings. The model keeps them, which makes no difference, because readReplacements skips empty pieces.
- Tags: `String.hashCode` is a parameter.
- Tags: the mask `h & (capacity - 1)` is written `h % capacity` (`Tags.Home`). The two agree for a power-of-two capacity, including for negative `h` under Dafny's Euclidean `%`.
- Tags: the `ExtraEntry` objects are a sequence of entries in `ExtraChain`. The walk to the end of the chain in `put` is an append.
- Tags.Tags.EnsureSpace: doubling past the largest short capacity (16384) makes `(short)(capacity*2)` negative, so Java throws NegativeArraySizeException. The model returns `Err(NegativeArraySize)` rather than a precondition that excludes it.
- Tags.Tags.Put: the return value `Err(NoFreeSlot)` stands for the `assert false` and the NullPointerException of unboxing a missing index. After NegativeArraySize only the invariant and the size and capacity bounds are stated, not the lookups of the partly rebuilt table.
- Tags.Tags.Valid: states `live values <= size <= capacity` rather than `size == live values`. ensureSpace re-puts every old key, tombstones included, without resetting `size`, so the count is an upper bound only.
- Tags: the iterator's `remove` (always UnsupportedOperationException) is left out.
- Tags: concurrent use of several iterators is not modelled. An iterator's owner is reached only through its `tags` field.
- `OsmReadingHooks.java` and `Style.java` hold interfaces with empty defaults and accessors only, so there is nothing to model.

## Findings

| source | as written | input that shows it | evidently intended | confidence | as-written member | corrected member |
|---|---|---|---|---|---|---|
| src/uk/me/parabola/mkgmap/reader/osm/Tags.java:154-158 | keyPos tests `i != k` before it wraps `i`. With home slot `k == 0`, `i` reaches capacity, wraps to 0, slot 0 is examined, and `i` is incremented to 1 before the next test. The test never fails, and the home slot is examined | Capacity 8, all eight slots holding keys whose values were removed (each put then removed, so size stays below 2 and the table never grows), then get or put of a new key whose hash has `h & 7 == 0`. keyPos loops forever. With slot 0 free instead, it returns the home slot | the probe visits the capacity - 1 slots after home, as it does for every other home slot, and returns null when they all hold other keys | not executed | Tags.AsWrittenNeverExits | Tags.Tags.KeyPos |
| src/uk/me/parabola/mkgmap/filters/DouglasPeuckerFilter.java:105-124 | `maxDistance` starts at 0 and `maxIndex` at `endIndex`, and the recursion runs when `maxDistance > allowedError`. With a negative tolerance and no interior point farther than 0 from the chord, it calls `douglasPeucker(points, maxIndex, endIndex)` with `maxIndex == endIndex` and then `douglasPeucker(points, startIndex, endIndex)`, the same stretch | a negative `filterDistance`, and a line of three collinear points at a resolution below 24. The recursion repeats until the stack overflows | the tolerance is not negative, so each call is on a shorter stretch and the interior points within it are removed | not executed | DouglasPeucker.NegativeToleranceRepeats | DouglasPeucker.KeptAbove |
