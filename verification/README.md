# pfaedle core, modelled in Dafny

pfaedle is a map-matcher for public-transit schedules. This project models
the deterministic parts of it that can be stated precisely, and proves what
they promise:

- the DE-9IM intersection matrix and its pattern filter
  (`src/util/geo/DE9IMatrix.h`). This is the Dimensionally Extended
  Nine-Intersection Model of OGC Simple Feature Access Part 1, section
  6.1.15.2, with the named predicates of section 6.1.15.3. Eight two-bit
  cells are packed into a 16-bit word; the EE cell is always `2`;
- the WKT type-tag recogniser `getWKTType`, `boolArrToInt8` and
  `crossProd` over integer coordinates (`src/util/geo/Geo.cpp`);
- the x-sorted sweep events of `Line.h`: the flag byte of `XSortedTuple`,
  its sweep order, and the two `XSortedLine` constructors;
- polygon orientation and area (`Polygon.h`), using twice the shoelace
  area over integer coordinates; `Polygon::fix`, the box polygon, and the
  inner-ring bookkeeping of `XSortedPolygon` with `getFirstInner`;
- the tagged geometry union `AnyGeometry` (`Collection.h`);
- the helpers of `Misc.h`/`Misc.cpp`:
  - merge-sort inversion counting, as imperative methods with loop
    invariants;
  - `SparseMatrix`, `factorial` and `atoul`;
  - the trailing-zero trim of `formatFloat`;
  - `rgbToHex` and `normHtmlColor`;
- the trip cache (`src/pfaedle/router/TripCache.cpp`):
  - coordinate packing and fixed-width hex;
  - path joining and cache-entry sharding;
  - the mode-of-transport key and the deterministic seed;
  - the binary entry format, as a byte-sequence round trip;
  - the edge index;
  - the oldest-first pruning policy;
  - the counter semantics of `store`, `lookup` and `remove` over a
    file map;
- the router statistics record `Stats` (`Stats.h`);
- the two benchmark scripts `bench/compare_reports.py` and
  `bench/compute_quality.py`, over a JSON datatype.

Machine integers are modelled explicitly:
- `size_t` and `uint64_t` counters wrap modulo 2^64;
- `merge`'s `int` return value is truncated to 32 bits;
- `unsigned` seeds are `bv32`;
- the DE-9IM word is `bv16`;
- polygon coordinates are unbounded integers. Only `getFirstInner`'s
  comparison with the largest `T` fixes `T` as a 32-bit `int` (see
  "## Left out").

Doubles are either integers (coordinates), reals (solve time) or opaque
fixed-width byte blobs (the entry format). Each source file has its own
module:

| module | file | source |
|---|---|---|
| `DE9IM` | de9im.dfy | DE9IMatrix.h |
| `Geo` | geo.dfy | Geo.cpp |
| `Lines`, `Sorting` | line.dfy, sorting.dfy | Line.h |
| `Polygons` | polygon.dfy | Polygon.h |
| `Collections` | collection.dfy | Collection.h |
| `Inversions`, `Misc` | inversions.dfy, misc.dfy | Misc.h, Misc.cpp |
| `CStrings` | cstrings.dfy | NUL-terminated strings, hex digits, `std::string` order |
| `Bytes` | bytes.dfy | little-endian integers |
| `TripKeys`, `Paths`, `EdgeIndex`, `EntryFormat`, `Pruning`, `TripCacheState` | tripkeys.dfy, paths.dfy, edgeindex.dfy, entryformat.dfy, prune.dfy, tripcache.dfy | TripCache.cpp |
| `RouterStats` | stats.dfy | Stats.h |
| `Bench` | bench.dfy | the two bench scripts |
| `Points`, `Wrappers` | points.dfy, wrappers.dfy | shared datatypes |

The usage line of `compute_quality.py` names one report, but the script
only rejects fewer than one argument (`len(sys.argv) < 2`) and ignores any
extra ones. `Bench.QualityIgnoresExtraArguments` states what the code does.

## Model

| member | source | states |
|---|---|---|
| DE9IM.BitsRoundTrip | src/util/geo/DE9IMatrix.h:62 | unpacking the 16-bit word of a matrix gives back its eight cells |
| DE9IM.FromBitsRoundTrip | src/util/geo/DE9IMatrix.h:145-148 | every 16-bit word is the packing of the cells read from it |
| DE9IM.BitsInjective | src/util/geo/DE9IMatrix.h:281-283 | `==` on matrices, which compares words, holds exactly when all cells agree |
| DE9IM.SetTo | src/util/geo/DE9IMatrix.h:76-79 | after `setTo(i, v)` cell i reads `v` and every other cell is unchanged |
| DE9IM.SetToIsWordSet | src/util/geo/DE9IMatrix.h:76-79 | the source's mask-and-or on the word is the cell update `SetTo`, for each of the eight cells |
| DE9IM.GetIsWordGet | src/util/geo/DE9IMatrix.h:81-84 | `get(i)`'s shift-and-mask reads cell i of the matrix |
| DE9IM.Parse | src/util/geo/DE9IMatrix.h:50-58 | each cell is the digit code of its character up to the first NUL, and F from there on |
| DE9IM.ToString | src/util/geo/DE9IMatrix.h:64-74 | the text has nine characters and ends in `2` |
| DE9IM.ParseToString | src/util/geo/DE9IMatrix.h:50-74 | printing a matrix and parsing the text gives the same matrix |
| DE9IM.ToStringParse | src/util/geo/DE9IMatrix.h:50-74 | parsing a nine-character text over F,0,1,2 that ends in `2` and printing it gives the text back |
| DE9IM.TextDiffersIffParse | src/util/geo/DE9IMatrix.h:285-291 | for such a text, `text != m` is false exactly when the text parses to `m` |
| DE9IM.Transpose | src/util/geo/DE9IMatrix.h:104-115 | II and BB are kept; IB/BI, IE/EI and BE/EB are swapped |
| DE9IM.TransposeInvolution | src/util/geo/DE9IMatrix.h:104-115 | transposing twice gives the original matrix |
| DE9IM.Plus | src/util/geo/DE9IMatrix.h:255-266 | every cell of `a + b` is the larger of the two cells |
| DE9IM.PlusCommutative | src/util/geo/DE9IMatrix.h:255-266 | `a + b == b + a` |
| DE9IM.PlusAssociative | src/util/geo/DE9IMatrix.h:255-266 | `(a + b) + c == a + (b + c)` |
| DE9IM.PlusIdempotent | src/util/geo/DE9IMatrix.h:255-266 | `a + a == a` |
| DE9IM.PlusAssign | src/util/geo/DE9IMatrix.h:117-125 | the `+=` loop computes the same matrix as `+` |
| DE9IM.PredicateRelations | src/util/geo/DE9IMatrix.h:127-143 | intersects iff not disjoint; equals iff contains and within; contains(M) iff within(Mᵀ); covers(M) iff covered(Mᵀ); touches implies intersects; contains implies covers; overlaps1 implies overlaps02 |
| DE9IM.ParseFilterCells | src/util/geo/DE9IMatrix.h:155-169 | each of the eight cells encodes its pattern character: a digit or F sets the equality mask and value, T sets the true mask, and `*` and the cells after a NUL set nothing |
| DE9IM.ParseFilter | src/util/geo/DE9IMatrix.h:170-176 | the EE value is the code of the ninth character when it is present, and "any" otherwise |
| DE9IM.EqualityTest | src/util/geo/DE9IMatrix.h:181 | the masked-word comparison holds iff every masked cell equals its value |
| DE9IM.TrueTest | src/util/geo/DE9IMatrix.h:183-195 | the shift-or bit trick holds iff every T cell of the matrix is non-F |
| DE9IM.MatchesCells | src/util/geo/DE9IMatrix.h:179-198 | `matches` is the conjunction of the EE check, the per-cell equality test and the per-cell T test |
| DE9IM.EeOkIff | src/util/geo/DE9IMatrix.h:180 | the EE check passes iff the ninth character is not F, 0 or 1 |
| DE9IM.MatchesIffPattern | src/util/geo/DE9IMatrix.h:179-198 | a parsed filter matches a matrix iff the pattern text matches it cell by cell |
| DE9IM.AllStarsMatch | src/util/geo/DE9IMatrix.h:155-198 | the all-`*` filter matches every matrix |
| DE9IM.FilterToStringParse | src/util/geo/DE9IMatrix.h:200-228 | printing a parsed nine-character pattern over F,0,1,2,T,* gives the pattern back |
| DE9IM.FilterCharAt | src/util/geo/DE9IMatrix.h:200-218 | the printed character of each cell is the pattern's character |
| Geo.Code | src/util/geo/Geo.h:133-142 | the enum values are 0 to 7, and 0 is `NONE` |
| Geo.SkipFrom | src/util/geo/Geo.cpp:38-43 | the skip loop stops inside the text, at a position that is not a blank, a quote or a stray `m` |
| Geo.SkipFromSkips | src/util/geo/Geo.cpp:38-43 | every position the skip loop passes over is a blank, a quote or a stray `m` |
| Geo.KeywordAtChars | src/util/geo/Geo.cpp:44 | a keyword test succeeds iff the next characters equal the keyword ignoring case |
| Geo.FirstMatchFound | src/util/geo/Geo.cpp:44-70 | the keyword the tests stop at matches at the position |
| Geo.FirstMatchBefore | src/util/geo/Geo.cpp:44-70 | no keyword tested before the one found matches, so the first match in test order wins |
| Geo.FirstMatchAgree | src/util/geo/Geo.cpp:44-70 | keyword tests of at most 18 characters only depend on the next 18 characters up to case |
| Geo.KeywordLengthIs | src/util/geo/Geo.cpp:44-70 | the end offsets 5, 10, 7, 10, 15, 12 and 18 are the lengths of the keywords tested |
| Geo.Classify | src/util/geo/Geo.cpp:37-75 | the end pointer is null iff the type is `NONE`, and otherwise points just past the keyword after the skipped prefix |
| Geo.KeywordsExclusive | src/util/geo/Geo.cpp:44-71 | no two keywords can both match at the same position |
| Geo.ClassifyIff | src/util/geo/Geo.cpp:37-75 | the type is t iff t's keyword occurs, ignoring case, after the skipped prefix |
| Geo.ClassifyNone | src/util/geo/Geo.cpp:73-74 | the type is `NONE` iff no keyword occurs after the skipped prefix |
| Geo.ClassifyLower | src/util/geo/Geo.cpp:44-70 | lower-casing the input does not change the result |
| Geo.LeadingBlankSkipped | src/util/geo/Geo.cpp:38-39 | a leading blank or quote is skipped: the result is that of the rest, shifted by one |
| Geo.LeadingMSkipped | src/util/geo/Geo.cpp:40-43 | a leading `m` or `M` that is not followed by `u` is skipped |
| Geo.KeywordFirst | src/util/geo/Geo.cpp:44-70 | a text that starts with a keyword has that keyword's type |
| Geo.ExampleMLineString | src/util/tests/GeoTest.cpp:21 | `MLINESTRING(0 0, 1 1)` is a line string |
| Geo.ExampleMisspelt | src/util/tests/GeoTest.cpp:35 | `  LINESTRIN (0 0, 1 1)`, with its two leading blanks, is `NONE` |
| Geo.BoolArrRoundTrip | src/util/geo/Geo.cpp:8-12 | bit i of `boolArrToInt8(arr)` is set iff `arr[i]`, so reading the bits back gives the array |
| Geo.Int8RoundTrip | src/util/geo/Geo.cpp:8-12 | every byte is the packing of its own bits |
| Geo.BoolArrInjective | src/util/geo/Geo.cpp:8-12 | two arrays pack to the same byte iff they are equal |
| Geo.CrossProdAntisymmetric | src/util/geo/Geo.cpp:32-34 | swapping the two vectors negates the cross product |
| Geo.CrossProdParallel | src/util/geo/Geo.cpp:32-34 | the cross product of parallel vectors is zero |
| Lines.MakeTuple | src/util/geo/Line.h:103-123 | the tuple keeps its point and stores the two quantised angles |
| Lines.MakeTupleFlags | src/util/geo/Line.h:103-123 | `out()`, both boundary flags, the reversal bit and the first-point bit read back as given, and the empty bit is clear |
| Lines.FlagBits | src/util/geo/Line.h:107-122 | the flag bits added one by one never interfere |
| Lines.MakeTupleSegments | src/util/geo/Line.h:134-151 | when the point is an endpoint of the segment, `seg()` is the segment, and `origSeg()` is it swapped exactly when `rev` was set |
| Lines.MakeTupleNoBoundary | src/util/geo/Line.h:100-102 | the six-argument constructor is the full one with both boundary flags false |
| Lines.EmptyTupleFacts | src/util/geo/Line.h:96-143 | the `(p, out)` tuple has the empty bit set, keeps `out`, and both segments are `((0,0),(0,0))` |
| Lines.LessIsRank | src/util/geo/Line.h:180-186 | tuple `<` orders by x and puts in-events before out-events at equal x |
| Lines.LessStrictWeakOrder | src/util/geo/Line.h:180-186 | tuple `<` is irreflexive, transitive and asymmetric, and incomparability is transitive |
| Lines.SameOrigIsLeftPoint | src/util/geo/Line.h:36-48 | `sameOrig` holds iff the two segments have the same left endpoint |
| Lines.SameLeftXIsMinX | src/util/geo/Line.h:274-289 | `sameLeftX` holds iff the two segments have the same smallest x |
| Lines.FromSegmentFacts | src/util/geo/Line.h:383-407 | two events, an in-event then an out-event, in sweep order, both boundaries, both with the segment as original segment; the maximum length is the x extent |
| Lines.FromShortLine | src/util/geo/Line.h:296-297 | a line with fewer than two points gives the empty line |
| Lines.FromLineFacts | src/util/geo/Line.h:296-381 | two events per non-zero step, sorted by tuple `<`, a permutation of the generated events, first and last point kept |
| Lines.EventsCount | src/util/geo/Line.h:302-377 | the loop emits exactly two events for each step that is not zero-length |
| Lines.MaxLenBound | src/util/geo/Line.h:302-307 | the maximum length is -1 iff every step is zero-length; otherwise it is the largest x extent of a non-zero step |
| Lines.StepEventsFacts | src/util/geo/Line.h:343-377 | each step gives an in-event left of its out-event, both with the step as original segment, with the boundary flags of the first and the last step |
| Sorting.SortBy | src/util/geo/Line.h:380 | the result is sorted by the key and is a permutation of the input |
| Polygons.TwiceSignedReverse | src/util/geo/Polygon.h:103-120 | reversing a ring negates its signed area |
| Polygons.ShortRingArea | src/util/geo/Polygon.h:104-105 | a ring with fewer than three points has area 0 |
| Polygons.ClosedSumOffset | src/util/geo/Polygon.h:107-117 | the shoelace sum does not depend on the offset point subtracted from every vertex |
| Polygons.RingAreaInvariant | src/util/geo/Polygon.h:72-75 | a ring's area is the same when the ring is reversed and when its repeated closing point is dropped |
| Polygons.FixRingShape | src/util/geo/Polygon.h:38-50 | each fixed ring has one point fewer exactly when it had more than one point and ended at its start, otherwise all its points, in the same or reversed order |
| Polygons.DropClosingArea | src/util/geo/Polygon.h:38-50 | dropping the closing point does not change the signed area |
| Polygons.FixOuter | src/util/geo/Polygon.h:38-50 | the fixed outer ring is the ring without its closing point, possibly reversed |
| Polygons.FixInner | src/util/geo/Polygon.h:38-50 | the same for an inner ring |
| Polygons.FixOuterOriented | src/util/geo/Polygon.h:41-42 | the fixed outer ring has signed area equal to minus its area (counter-clockwise) |
| Polygons.FixInnerOriented | src/util/geo/Polygon.h:47-48 | a fixed inner ring has signed area equal to its area (clockwise) |
| Polygons.FixOrients | src/util/geo/Polygon.h:38-50 | after `fix` the outer ring has signed area ≤ 0 and every inner ring ≥ 0, and no ring's area changes |
| Polygons.FixedAreaIsSigned | src/util/geo/Polygon.h:84-90 | for a fixed polygon, `area` (outer area minus inner areas) is minus `signedArea` |
| Polygons.FixedMultiAreaIsSigned | src/util/geo/Polygon.h:93-100 | the same for the sum over a multi-polygon of fixed polygons |
| Polygons.BoxPolygonFacts | src/util/geo/Polygon.h:30-36 | the box polygon has four corners in counter-clockwise order, no inner rings, and signed area minus twice the box area |
| Polygons.BoxOf | src/util/geo/Polygon.h:388-389 | every ring point lies in the box, and its left and right sides touch ring points |
| Polygons.CollectInners | src/util/geo/Polygon.h:378-397 | the outer ring is kept; inners, areas, boxes and box indices have equal length; each index entry names its own position |
| Polygons.CollectInnersRings | src/util/geo/Polygon.h:378-391 | every kept inner ring is a raw ring oriented clockwise, with its area and bounding box recorded |
| Polygons.CollectInnersMaxSegLen | src/util/geo/Polygon.h:393-396 | the maximum inner width is the largest box width |
| Polygons.CollectInnersCount | src/util/geo/Polygon.h:378-380 | exactly the raw rings with at least two points are kept |
| Polygons.XSortedPolygonFacts | src/util/geo/Polygon.h:370-400 | the outer ring is counter-clockwise, the per-inner lists have equal length, and the box index is a sorted permutation of the collected one |
| Polygons.BoxIdxSortedByX | src/util/geo/Polygon.h:399 | after the sort the box index is ascending in x |
| Polygons.LowerBound | src/util/geo/Polygon.h:450-453 | the binary search returns the first position whose x is at least the target |
| Polygons.GetFirstInner | src/util/geo/Polygon.h:445-456 | 0 without inners; otherwise the first box whose left x is at least `p.x - innerMaxSegLen`, or 0 when that width is the type maximum |
| Collections.ConstructorTags | src/util/geo/Collection.h:27-33 | each constructor sets its own tag, 0 to 6, and stores its payload as the geometry's view |
| Collections.DifferentTagsUnequal | src/util/geo/Collection.h:58 | geometries with different tags are never equal |
| Collections.EqualIsView | src/util/geo/Collection.h:56-69 | equality compares only the payload the tag selects, recursively through collections |
| Collections.EqualReflexive | src/util/geo/Collection.h:56-69 | every geometry equals itself |
| Collections.EqualSymmetric | src/util/geo/Collection.h:56-69 | equality is symmetric |
| Inversions.Merge | src/util/Misc.h:274-311 | merging two sorted lists gives a sorted permutation of both and counts exactly their strict cross inversions |
| Inversions.MergeRange | src/util/Misc.h:274-311 | merging the sorted halves of `lst[l..r]` sorts that range, leaves the rest alone and counts the cross inversions |
| Inversions.MergeInvCount | src/util/Misc.h:313-326 | the range is sorted in place and the count is its number of inversions |
| Inversions.Inversions | src/util/Misc.h:329-346 | the result is the number of pairs i < j with `v[i] > v[j]` |
| Inversions.SmallInversions | src/util/Misc.h:331-335 | the unrolled cases for sizes below 4 agree with the inversion count |
| Inversions.SortedNoInversions | src/util/tests/TestMain.cpp:1011-1012 | ascending input has no inversions |
| Inversions.DescendingAllInversions | src/util/tests/TestMain.cpp:1014-1015 | strictly descending input of length n has n(n-1)/2 inversions |
| Inversions.ToInt32 | src/util/Misc.h:275 | the conversion to `int` lands in the 32-bit range and agrees with the count modulo 2^32 |
| Inversions.TruncationCounterexample | src/util/Misc.h:275-326 | for 65536 ones followed by 65536 zeros there are 2^32 inversions, but the code as written returns 0 |
| Inversions.AsWrittenUnfold | src/util/Misc.h:313-326 | the code as written adds the two recursive counts and the truncated merge count |
| Misc.GetSetSame | src/util/Misc.h:230-236 | `get` after `set` at the same key returns the value set |
| Misc.GetSetOther | src/util/Misc.h:230-236 | `set` does not change `get` at any other key |
| Misc.GetAfterWrites | src/util/Misc.h:227-242 | after any sequence of `set`s, `get` returns the last value written to the key, or the default when there is none |
| Misc.FactorialIsMathFactorial | src/util/Misc.cpp:27-30 | `factorial(n)` is n! modulo 2^64 |
| Misc.FactorialExact | src/util/Misc.cpp:27-30 | up to 20 there is no wrap-around: `factorial(n) = n!` and `factorial(n) = n·factorial(n−1)` |
| Misc.AtoulIsDecimal | src/util/Misc.cpp:33-41 | on a digit string `atoul` is its decimal value modulo 2^64 |
| Misc.AtoulAppend | src/util/Misc.cpp:36-38 | appending a digit multiplies by ten and adds the digit |
| Misc.Atoul | src/util/Misc.cpp:33-41 | the loop reads up to the first NUL and computes the decimal value modulo 2^64 |
| Misc.TrimZerosShape | src/util/Misc.cpp:60-66 | the result is a prefix; only zeros and at most the dot are cut; a string without a dot is unchanged |
| Misc.TrimZerosIdempotent | src/util/Misc.cpp:60-66 | trimming twice is trimming once |
| Misc.TrimFraction | src/util/Misc.cpp:62-64 | trailing zeros after a fraction digit are removed |
| Misc.TrimWhole | src/util/Misc.cpp:62-63 | when only zeros follow the dot, the dot goes too |
| Misc.TrimZerosKeeps | src/util/tests/TestMain.cpp:1018-1019 | `15.564` and `16` are unchanged |
| Misc.TrimZerosWholeExamples | src/util/tests/TestMain.cpp:1020-1023 | `15.0000000000` gives `15`, `0.0000000000` gives `0`, `-1.0000000000` gives `-1` |
| Misc.TrimZerosFractionExamples | src/util/tests/TestMain.cpp:1021-1024 | `15.0100000000` gives `15.01`, `-15.0000010000` gives `-15.000001` |
| Misc.RgbToHexBytes | src/util/Misc.cpp:318-322 | for components in 0..255 the result has six hex digits, two per component, in r, g, b order |
| Misc.NormHtmlColor | src/util/Misc.cpp:300-304 | a name found, ignoring case, in the table gives its table value; any other input is returned unchanged |
| Misc.NormCaseInsensitive | src/util/Misc.cpp:301 | two spellings that differ only in case give the same colour, unless the name is unknown and each spelling is returned as written |
| Misc.NormExample | src/util/Misc.h:70 | `AliceBlue` gives `F0F8FF` |
| CStrings.CLength | src/util/Misc.cpp:36 | the length is the position of the first NUL, or the whole string when there is none |
| CStrings.HexOfRoundTrip | src/pfaedle/router/TripCache.cpp:77 | the lowercase hex digits of n read back as n |
| CStrings.ZeroPadValue | src/pfaedle/router/TripCache.cpp:77-78 | left padding with `0` keeps the hex value |
| CStrings.StrLessTransitive | src/pfaedle/router/TripCache.cpp:648 | `std::string` `<` is transitive |
| CStrings.StrLessTotal | src/pfaedle/router/TripCache.cpp:648 | of two different strings one is smaller |
| Bytes.LittleEndianRoundTrip | src/pfaedle/router/TripCache.cpp:370-378 | reading the little-endian bytes of a value that fits gives the value |
| Bytes.FromLittleEndianRoundTrip | src/pfaedle/router/TripCache.cpp:477-481 | writing back the value read from a byte string gives the same bytes |
| Bytes.DecodeEncode | src/pfaedle/router/TripCache.cpp:408-413 | the 4- and 8-byte integer fields round-trip |
| TripKeys.PackCoordRoundTrip | src/pfaedle/router/TripCache.cpp:70-73 | latitude is the high 32 bits and longitude the low 32 bits, both two's complement, and both read back |
| TripKeys.PackCoordInjective | src/pfaedle/router/TripCache.cpp:70-73 | distinct coordinates pack to distinct words |
| TripKeys.ToHexFacts | src/pfaedle/router/TripCache.cpp:75-80 | exactly 16 lowercase hex digits whose value is the input |
| TripKeys.DigestToHexFacts | src/pfaedle/router/TripCache.cpp:82-84 | 32 characters: the hex of `hi`, then the hex of `lo` |
| TripKeys.MotSetKeyOrderFree | src/pfaedle/router/TripCache.cpp:51-62 | permuting the modes does not change the key |
| TripKeys.MotSetKeyShape | src/pfaedle/router/TripCache.cpp:57-60 | no modes give the empty key; one mode gives its decimal number |
| TripKeys.MotSetKeyOfSorted | src/pfaedle/router/TripCache.cpp:51-62 | the key is the comma-joined decimal list of the modes in ascending order |
| TripKeys.DeriveSeed | src/pfaedle/router/TripCache.cpp:800-829 | the seed is never 0 |
| TripKeys.MixComponentOfDigest | src/pfaedle/router/TripCache.cpp:802-817 | for a 32-digit fingerprint the component is the top 32 bits of `hi` xor the bottom 32 bits of `lo` |
| TripKeys.MixComponentEight | src/pfaedle/router/TripCache.cpp:806-816 | an 8-digit string is read twice and xors to 0 |
| Paths.JoinPathJunction | src/pfaedle/router/TripCache.cpp:95-102 | an empty side gives the other side; otherwise the two parts are joined with exactly one `/` |
| Paths.LastSlash | src/pfaedle/router/TripCache.cpp:106-107 | the position of the last `/`, or -1 when there is none |
| Paths.ParentOfJoin | src/pfaedle/router/TripCache.cpp:104-110 | the parent of a directory joined with a plain name is the directory |
| Paths.EntryPathShape | src/pfaedle/router/TripCache.cpp:348-352 | the root is `baseDir/trip-cache/v3/graph/params`; an entry is `root/<first two chars>/<key>.bin` for keys of two or more characters and `root/<key>.bin` otherwise; its parent is the shard directory |
| EdgeIndex.BuildIndexBuckets | src/pfaedle/router/TripCache.cpp:225-243 | the bucket of a hash lists, in graph order, the edges whose forward or reverse hash it is |
| EdgeIndex.HashingToOnce | src/pfaedle/router/TripCache.cpp:237-240 | a palindromic edge is not pushed twice: no edge occurs in a bucket more often than in the graph |
| EdgeIndex.ResolveFirst | src/pfaedle/router/TripCache.cpp:342-346 | `resolveEdge` returns the first edge of the bucket, or none for an empty bucket |
| EntryFormat.EntryHeader | src/pfaedle/router/TripCache.cpp:477-481 | an entry starts with the magic `PFC3`, the version 3 and the hop count |
| EntryFormat.ReadWriteEntry | src/pfaedle/router/TripCache.cpp:354-532 | reading a written entry gives the hops back; points are kept only where there is no start or end edge |
| EntryFormat.ReadHopsThen | src/pfaedle/router/TripCache.cpp:383-467 | reading hop by hop returns every written hop |
| EntryFormat.ReadHeadThen | src/pfaedle/router/TripCache.cpp:384-410 | the flags, progress values, optional points and edge count read back as written |
| EntryFormat.TakePointThen | src/pfaedle/router/TripCache.cpp:398-406 | a point is read iff its presence flag is set, and is (0,0) otherwise |
| EntryFormat.ReadEdgesThen | src/pfaedle/router/TripCache.cpp:412-426 | edge hashes that all resolve read back as the written edges |
| EntryFormat.ReadHopThen | src/pfaedle/router/TripCache.cpp:383-466 | a hop whose hashes resolve reads back in canonical form, followed by the rest of the bytes |
| Pruning.OlderTransitive | src/pfaedle/router/TripCache.cpp:646-650 | the (mtime, path) order is transitive |
| Pruning.OlderTotal | src/pfaedle/router/TripCache.cpp:646-650 | two entries are ordered unless they have the same mtime and path |
| Pruning.InsertOldestFirst | src/pfaedle/router/TripCache.cpp:646-650 | inserting into an oldest-first list keeps it oldest-first |
| Pruning.SortEntries | src/pfaedle/router/TripCache.cpp:646-650 | the result is oldest-first and a permutation of the listing |
| Pruning.RemovableMembers | src/pfaedle/router/TripCache.cpp:654 | an entry is a removal candidate iff it is listed and its removal succeeds |
| Pruning.EvictPrefix | src/pfaedle/router/TripCache.cpp:652-661 | the evicted entries are the removable ones of a prefix; stopping early means the total fits |
| Pruning.EvictTotal | src/pfaedle/router/TripCache.cpp:652-663 | the final total is the start total minus the evicted sizes, modulo 2^64 |
| Pruning.EvictOldestFirst | src/pfaedle/router/TripCache.cpp:652-661 | no removable entry kept is older than one evicted |
| Pruning.Prune | src/pfaedle/router/TripCache.cpp:634-635 | with no limit or within the limit nothing is evicted and the byte count is kept |
| Pruning.PruneMembers | src/pfaedle/router/TripCache.cpp:634-664 | only listed, removable files are evicted |
| Pruning.PruneTotal | src/pfaedle/router/TripCache.cpp:634-664 | the new byte count is the walked total minus the evicted sizes |
| Pruning.PruneFits | src/pfaedle/router/TripCache.cpp:634-664 | afterwards the total fits the limit, or every removable file was evicted |
| Pruning.PruneOldestFirst | src/pfaedle/router/TripCache.cpp:634-664 | eviction goes in ascending (mtime, path) order |
| TripCacheState.Open | src/pfaedle/router/TripCache.cpp:194-223 | enabled iff requested, with a graph, both fingerprints and the root directory; then the root, edge index and byte count are set; counters start at 0 |
| TripCacheState.Lookup | src/pfaedle/router/TripCache.cpp:534-586 | a disabled cache misses; on an enabled cache a lookup hits exactly when the key's entry file exists and decodes, and the hops handed back are the decoded entry; a hit bumps hits and bytes read and touches the entry, which keeps its old time when `utime` fails; a miss bumps misses; no file is created and no file's bytes change |
| TripCacheState.LookupMissing | src/pfaedle/router/TripCache.cpp:539-550 | without a file only `misses` grows |
| TripCacheState.LookupCorrupt | src/pfaedle/router/TripCache.cpp:552-570 | an unreadable entry counts an error and a miss and is deleted when removal succeeds |
| TripCacheState.Written | src/pfaedle/router/TripCache.cpp:605-614 | the new file holds the bytes and no other file changes; stores grows by one, bytes written and the running byte count by the entry's size, and no other counter moves |
| TripCacheState.Store | src/pfaedle/router/TripCache.cpp:588-616 | only the entry's own path can appear, a file newly at that path holds a prefix of the encoded entry, and no existing file's contents change |
| TripCacheState.StoreExisting | src/pfaedle/router/TripCache.cpp:593-597 | storing an existing key only bumps `storeSkipped` and touches the entry, which keeps its old time when `utime` fails; no other file changes |
| TripCacheState.StoreFailure | src/pfaedle/router/TripCache.cpp:599-608 | a failed directory creation, or a write whose stream does not open, only bumps `errors` |
| TripCacheState.StoreCutShort | src/pfaedle/router/TripCache.cpp:472-475 | a write that fails after the truncating open bumps only `errors`, but leaves a file at the entry path holding a prefix of the encoded entry, stamped `now` and not added to the running byte count |
| TripCacheState.StoreAfterCutShort | src/pfaedle/router/TripCache.cpp:593-608 | storing the key again after such a failure finds the truncated file and only counts `storeSkipped`: the file is never rewritten |
| TripCacheState.StoreThenLookup | src/pfaedle/tests/TestMain.cpp:378-390 | a lookup after a successful store returns the stored hops, and counts one store and one hit |
| TripCacheState.Remove | src/pfaedle/router/TripCache.cpp:618-632 | on an enabled cache whose entry file exists and can be removed, exactly that file goes and the running byte count drops by its size unless it is smaller than that size; otherwise nothing changes; counters are never touched |
| TripCacheState.Without | src/pfaedle/router/TripCache.cpp:654-655 | exactly the evicted paths are removed from the file map |
| TripCacheState.PruneCacheWithinBudget | src/pfaedle/router/TripCache.cpp:635 | with no limit or within it, pruning changes nothing |
| TripCacheState.PruneCacheOldestFirst | src/pfaedle/router/TripCache.cpp:634-664 | no removable file kept is older than a file evicted |
| RouterStats.ZeroIdentity | src/pfaedle/router/Stats.h:17-19 | `Stats()` is the identity of `+` on both sides |
| RouterStats.AddComponentwise | src/pfaedle/router/Stats.h:28-37 | every counter adds modulo 2^64 and the solve times add |
| RouterStats.AddCommutes | src/pfaedle/router/Stats.h:28-37 | `a + b` and `b + a` are the same record, counters and solve time |
| RouterStats.AddAssociates | src/pfaedle/router/Stats.h:28-37 | the counters of `(a + b) + c` and `a + (b + c)` agree |
| RouterStats.Accumulate | src/pfaedle/router/Stats.h:39-42 | summing with `+=` from `Stats()` gives each counter's exact sum modulo 2^64 and the total solve time |
| Bench.CompareReports | bench/compare_reports.py:9-11 | exit code 2 with no output iff there are not exactly two arguments; output is printed iff the exit code is 0 |
| Bench.CompareSucceeds | bench/compare_reports.py:23-29 | with two arguments the script succeeds iff every selected value it subtracts is present and numeric, and prints the reference report; otherwise it exits with 1 and prints nothing |
| Bench.ReportFromOk | bench/compare_reports.py:24-29 | the loop succeeds iff the remaining selectors are comparable, and then builds the reference report |
| Bench.ExpectedKeys | bench/compare_reports.py:24-29 | the report's keys are exactly the labels of the selectors both documents have a value for, in selector order |
| Bench.ExpectedOrder | bench/compare_reports.py:17-24 | the report's keys appear in the order of the three selectors |
| Bench.ExpectedMembers | bench/compare_reports.py:25-28 | a `section.key` label is in the report iff both documents have a non-null value for it; a missing section counts as empty |
| Bench.ExpectedLabelsOnly | bench/compare_reports.py:24-29 | every key of the report is the `section.key` label of one of the three selectors |
| Bench.ExpectedEntries | bench/compare_reports.py:29 | each entry copies the two values unchanged and its delta is candidate minus baseline |
| Bench.ComputeQuality | bench/compute_quality.py:10-24 | exit 2 with no output iff there is no argument; exit 0 iff the verdict is ok; a failure has a non-empty missing list and exit 1 |
| Bench.MissingOfObject | bench/compute_quality.py:18-19 | for an object, `missing` lists exactly the absent required keys, in required order, and is empty iff all are present |
| Bench.QualityOfObject | bench/compute_quality.py:19-24 | for an object the script passes iff every required key is present, and otherwise reports exactly the missing ones with exit 1 |
| Bench.QualityIgnoresSections | bench/compute_quality.py:19 | the contents of the sections do not affect the verdict |
| Bench.QualityIgnoresExtraArguments | bench/compute_quality.py:10-14 | arguments after the first are ignored |
| Bench.QualityRaises | bench/compute_quality.py:19 | a null, boolean or number document raises, giving exit 1 and no output |

## Left out

- Floating point is not modelled:
  - coordinates are integers and polygon areas are kept doubled;
  - the solve time is a real;
  - the progress values and points in cache entries are opaque 8-byte blobs;
  - `dist`, `distToSegment`, `innerProd` and `doubleEq` in `Geo.cpp` are pure floating-point arithmetic.
  - the bench scripts' deltas are exact real differences. Python's float subtraction rounds (`0.3 - 0.1` gives `0.19999999999999998`), and the `NaN` and `Infinity` values that `json.load` accepts are not part of the JSON datatype.
- The `atan2` angles of `XSortedTuple` are left out: the quantised `int16` angle is an oracle parameter of `XSortedLine`.
- The `LineSegment` sweep comparator (`Line.h`:188-257) is left out. It decides by double cross products.
- `XSortedRing` tuple construction is left out. `XSortedPolygon` keeps its rings as oriented point sequences.
- Polygons.BoxOf: `Box.h` is not part of this model. The box is taken to be the exact bounding box, which is what `extendBox` gives from an empty box.
- `Point.h` and `String.h` are not part of this model: points compare field-wise, and `toLower` is ASCII lower-casing.
- DE9IM.SetTo takes a two-bit value. The source accepts any `uint16_t`, and a larger value would spill into the next cell; no caller passes one.
- RouterStats.AddAssociates covers only the counters. Double addition of the solve time is not associative under rounding, which the model does not track.
- File and OS I/O:
  - the outcomes of `mkdir`, `utime` and `remove` are boolean parameters of the operations that call them (`dirOk`, `touchOk`, `removeOk`); the write's outcome is the parameter `write` (the stream did not open, every byte and the close succeeded, or it failed after the open with some number of bytes on disk); the clock is the parameter `now`;
  - the order of the directory walk is an unspecified choice;
  - readEntry's "open failed" path, for a file that exists but cannot be opened, is not modelled.
- The JSON loading and printing of the bench scripts is left out. Documents are a JSON datatype and the output is an optional value.
- Concurrency is left out: the mutex, the atomic counters and the sampled logging.
- MurmurHash3 is left out: edge hashes and fingerprints are inputs.
- The non-core helpers named in the source are not modelled:
  - `canonicalPath`, `quantizeCoord` and `fingerprintToHex`;
  - `externalSort`, `readAll` and the other I/O helpers of `Misc`.
- TripKeys.DeriveSeed reads hex as a run of leading hex digits. The `std::hex` extraction's handling of leading white space, a sign or a `0x` prefix is not modelled; fingerprints are plain hex digits.
- Host byte order is taken to be little-endian.
- Paths.EntryPathShape fixes the version directory as `v3`, from `kTripCacheVersion`.
- Paths.EntryPathShape does not claim injectivity of entry paths; keys containing `/` are excluded from that lemma.
- Byte counts beyond 2^64 wrap, as in the source; no lemma claims they cannot.
- EntryFormat.ReadEntry: `out.reserve(hopCount)` and `edges.reserve(edgeCount)` (TripCache.cpp:381 and :413) allocate for counts read from the file before any hop is read. A corrupt count near 2^32 can make them throw `std::bad_alloc` or `std::length_error` out of `lookup`. The model has no allocation failure, so such a file reads as `Err`, and TripCacheState.LookupCorrupt counts it as an error and a miss.
- Polygons.GetFirstInner: coordinates are unbounded integers. The `int` subtractions `p.getX() - getInnerMaxSegLen()` (Polygon.h:452) and `ur.x - ll.x` for the box width (Polygon.h:393-396) are taken not to overflow. Only the comparison with `std::numeric_limits<T>::max()` fixes `T` as a 32-bit `int`.
- Sorting.SortBy: the insertion sort picks one of the orders `std::sort` may produce. Tuples that tie under the sweep order (the `std::sort` at Line.h:380) may end up in another order in the source. The contracts claim only sortedness and permutation, which hold for every outcome.
- Misc.Atoul: each character contributes its code point minus `'0'`. The source reads a `char`, which may be signed, so a byte of 0x80 or above contributes a value 256 lower, modulo 2^64. Digit strings, which the decimal contract is about, are unaffected.
- The printed output of `compare_reports.py` is the report value; JSON number formatting (an integer delta printed as `5` or `5.0`) is not modelled.

## Findings

| source | as written | input that shows it | evidently intended | confidence | as-written member | corrected member |
|---|---|---|---|---|---|---|
| src/util/Misc.h:275 | `merge` counts in a `size_t` but returns `int`, so one merge step that counts 2^31 or more inversions is truncated | 65536 ones followed by 65536 zeros: the final merge counts 2^32 inversions, which truncate to 0, so `inversions` returns 0 | `merge` returns `size_t`, so `inversions` returns the true count | not executed | Inversions.TruncationCounterexample | Inversions.Inversions |
