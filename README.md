# QC2C: coordinate-to-country lookup, modelled in Dafny

QC2C answers "which country is this coordinate in?" offline and in two steps. A world manifest
maps sector keys to bounding boxes `[lat_min, lng_min, lat_max, lng_max]`. The first box that holds
the coordinate, bounds inclusive, names a sector file. That file maps country codes to polygon rings.
The first ring whose even-odd ray-casting test holds the point `[lat, lng]` names the country. The
lookup ships as a Python package and as JavaScript/TypeScript packages. The sector files come from a
preprocessing pipeline:

- stage 1 builds the sector grid and assigns every country polygon, with its coordinates swapped
  to (lat, lng), to every sector whose box it meets;
- stage 1 then greedily merges each country's polygons, pairwise, as long as the merged shape
  stays clear of all other countries;
- stage 2 deletes ring vertices, one at a time, as long as the smaller ring still covers the
  original and stays clear of the other countries.

The model covers the lookup functions of all three packages and the control logic of the
preprocessing: loop order, which pair or vertex is touched, what is left alone, termination and
the state on exit. Planar geometry comes from a library (shapely), so it is opaque.
`Shapes.Geometry<S>` bundles its constructors, predicates and operations as function values over an
opaque shape type `S`. Every preprocessing operation takes one as a parameter, so every property
holds for any geometry. The same applies to the inside test of the JS/TS packages, which comes
from the npm `point-in-polygon` library and is a parameter `inside`.

Modules:

- `Common`: points, rings, `LatLng`, the `{name: ring}` feature, `Option`, and `Result` for the
  Python exceptions (`ValueError`, `ZeroDivisionError`).
- `Seqs`: `RemoveAt` (`list.pop(i)`) and the subsequence relation.
- `PyLookup` (packages/python/qc2c/core.py): `get_sector`, `point_in_polygon`, `get_country`.
- `WebLookup` (packages/typescript/src/index.ts and packages/javascript/src/index.js):
  `getSector` and `getCountry`. The two files have the same loops and the same tests, so one model
  serves both.
- `Shapes`: the opaque geometry.
- `SectorGrid` (main.py): `get_sector_grid`, `map_polygons_to_sectors` and
  `remove_country_from_map`. The last is a module-level method that takes a `FeatureList` object
  and overwrites its items in place.
- `PolygonMerge` (main.py): `merge_polygons` and `simplify_polygons`.
- `VertexReduce` (workflow/scripts/stage_2/main.py): `reduce_polygon_points` and the loop of
  `simplify_sector`.

The loops that build up state are Dafny methods with loop invariants. Each is proved equal to a
recursive specification function: `PointInPolygon` to `Inside`, `MapPolygonsToSectors` to
`Assigned`, `MergePolygons` to `MergeAll`, `SimplifyPolygons` to `Results`, `ReducePolygonPoints` to
`Reduce`, and `SimplifySector` to `SectorAfter`. `GetSectorGrid` states its result directly.
`RemoveCountryFromMap` states the object's new items as `WithoutCountry` of the old ones.

The early-return searches of the lookups (`GetSectorFrom`, `GetCountryFrom`, `FindFrom`) and the
list comprehensions (`Select`, `WithoutCountry`, `ForeignRings`) are recursive functions. Lemmas
tie each one to the first-match or membership property it implements. The properties the code
promises are lemmas about all of these functions.

Python's `(i - 1) % n` agrees with Dafny's Euclidean `%` for the indices used (`PreviousIndex`).
Coordinates are `real` and `1e-15` is an exact real constant.

## Model

| member | source | states |
|---|---|---|
| Seqs.RemoveAt | workflow/scripts/stage_2/main.py:28-29 | `pop(i)` shortens the list by one; elements before i stay, elements after i shift down by one |
| PyLookup.GetSectorFrom | packages/python/qc2c/core.py:20-24 | the loop from entry k can fail only with ValueError, from a box that does not unpack into four values |
| PyLookup.GetSector | packages/python/qc2c/core.py:4-24 | get_sector can raise only ValueError |
| PyLookup.GetSectorFromFirstMatch | packages/python/qc2c/core.py:20-24 | the scan from entry k returns the first entry that is not a miss: its key when its box holds the coordinate, ValueError when its box does not have four values, None exactly when every entry is a miss |
| PyLookup.GetSectorFirstMatch | packages/python/qc2c/core.py:17-24 | get_sector returns the key of the first box, in manifest order, that holds the coordinate with inclusive bounds; it returns None iff every box unpacks and none holds the coordinate; it raises ValueError at the first box that does not unpack |
| PyLookup.GetSectorKeyHolds | packages/python/qc2c/core.py:20-23 | any key returned names a manifest entry whose four-value box holds the coordinate |
| PyLookup.GetSectorNeverRaises | packages/python/qc2c/core.py:21 | when every box has four values, get_sector does not raise |
| PyLookup.GetSectorExamples | packages/python/tests/test.py:15-24 | (3,3) gives "sector1", (7,7) gives "sector2" and (11,11) gives None on the test manifest |
| PyLookup.Inside | packages/python/qc2c/core.py:38-52 | point_in_polygon can raise only ZeroDivisionError; PointInPolygon and the lemmas below state its result |
| PyLookup.PreviousIndex | packages/python/qc2c/core.py:43 | `(i - 1) % n` is i - 1, or n - 1 for i = 0 |
| PyLookup.Edges | packages/python/qc2c/core.py:42-45 | the loop tests one edge per vertex |
| PyLookup.EdgeRaises | packages/python/qc2c/core.py:47-49 | an edge that straddles the point's height with divisor `yj - yi + 1e-15` equal to zero makes the call raise ZeroDivisionError |
| PyLookup.PointInPolygon | packages/python/qc2c/core.py:38-52 | the toggling loop returns the parity of the number of crossing edges (i, (i-1) mod n), and raises ZeroDivisionError when an edge test divides by zero |
| PyLookup.EmptyPolygonOutside | packages/python/qc2c/core.py:39-52 | an empty polygon gives False |
| PyLookup.NoStraddleNoCrossing | packages/python/qc2c/core.py:47 | edges that do not straddle the point's height neither cross nor raise |
| PyLookup.OutsideVerticalRange | packages/python/qc2c/core.py:47 | a point at or above every vertex, or below every vertex, is outside and the call does not raise |
| PyLookup.EdgeRotateAt | packages/python/qc2c/core.py:42-45 | edge i of a rotated ring is edge i + k (mod n) of the original |
| PyLookup.EdgesRotate | packages/python/qc2c/core.py:42-45 | rotating the vertex list rotates the list of edges the loop visits |
| PyLookup.InsideRotationInvariant | packages/python/qc2c/core.py:42-51 | the result, error included, does not depend on which vertex the ring starts at |
| PyLookup.SquareHolds | packages/python/qc2c/core.py:42-51 | an axis-aligned square of side at least 1 holds every point strictly inside it |
| PyLookup.PointInPolygonExamples | packages/python/tests/test.py:7-13 | [1,1] is inside and [3,3] outside the test square |
| PyLookup.GetCountryFrom | packages/python/qc2c/core.py:70-73 | the loop from country k can fail only with the ring test's ZeroDivisionError |
| PyLookup.GetCountry | packages/python/qc2c/core.py:55-73 | get_country can raise only ZeroDivisionError |
| PyLookup.GetCountryFromFirstMatch | packages/python/qc2c/core.py:70-73 | the scan from country k returns the first ring that does not leave the point outside: its key when the ring holds the point, the ring test's error when it raises, None exactly when every ring leaves the point outside |
| PyLookup.GetCountryFirstMatch | packages/python/qc2c/core.py:68-73 | get_country tests `[lat, lng]` and returns the first key whose ring holds it; it returns None iff every ring leaves it outside; it propagates ZeroDivisionError from the first ring whose test raises |
| PyLookup.GetCountryFirstExample | packages/python/tests/test.py:26-36 | (2,2) gives "country1" |
| PyLookup.GetCountrySecondExample | packages/python/tests/test.py:26-37 | (7,7) gives "country2" |
| PyLookup.GetCountryNoneExample | packages/python/tests/test.py:26-38 | (11,11) gives None |
| WebLookup.FindFrom | packages/typescript/src/index.ts:20-72 | a key returned by the early-return entry loop belongs to an entry at or after k whose value passes the test |
| WebLookup.FindFromFirstMatch | packages/javascript/src/index.js:17-50 | the early-return entry loop of both getSector and getCountry returns null iff no entry from k on matches, and otherwise the key of the first matching entry |
| WebLookup.GetSector | packages/typescript/src/index.ts:25-42 | a returned key names a manifest entry whose bounds hold the coordinate inclusively |
| WebLookup.GetSectorFirstMatch | packages/typescript/src/index.ts:25-42 | getSector returns null iff no entry's bounds hold the coordinate inclusively; otherwise it returns the key of the first entry whose bounds do; bounds with fewer than four values never match |
| WebLookup.GetCountry | packages/typescript/src/index.ts:60-71 | a returned key names a sector entry whose polygon passes the inside test at `[lat, lng]` |
| WebLookup.GetCountryFirstMatch | packages/typescript/src/index.ts:60-71 | getCountry queries `[lat, lng]`; it returns null iff no polygon satisfies the inside test, and otherwise the first key whose polygon does |
| WebLookup.SectorAgreesWithPython | packages/typescript/src/index.ts:20-43 | whenever the Python get_sector returns without raising, getSector returns the same key or null; on a manifest of four-value boxes the two always agree |
| WebLookup.CountryAgreesWithPython | packages/javascript/src/index.js:42-50 | if the inside test agrees with the Python even-odd test at the query point, getCountry returns what get_country returns whenever the latter does not raise |
| WebLookup.GetSectorExamples | packages/javascript/src/index.js:17-30 | the Python test cases give the same answers, and a three-value box never matches |
| SectorGrid.GetSectorGrid | main.py:10-16 | one sector per manifest key, in order, whose geometry is the box of its four values; ValueError iff some value list does not have four entries |
| SectorGrid.Swap | main.py:54 | the swapped ring has as many vertices as the original |
| SectorGrid.SwapMembers | main.py:54 | (x, y) is a vertex of the ring iff (y, x) is a vertex of the swapped ring |
| SectorGrid.Hits | main.py:56-61 | definition of the test `poly_shape.intersects(sector_shape)` on the swapped ring; ContributionMembers and AssignedMembers state what it decides |
| SectorGrid.Assigned | main.py:49-65 | definition of the list of an id after every polygon: the concatenation, polygon by polygon, of the inner loop's appends; MapPolygonsToSectors, AssignedMembers and AssignedIsIntersecting state its content |
| SectorGrid.SwapTwice | main.py:54-65 | swapping the coordinates of a ring twice gives back the ring |
| SectorGrid.MapPolygonsToSectors | main.py:46-67 | the result has a list for exactly the sector ids; the list of each id is the in-order concatenation, over the polygons, of a swapped copy for every sector with that id whose box the swapped shape meets |
| SectorGrid.ContributionPrefix | main.py:58-65 | with distinct ids, the inner loop appends to the list of sector k at most once per polygon: exactly when the polygon hits k |
| SectorGrid.AssignedIsIntersecting | main.py:49-65 | with distinct ids, the list of sector k is exactly the swapped copies of the polygons whose swapped shape meets k's box, whole and in input order |
| SectorGrid.ContributionMembers | main.py:58-65 | one polygon's contribution to a list holds its swapped copy iff some sector with that id is hit |
| SectorGrid.AssignedMembers | main.py:49-65 | a feature is in the list of an id iff it is the swapped copy of an input polygon that hits a sector with that id |
| SectorGrid.AssignedHasHit | main.py:49-65 | every entry of a list comes from a polygon that hit a sector with that id |
| SectorGrid.HitIsAssigned | main.py:49-65 | a polygon that hits a sector is in that sector's list |
| SectorGrid.FeatureList.constructor | main.py:154 | the list object holds the given items |
| SectorGrid.WithoutCountry | main.py:155 | the filtered list is no longer than the input and holds no item of the country |
| SectorGrid.WithoutCountrySpec | main.py:155 | an item is kept iff it is of another country; the result is a subsequence of the input in original order; a list without the country is left unchanged |
| SectorGrid.WithoutCountryCounts | main.py:155 | every item of another country occurs in the filtered list exactly as many times as in the input |
| SectorGrid.RemoveCountryFromMap | main.py:154-156 | the same list object is returned, its items replaced by the filtered items |
| SectorGrid.RemoveTwice | main.py:155 | removing a country twice equals removing it once |
| SectorGrid.RemoveAppend | main.py:180-182 | removal distributes over list concatenation (`extend`) |
| PolygonMerge.MergeShape | main.py:86-90 | definition of the candidate shape: the simplified convex hull of the union of the pair; MergeAt and the FirstPair lemmas state where it goes |
| PolygonMerge.Mergeable | main.py:93-98 | definition of the merge test: the candidate shape intersects no rest polygon; FirstPairSpec and MergeAllFixpoint state how the passes use it |
| PolygonMerge.FirstPairFrom | main.py:83-84 | the nested scan returns only index pairs i < j within the list |
| PolygonMerge.FirstPairFromSpec | main.py:83-104 | the scan from (i, j) finds the first mergeable pair at or after (i, j) in row-major order, and finds nothing iff no pair from (i, j) on is mergeable |
| PolygonMerge.FirstPair | main.py:83-84 | a found pair is an index pair i < j within the list |
| PolygonMerge.FirstPairSpec | main.py:83-108 | the pair a pass finds is mergeable and no pair before it is; a pass finds none iff no pair of the list is mergeable |
| PolygonMerge.FirstPairIs | main.py:83-104 | a mergeable pair with nothing mergeable before it is the pair the pass merges |
| PolygonMerge.MergeAt | main.py:99-100 | a merge puts the merged shape at i, removes j, and keeps every other element and the order |
| PolygonMerge.MergeAll | main.py:78-112 | the passes never lengthen the list and keep a non-empty list non-empty |
| PolygonMerge.MergeAllFixpoint | main.py:110-112 | on return no pair i < j of the result can be merged clear of the rest polygons |
| PolygonMerge.MergeCount | main.py:78-112 | each merge shortens the list by exactly one |
| PolygonMerge.MergePolygons | main.py:70-119 | the pass loop returns MergeAll of the country's shapes, and for a non-empty input it always stops on a pass without a merge, never by running out of passes |
| PolygonMerge.MergeStep | main.py:98-104 | a merge at the found pair is the first step of MergeAll and shortens the list by one |
| PolygonMerge.FixpointStays | main.py:110-112 | a pass without a merge returns the list unchanged |
| PolygonMerge.MergeAllIdempotent | main.py:78-112 | merging the result again changes nothing |
| PolygonMerge.MergeCountBound | main.py:75-78 | at most n - 1 merges happen to n shapes, so n passes suffice |
| PolygonMerge.MergeWithoutRest | main.py:94-98 | with no rest polygons a non-empty list collapses to exactly one shape |
| PolygonMerge.PairsMergeWithoutRest | main.py:94-98 | with no rest polygons, every list of two or more shapes has a mergeable pair |
| PolygonMerge.MergeEmpty | main.py:72-78 | an empty input returns an empty list |
| PolygonMerge.Select | main.py:131-137 | a comprehension over the items yields at most one ring per item |
| PolygonMerge.RingsOf | main.py:131 | a country has at most one ring per item; RingsOfMembers states which |
| PolygonMerge.UnprocessedRest | main.py:133-134 | at most one ring per item, and none once `name` has been processed |
| PolygonMerge.ProcessedRest | main.py:136-137 | at most one ring per item, and none while `name` is unprocessed |
| PolygonMerge.RestIsOtherCountries | main.py:129-137 | where `name` is unprocessed, the two rest lists together are exactly the other countries' input rings, in input order; the `extend` adds nothing |
| PolygonMerge.RingsOfMembers | main.py:131 | a ring is collected for a country iff an input item of that country carries it |
| PolygonMerge.DistinctNames | main.py:125-144 | the processed names are exactly the input names, each once |
| PolygonMerge.DistinctNamesFirstAppearance | main.py:125-144 | the names come in order of first appearance: wherever a later name occurs, an earlier name has occurred before it |
| PolygonMerge.CountryResult | main.py:140-141 | a result entry is keyed by the country's name, has at most as many rings as the country had, and at least one when it had any |
| PolygonMerge.Results | main.py:140-141 | one result per name, in order, each the exteriors of the merge of that country's rings against all other countries' rings |
| PolygonMerge.SimplifyPolygons | main.py:122-145 | the loop returns the results of the distinct names in order of first appearance |
| VertexReduce.Accepts | workflow/scripts/stage_2/main.py:32-33 | definition of the test on a candidate: it intersects no other ring and still contains the original; ReduceFrom and ReduceSpec state how the loop uses it |
| VertexReduce.ReduceFrom | workflow/scripts/stage_2/main.py:27-37 | the loop from any state yields a subsequence of the ring; a ring of at most four vertices is kept, a longer one keeps at least four; a changed result passes the intersect/contains test; above four vertices, no single further removal passes it; termination by (length, length - i) |
| VertexReduce.Reduce | workflow/scripts/stage_2/main.py:20-38 | a reduction is an in-order subsequence of the ring; a ring of at most four vertices is unchanged and a longer one keeps at least four |
| VertexReduce.ReducePolygonPoints | workflow/scripts/stage_2/main.py:20-38 | the while loop over copies returns Reduce of the caller's ring, which is left as it is |
| VertexReduce.ReduceSpec | workflow/scripts/stage_2/main.py:20-38 | a reduction is an in-order subsequence; a ring of at most four vertices is unchanged and a longer one keeps at least four; a changed result avoids the other rings and contains the original; a result above four vertices has no removable vertex |
| VertexReduce.ReduceStable | workflow/scripts/stage_2/main.py:27-37 | a ring with no removable vertex is returned as it is |
| VertexReduce.ReduceAll | workflow/scripts/stage_2/main.py:61-62 | one reduced ring per ring of the country |
| VertexReduce.SectorAfter | workflow/scripts/stage_2/main.py:55-63 | after any number of visits, the keys, their order and each country's ring count are kept, and unvisited countries are unchanged |
| VertexReduce.SimplifySector | workflow/scripts/stage_2/main.py:55-63 | the loop leaves the sector in the state of SectorAfter after visiting every country |
| VertexReduce.ForeignRings | workflow/scripts/stage_2/main.py:58-59 | the rest polygons of a country are never more than all the rings of the sector; ForeignRingsOf states which |
| VertexReduce.ForeignRingsOf | workflow/scripts/stage_2/main.py:58-59 | with distinct keys, a country's rest polygons are the flattened rings of all entries before and after it, in order |
| VertexReduce.SectorAfterStable | workflow/scripts/stage_2/main.py:55-63 | once visited, a country's entry is never changed again |
| VertexReduce.SimplifySectorVisit | workflow/scripts/stage_2/main.py:55-63 | with distinct keys, each country is reduced against the already-reduced rings of earlier countries and the original rings of later ones; its ring count and order are kept and each ring is replaced by its reduction |

## Left out

- File and JSON I/O, directory copying, `save_sectors`, the scripts' `__main__` blocks, and the
  open/dump calls of `simplify_sector`. These are I/O.
- tqdm progress bars, timing and prints in `merge_polygons` (main.py:74-78, 114-116). They have
  no effect on the result.
- `get_map` (main.py:19-42): GeoJSON parsing and library simplification of floating-point geometry.
- `reduce_points` (workflow/scripts/stage_2/main.py:10-17): unused, and a wrapper over a library
  `difference`.
- The geometry itself: `Polygon`, `box`, `intersects`, `contains`, `unary_union`, `convex_hull`,
  `simplify`, `exterior`. These are opaque functions, and nothing is proved about their geometry.
  Errors the library raises (such as a `Polygon` built from too few points) are not modelled.
- The npm `point-in-polygon` library, which is not part of this model. It is the parameter `inside`.
- `coordinatesToCountry` in the JS/TS packages: `fetch` and promise plumbing.
- IEEE-754 rounding. Coordinates are exact reals, so the division-by-zero case is exactly
  `yj - yi = -1e-15`. The float comparisons and the `1e-15` guard are not analysed for rounding.
- PyLookup.GetCountry: each sector value is one ring, as the lookup code reads it and as the unit
  tests store it. Stage 1 writes a list of rings per country (main.py:141). The model does not
  relate the two formats.
- WebLookup.GetCountry: the same holds. Each sector value is passed to the inside test as one
  polygon (packages/typescript/src/index.ts:63-67), and the list-of-rings format is not modelled.
- WebLookup.SectorAgreesWithPython: the model gives JavaScript and Python the same entry order.
  `Object.entries` lists integer-like keys ("0", "1", ...) first, in ascending order, and then the
  other keys in insertion order. Python dicts keep insertion order. So for a manifest
  `{"1": b1, "0": b0}` whose boxes both hold the point, Python returns "1" and JavaScript "0". The
  lemma holds only for manifests without integer-like keys. The sector keys name the sector files
  (main.py:149-150), so they are not integer-like.
- WebLookup.CountryAgreesWithPython: the same ordering gap. The country keys are `ISO_A3` codes
  (main.py:26); the placeholder "-99" is negative, so it is not integer-like either.
- WebLookup.GetSector: a bounds value that is not iterable (a TypeError in JavaScript) is not
  modelled. Bounds are always lists of numbers.
- Duplicate keys: JSON objects and Python dicts cannot repeat a key, but the model's ordered
  `seq` of pairs can. Lemmas whose claim depends on distinct keys require it (`DistinctIds`,
  `DistinctKeys`).
- Single-entry dictionaries: each item of a country map is modelled as exactly one
  `(name, ring)` feature. An empty dictionary, for which `next(iter(...), None)` yields None, is
  not modelled.
- VertexReduce.ReducePolygonPoints: deep copies are implicit, because rings are values. Aliasing
  between the caller's list and the working copy cannot be expressed, and it cannot occur.
- PolygonMerge.MergePolygons: the merged list is a value that is reassigned, not a list mutated
  in place. The ghost result `stoppedOnFixpoint` records why the pass loop ended.
