# mundipy spatial caches and projection choice, in Dafny

This project models the algorithmic core of mundipy:

- `spatial_cache_footprint` memoises a function that returns `(result, footprint)`. A later call whose shape lies inside a stored footprint is answered from the cache. The list is newest first, bounded by `maxsize`, and counts hits and misses.
- `union_spatial_cache` memoises a function that returns the items found in a region. A call subtracts from the query the regions of earlier entries with the same `pcs`, largest first. It reuses their items, whole or filtered. It calls the wrapped function only on what is left, if anything is.
- `choose_pcs` picks a projected coordinate reference system from a catalog. It keeps the records with the requested axis unit, sorts them by ascending area, and takes the first whose area of use contains the box. With no match it falls back to World Mollweide for meters and raises `NoProjectionFoundError` for feet. `choose_pcs` is itself wrapped by the footprint cache.
- `suggest_pcs` returns up to `n` such records. `transform_epsg` turns a record into the descriptor handed to callers.

Geometry is abstract. A region is a finite set of grid cells:
- area is the number of cells;
- `contains` and `covers` are both the subset test on a non-empty argument, so shapely's boundary distinction between them is not drawn; as in shapely, nothing contains or covers an empty geometry;
- `intersects` means the sets share a cell;
- `intersection` and `difference` are the set operations;
- `buffer(0)` leaves a region unchanged.

Each decorator is a class. The wrapped function is a constant field of the class. The cache list (and the footprint cache's counters) are fields that `Call` updates. The coverage cache's loop is proved against `CoverageCache.Greedy`, a left fold of one loop pass (`CoverageCache.Visit`) over the candidates. The projection choice is a pure function of the catalog records. `suggest_pcs` is a method whose loop keeps `continue` and `break` as written. It is proved against a prefix of the filtered, sorted records.

Modules:
- `Wrappers`: Option and Result.
- `Geometry`: the cell-set regions.
- `Values`: the Python values the decorators inspect, the exceptions they raise, and list slicing.
- `Sorting`: Python's stable `sorted`.
- `Decimal`: `'%d'` formatting.
- `FootprintCache`, `CoverageCache` and `Pcs`: the three components.

Details of the code that the model keeps as written:
- The coverage cache keys a new entry by the whole query geometry, not by the remainder it fetched (`mundipy/cache/__init__.py:87`). See Findings.
- The coverage cache's list stays in insertion order (newest first). It is sorted by area afresh on each call (line 53), not kept sorted.
- The footprint cache's docstring calls it an LRU cache (line 102), but a hit leaves the list as it is (lines 133-137). Only a new entry goes to the front (line 149), so eviction drops the oldest stored entry, not the least recently used.
- The coverage loop has no early exit once nothing remains (lines 58-79). An empty remainder simply skips the remaining candidates as zero-overlap ones.
- A None shape in the footprint cache does not bypass the cache. It never hits, but it is counted as a miss. If the wrapped function then returns a footprint, the result is stored (lines 130-149).

The `choose_pcs` box message is used by `suggest_pcs` too, and names `choose_pcs` there (`mundipy/pcs/__init__.py:68`). The model keeps that wording.

## Model

| member | source | states |
|---|---|---|
| `Values.Prefix` | mundipy/cache/__init__.py:149 | `s[:k]`: a prefix of the list. Its length is `min(k, len)` for `k >= 0`, and `max(len + k, 0)` for a negative `k`. |
| `Values.PushFront` | mundipy/cache/__init__.py:87 | `[e] + s[:maxsize-1]` has `e` at index 0, followed by the first old entries in their order. For `maxsize >= 1` its length is `len + 1` while the list is shorter than `maxsize`, and exactly `maxsize` once it is full. For `maxsize <= 0` it is `1 + max(len + maxsize - 1, 0)`, as Python's negative slice gives. Nothing is evicted while the list is shorter than `maxsize`. |
| `Values.PushFrontMembers` | mundipy/cache/__init__.py:149 | After an insertion, every entry is the new one or was there before. |
| `Sorting.SortBy` | mundipy/pcs/__init__.py:42 | `sorted` keeps the length of its input; its other properties are the three lemmas below. |
| `Sorting.SortByPermutes` | mundipy/pcs/__init__.py:42 | `sorted` returns a permutation of its input (equal multisets). |
| `Sorting.SortByIsSorted` | mundipy/cache/__init__.py:53 | `sorted` orders by non-decreasing key. |
| `Sorting.SortByIsStable` | mundipy/pcs/__init__.py:42 | `sorted` is stable: the elements with any one key keep their relative order. |
| `Decimal.FormatInt` | mundipy/pcs/__init__.py:99 | `'%d' % n` is non-empty, starts with `-` exactly for a negative `n`, and is otherwise all decimal digits with no leading zero: the first digit is `0` only in the text `0` itself. |
| `Decimal.NatToDecimalLeading` | mundipy/pcs/__init__.py:99 | The decimal text of a natural number starts with `0` only when the number is zero, and is then the single digit. |
| `Decimal.ParseFormatInt` | mundipy/pcs/__init__.py:99 | `'%d' % n` loses nothing: the text parses back to `n`, negative numbers included. |
| `FootprintCache.ShapeArgument` | mundipy/cache/__init__.py:119-130 | The check fails exactly when the shape argument is missing (position 0, or 1 for a method) or is neither None nor a geometry. Otherwise it yields that argument's shape, or None. |
| `FootprintCache.FirstHit` | mundipy/cache/__init__.py:133-137 | The index found is the first entry whose footprint contains the shape. No earlier entry contains it. None means no entry contains it. |
| `FootprintCache.SmallerShapeHits` | mundipy/cache/__init__.py:133-135 | A shape contained in one that hits also hits, at the same entry or an earlier one. |
| `FootprintCache.HitAfterInsert` | mundipy/cache/__init__.py:149 | Right after an entry is stored, a shape inside its footprint hits it at index 0. |
| `FootprintCache.SpatialCacheFootprint.constructor` | mundipy/cache/__init__.py:107-113 | Creates an empty list, with hits and misses at 0. |
| `FootprintCache.SpatialCacheFootprint.Call` | mundipy/cache/__init__.py:115-151 | A bad shape argument raises TypeError and changes nothing. A hit returns the first containing entry's result, counts a hit and leaves the list as it is. Otherwise it counts a miss before calling `fn`, and passes on `fn`'s exception or None. It stores `(res, footprint)` at the front only when the footprint is not None. The list never exceeds `max(maxsize, 1)`. |
| `FootprintCache.CallTwice` | mundipy/cache/__init__.py:115-151 | Two identical calls give the same answer whenever `fn` honours its footprints. When the first stores an entry for a non-empty shape, the second is a hit. On an empty cache, the first call with a valid shape argument is a miss. |
| `CoverageCache.CallArguments` | mundipy/cache/__init__.py:37-48 | Raises TypeError for no arguments, or when the last argument is neither None nor a geometry. Otherwise it raises KeyError('pcs') exactly when `pcs` is neither a keyword nor a parameter default. On success, `pcs` comes from the keyword if given, else from the default. The geometry is the last argument. |
| `CoverageCache.Matching` | mundipy/cache/__init__.py:51 | Keeps exactly the entries with an equal `pcs` whose region intersects the query. |
| `CoverageCache.Candidates` | mundipy/cache/__init__.py:51-53 | The entries visited are as many as match, in non-increasing area. |
| `CoverageCache.CandidatesAreMatching` | mundipy/cache/__init__.py:51-53 | The visited entries are exactly the matching ones. Entries of equal area keep list order. |
| `CoverageCache.ItemsIntersecting` | mundipy/cache/__init__.py:74 | Keeps exactly the items that intersect the overlap. |
| `CoverageCache.FlattenAppend` | mundipy/cache/__init__.py:90 | Flattening the collected lists keeps their order: one more list appends its items at the end. |
| `CoverageCache.Visit` | mundipy/cache/__init__.py:61-79 | A loop pass removes the entry's region from the remainder, even when it skips the entry, since it skips only an entry disjoint from the remainder. It appends one list exactly when the entry meets the remainder, and keeps what was collected. |
| `CoverageCache.Greedy` | mundipy/cache/__init__.py:56-79 | The loop leaves a remainder inside the query and collects at most one list per candidate. |
| `CoverageCache.Lookup` | mundipy/cache/__init__.py:50-79 | The region left to fetch is the query minus the union of the regions of the entries with its `pcs` that meet it. |
| `CoverageCache.GreedyRemainder` | mundipy/cache/__init__.py:56-79 | After the loop, `remaining` is the query minus the union of all candidates' regions, whatever their order, skipped ones included. |
| `CoverageCache.ContainedQueryNeedsNoFetch` | mundipy/cache/__init__.py:51-82 | A query inside a stored region with the same `pcs` leaves nothing to fetch. |
| `CoverageCache.Query` | mundipy/cache/__init__.py:50-90 | As written: with nothing left to fetch the list is unchanged. Otherwise the wrapped function's answer for the remainder ends the result, and a new entry for it goes to the front keyed by the whole query, followed by the older entries in order. |
| `CoverageCache.QueryCorrected` | mundipy/cache/__init__.py:50-90 | The corrected call: as `Query`, but the new entry is keyed by the remainder its items were fetched for. |
| `CoverageCache.VisitSound` | mundipy/cache/__init__.py:61-79 | One loop pass keeps `remaining` inside the query. Everything collected stays items that meet the query. |
| `CoverageCache.VisitComplete` | mundipy/cache/__init__.py:61-79 | One loop pass loses no item: an item meeting the old remainder is collected or meets the new one. |
| `CoverageCache.GreedySound` | mundipy/cache/__init__.py:58-79 | Whenever every entry's items meet its region, every reused item meets the query. |
| `CoverageCache.GreedyComplete` | mundipy/cache/__init__.py:58-79 | Whenever every entry holds all the world's items meeting its region, each such item meeting the query is either reused or meets the remainder left to fetch. |
| `CoverageCache.RepeatQueryNeedsNoFetch` | mundipy/cache/__init__.py:82-87 | Asking again for the same region, right after a call, calls the wrapped function no more. |
| `CoverageCache.QuerySound` | mundipy/cache/__init__.py:50-90 | As written, a call keeps every entry stored under its `pcs` sound and returns only items meeting the query. |
| `CoverageCache.QueryCorrectedExact` | mundipy/cache/__init__.py:50-90 | With the new entry keyed by the remainder it was fetched for, every entry under the call's `pcs` stays exact. The answer holds exactly the world's items meeting the query, whatever the cache held. |
| `CoverageCache.FirstQueryAsWritten` | mundipy/cache/__init__.py:82-87 | Querying one cell on an empty cache fetches it and stores its item under that cell. |
| `CoverageCache.TwoQueriesAsWritten` | mundipy/cache/__init__.py:87 | Querying one cell, then two cells, on an empty cache stores the second item under both cells and the first under its own cell. |
| `CoverageCache.LargerEntryFirst` | mundipy/cache/__init__.py:53 | In that state, a query of the first cell visits the two-cell entry first. |
| `CoverageCache.ThirdLookup` | mundipy/cache/__init__.py:58-79 | That query finds nothing left to fetch and reuses a single empty list. |
| `CoverageCache.AsWrittenDropsCachedItems` | mundipy/cache/__init__.py:87 | As written, querying A, then a superset B, then A again returns nothing, although the world has an item in A. |
| `CoverageCache.UnionSpatialCache.constructor` | mundipy/cache/__init__.py:31-32 | Creates an empty list. |
| `CoverageCache.UnionSpatialCache.Call` | mundipy/cache/__init__.py:34-90 | Argument errors raise and change nothing. A None geometry passes straight through to `fn` and changes nothing. Otherwise the result is the greedy reuse over the matching entries, largest first. `fn` is called once, on the remainder as its last argument, exactly when the remainder has positive area. Its result is appended last and stored at the front under the query geometry. `fn`'s exception leaves the list unchanged. |
| `CoverageCache.CallAsQuery` | mundipy/cache/__init__.py:34-90 | A call with the geometry as the only positional argument and `pcs` as a keyword returns and stores exactly what `Query` describes. |
| `Pcs.TransformEpsg` | mundipy/pcs/__init__.py:95-101 | The descriptor copies the record's name, EPSG code and axis unit. |
| `Pcs.CrsNamesEpsg` | mundipy/pcs/__init__.py:99 | The `crs` string `EPSG:<code>` names exactly the record's code. The Mollweide `ESRI:54009` names no EPSG code. |
| `Pcs.CrsInjective` | mundipy/pcs/__init__.py:99 | Records with different codes get different `crs` strings. |
| `Pcs.HasUnit` | mundipy/pcs/__init__.py:39 | Keeps exactly the records with a geometry and the requested axis unit. |
| `Pcs.ByArea` | mundipy/pcs/__init__.py:42 | `by_area` has as many records as `has_unit`, in non-decreasing area. |
| `Pcs.ByAreaMembers` | mundipy/pcs/__init__.py:39-42 | `by_area` holds exactly the eligible records. |
| `Pcs.FirstContaining` | mundipy/pcs/__init__.py:47-52 | The index found is the first record whose geometry contains the box. None means none does. |
| `Pcs.Chosen` | mundipy/pcs/__init__.py:47-52 | A chosen record's geometry contains the box. |
| `Pcs.ChoosePcs` | mundipy/pcs/__init__.py:30-62 | Raises TypeError exactly when the box is not a geometry or the units are neither feet nor meters: the box check comes first, with the box's type in the message, then the units message. When a record is chosen, it returns that record's descriptor and geometry. Raises NoProjectionFoundError exactly for feet when nothing is chosen. A returned footprint contains the box. The footprint is None exactly for the meters fallback, which is World Mollweide. |
| `Pcs.ChosenIsEligible` | mundipy/pcs/__init__.py:39-52 | The chosen record comes from the catalog and has the requested unit. |
| `Pcs.ChosenIsSmallest` | mundipy/pcs/__init__.py:42-52 | No eligible record containing the box has a strictly smaller area than the chosen one. |
| `Pcs.ChosenExistsIff` | mundipy/pcs/__init__.py:47-62 | A record is chosen exactly when some eligible record contains the box, so the fallback happens exactly when none does. |
| `Pcs.FirstContainingWithKey` | mundipy/pcs/__init__.py:42-52 | The first containing record in a list stays first among the records of its own area. |
| `Pcs.ChosenIsFirstOfItsArea` | mundipy/pcs/__init__.py:42-52 | Ties: among the eligible records of the chosen area, in catalog order, the chosen one is the first that contains the box. |
| `Pcs.FallbackIffNoFootprint` | mundipy/pcs/__init__.py:52-60 | A successful answer has no footprint exactly when it is World Mollweide, so the footprint cache never stores the fallback. |
| `Pcs.BindChooseArguments` | mundipy/pcs/__init__.py:27 | Binding succeeds exactly when there are at most two positional arguments, no keyword other than `box` and `units`, neither given both ways, and `box` given one way. Every failure is a TypeError. `box` is the first positional argument, else the keyword. `units` is the second positional argument, else the keyword, else `'meters'`. |
| `Pcs.ChoosePcsCall` | mundipy/pcs/__init__.py:26-62 | `choose_pcs` in the calling convention of the footprint cache: binding errors and `choose_pcs`'s exceptions are raised, and an answer is a `(descriptor, footprint)` pair. Its properties are `Pcs.ChoosePcsHonoursFootprint` and `Pcs.ChooseTwice`. |
| `Pcs.ChoosePcsHonoursFootprint` | mundipy/pcs/__init__.py:48-52 | The footprint `choose_pcs` returns includes the box the cache keys on. The cache keys on the box alone, so this does not make a hit right for other `units`; see Findings. |
| `Pcs.ChooseTwice` | tests/test_cache.py:7-14 | The decorated `choose_pcs`, called twice alike on a fresh cache, answers alike. When a containing record exists, this costs one miss and one hit. |
| `Pcs.UnitsIgnoredOnHit` | mundipy/pcs/__init__.py:26-27 | As written, over a meters zone and a feet zone on the same cell, a call with the default units stores the meters zone. The same box then asked for in feet is answered with the meters zone, although `choose_pcs` picks the feet zone. |
| `Pcs.MetersZoneChosen` | mundipy/pcs/__init__.py:39-52 | Over those two zones, `choose_pcs` picks the zone of the requested unit. |
| `Pcs.SameUnits` | mundipy/cache/__init__.py:133-135 | The corrected lookup searches exactly the entries computed for the requested units. |
| `Pcs.ChoosePcsEntryRecorded` | mundipy/pcs/__init__.py:47-52 | Any answer `choose_pcs` returns with a footprint is the descriptor and geometry of an eligible catalog record in its units. |
| `Pcs.KeyedHitIsValid` | mundipy/cache/__init__.py:133-137 | With the lookup keyed by units, a hit returns a descriptor in the requested units. It is the descriptor of an eligible catalog record whose geometry contains the box. |
| `Pcs.ContainingMembers` | mundipy/pcs/__init__.py:84-88 | Keeps exactly the records whose geometry contains the box. |
| `Pcs.SuggestPcs` | mundipy/pcs/__init__.py:64-93 | Raises the same TypeErrors as `choose_pcs` (with its own units message). Otherwise it returns the descriptors of the first `max(n, 1)` containing records of `by_area`: the check against `n` comes after the append, so `n <= 0` yields one. |
| `Pcs.Suggested` | mundipy/pcs/__init__.py:79-91 | At most `max(n, 1)` records, exactly that many whenever that many containing records exist, in non-decreasing area. |
| `Pcs.SuggestedAreEligible` | mundipy/pcs/__init__.py:84-91 | Each suggestion is an eligible catalog record containing the box. |
| `Pcs.SuggestedAreSmallest` | mundipy/pcs/__init__.py:79-91 | Any eligible containing record left out is at least as large as every one suggested. |
| `Pcs.SuggestedStartsWithChosen` | mundipy/pcs/__init__.py:47-52 | `suggest_pcs` suggests nothing exactly when `choose_pcs` falls back. Otherwise its first suggestion is the record `choose_pcs` picks. |

## Left out

- `pyproj_transform` (`mundipy/cache/__init__.py:10-14`): an LRU cache around a foreign pyproj call.
- Floating-point geometry: areas are cell counts. The `area == 0.0` and `area > 0.0` tests compare counts. `covers` and `contains` coincide.
- The catalog file: `fiona.open` and the bounding-box query (`mundipy/pcs/__init__.py:35-36, 72-73`) are I/O. The records that query returns are an input, in file order.
  - `Pcs.ChoosePcsCall` closes over one fixed record sequence for every box. The bounding-box prefilter only drops records that cannot contain the box, so the choice is the same.
- Catalog `area` is a number in the file; it is an integer here.
- Python introspection:
  - The method/function distinction (`getfullargspec`, line 119) is a fixed flag. The failure for a wrapped function with no parameters is not modelled.
  - The `pcs` parameter default (line 44) is an input, None when there is no such parameter. A parameter without a default yields Python's `Parameter.empty` sentinel; a caller can pass it as an opaque value.
- `Pcs.BindChooseArguments`: the interpreter's own wording of argument-binding TypeErrors is not reproduced; one message stands for each kind.
- Results of the wrapped functions have the expected shape by typing: a `(result, footprint)` pair, or a list of items. Unpacking errors on other shapes are not modelled.
- Items of the coverage cache are regions. The GeoDataFrame returned in `tests/test_cache.py` is not modelled.
- `TypeName` names one geometry class: all geometries are one kind of value here.
- `suggest_pcs` takes an integer `n`; other types of `n` are not modelled.
- `Pcs.SuggestPcs`: takes `units` and `n` from every caller. The defaults `units='meters'` and `n=3` (`mundipy/pcs/__init__.py:64`) are left to the caller, because Python's argument binding is modelled only for `choose_pcs`, which the footprint cache calls with arbitrary arguments.
- Sharing of one cache across instances of a class (`mundipy/dataset.py`) is not modelled: one cache per decorated function.
- `cache_info` is the pair of counter fields; the attribute that exposes it is not modelled.
- The rest of the repository (plotting, datasets, network clients, the catalog simplification script, geometry wrappers) is not part of this model.

## Findings

| source | as written | input that shows it | evidently intended | confidence | as-written member | corrected member |
|---|---|---|---|---|---|---|
| mundipy/cache/__init__.py:87 | The new entry is keyed by the whole query `geom`, but its items were fetched only for `remaining_area`. | World items in cells (0,0) and (1,0). Query A = {(0,0)}, then B = {(0,0),(1,0)}, then A again. B's entry holds only the (1,0) item but claims all of B. The third call filters it to nothing, and nothing remains to fetch, so it returns `[]`. | Key the entry by `remaining_area`, the region actually fetched. Every entry then stays exact, and every answer holds exactly the items meeting the query. | high, not executed | `CoverageCache.AsWrittenDropsCachedItems` | `CoverageCache.QueryCorrectedExact` |
| mundipy/pcs/__init__.py:26-27 | `choose_pcs` takes `units`, but the footprint cache around it looks only at the box (`mundipy/cache/__init__.py:130-137`). A hit returns whatever was stored for a containing footprint, computed for any units. `mundipy/mundi.py:22` passes `units` by keyword. | A meters zone and a feet zone over the same cell. `choose_pcs(b)` stores the meters zone. `choose_pcs(b, units='feet')` then hits and returns the meters zone, although the feet zone exists. | Search only entries computed for the requested units. A hit then answers with an eligible record in those units whose geometry contains the box. | medium, not executed | `Pcs.UnitsIgnoredOnHit` | `Pcs.KeyedHitIsValid` |

`CoverageCache.UnionSpatialCache.Call` and `FootprintCache.SpatialCacheFootprint.Call` model the code as written, since that is what callers get. For the first row, `CoverageCache.QueryCorrected` is the corrected call, and `CoverageCache.QueryCorrectedExact` proves the intended property about it. For the second, `Pcs.SameUnits` is the corrected lookup, and `Pcs.KeyedHitIsValid` proves the intended property about it.
