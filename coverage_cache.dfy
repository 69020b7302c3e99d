/**
 * `union_spatial_cache`: memoises a function that returns the items (here
 * geometries) found in a region. A call subtracts from the query region
 * the regions of earlier entries with the same pcs, largest first, reuses
 * their items, and calls the wrapped function only on what is left.
 */
module CoverageCache {
  import opened Wrappers
  import opened Geometry
  import opened Values
  import opened Sorting

  const DefaultMaxsize: int := 128

  /** One `((shape, pcs), items)` entry of the cache list. */
  datatype Entry = Entry(region: Region, pcs: Value, items: seq<Region>)

  /** The wrapped function: the items it finds, or the exception it raises. */
  type WrappedFn = (seq<Value>, map<string, Value>) -> Result<seq<Region>, Exception>

  const NoArgsMessage := "union_spatial_cache fn must be passed >= 1 argument"
  const NotGeometryMessage := "last argument to union_spatial_cache fn is neither None nor shapely.geometry"

  /**
   * The checks made before the cache is consulted, in order: at least one
   * argument, a last argument that is None or a geometry, and a `pcs` taken
   * from the keyword arguments or else from the default of the wrapped
   * function's `pcs` parameter (`pcsDefault`, None when it has no such
   * parameter). On success: the geometry (None for a pass-through) and pcs.
   */
  function CallArguments(args: seq<Value>, kwargs: map<string, Value>, pcsDefault: Option<Value>)
    : (r: Result<(Option<Region>, Value), Exception>)
    ensures |args| == 0 ==> r == Failure(TypeError(NoArgsMessage))
    ensures |args| > 0 && !IsGeometryOrNone(args[|args| - 1]) ==> r == Failure(TypeError(NotGeometryMessage))
    ensures r.Success? ==>
      && |args| > 0
      && (r.value.0.Some? <==> args[|args| - 1].GeomValue?)
      && (r.value.0.Some? ==> r.value.0.value == args[|args| - 1].region)
      && ("pcs" in kwargs ==> r.value.1 == kwargs["pcs"])
      && ("pcs" !in kwargs ==> pcsDefault == Some(r.value.1))
    ensures r.Failure? && |args| > 0 && IsGeometryOrNone(args[|args| - 1]) <==>
      r == Failure(KeyError("pcs"))
    ensures |args| > 0 && IsGeometryOrNone(args[|args| - 1]) ==>
      (r == Failure(KeyError("pcs")) <==> "pcs" !in kwargs && pcsDefault.None?)
  {
    if |args| == 0 then Failure(TypeError(NoArgsMessage))
    else
      var geom := args[|args| - 1];
      if !IsGeometryOrNone(geom) then Failure(TypeError(NotGeometryMessage))
      else if "pcs" !in kwargs && pcsDefault.None? then Failure(KeyError("pcs"))
      else
        var pcs := if "pcs" in kwargs then kwargs["pcs"] else pcsDefault.value;
        Success((if geom.GeomValue? then Some(geom.region) else None, pcs))
  }

  /** The entries with the same pcs whose region intersects the query, in list order. */
  function Matching(entries: seq<Entry>, pcs: Value, geom: Region): (r: seq<Entry>)
    ensures forall e :: e in r <==> e in entries && e.pcs == pcs && Intersects(e.region, geom)
  {
    if entries == [] then []
    else
      var rest := Matching(entries[1..], pcs, geom);
      assert forall e :: e in entries <==> e == entries[0] || e in entries[1..];
      if entries[0].pcs == pcs && Intersects(entries[0].region, geom) then [entries[0]] + rest else rest
  }

  /** Sort key for `sorted(..., reverse=True, key=area)`. */
  function NegArea(e: Entry): int
  {
    0 - Area(e.region) as int
  }

  /** The entries a call visits, by decreasing area; ties stay in list order. */
  function Candidates(entries: seq<Entry>, pcs: Value, geom: Region): (r: seq<Entry>)
    ensures |r| == |Matching(entries, pcs, geom)|
    ensures SortedBy(r, NegArea)
  {
    SortByIsSorted(Matching(entries, pcs, geom), NegArea);
    SortBy(Matching(entries, pcs, geom), NegArea)
  }

  lemma CandidatesAreMatching(entries: seq<Entry>, pcs: Value, geom: Region)
    ensures forall e :: e in Candidates(entries, pcs, geom) <==>
      e in entries && e.pcs == pcs && Intersects(e.region, geom)
    ensures forall a :: WithKey(Candidates(entries, pcs, geom), NegArea, a) == WithKey(Matching(entries, pcs, geom), NegArea, a)
  {
    var m := Matching(entries, pcs, geom);
    SortByPermutes(m, NegArea);
    SortByIsSorted(m, NegArea);
    forall e
      ensures e in Candidates(entries, pcs, geom) <==> e in m
    {
      assert e in Candidates(entries, pcs, geom) <==> e in multiset(Candidates(entries, pcs, geom));
    }
    forall a
      ensures WithKey(Candidates(entries, pcs, geom), NegArea, a) == WithKey(m, NegArea, a)
    {
      SortByIsStable(m, NegArea, a);
    }
  }

  /** Line 74: the items that intersect `area`, in order. */
  function ItemsIntersecting(items: seq<Region>, area: Region): (r: seq<Region>)
    ensures forall w :: w in r <==> w in items && Intersects(w, area)
  {
    if items == [] then []
    else
      var rest := ItemsIntersecting(items[1..], area);
      assert forall w :: w in items <==> w == items[0] || w in items[1..];
      if Intersects(items[0], area) then [items[0]] + rest else rest
  }

  /** Line 90: the collected lists joined in order, duplicates kept. */
  function Flatten(lists: seq<seq<Region>>): seq<Region>
  {
    if lists == [] then [] else Flatten(lists[..|lists| - 1]) + lists[|lists| - 1]
  }

  lemma FlattenAppend(lists: seq<seq<Region>>, items: seq<Region>)
    ensures Flatten(lists + [items]) == Flatten(lists) + items
  {
    assert (lists + [items])[..|lists|] == lists;
  }

  /**
   * One pass of the loop at lines 58-79 over `c`, on the accumulator
   * `(remaining, collected)`.
   */
  function Visit(c: Entry, acc: (Region, seq<seq<Region>>)): (r: (Region, seq<seq<Region>>))
    ensures r.0 == acc.0 - c.region
    ensures |r.1| == if Intersects(c.region, acc.0) then |acc.1| + 1 else |acc.1|
    ensures r.1[..|acc.1|] == acc.1
  {
    var (remaining, collected) := acc;
    if Covers(remaining, c.region) then
      (Difference(remaining, c.region), collected + [c.items])
    else
      var overlap := Intersection(c.region, remaining);
      if Area(overlap) == 0 then acc
      else (Difference(remaining, c.region), collected + [ItemsIntersecting(c.items, overlap)])
  }

  /** The loop over `candidates`, starting from `remaining = geom` and nothing collected. */
  function Greedy(candidates: seq<Entry>, geom: Region): (r: (Region, seq<seq<Region>>))
    ensures r.0 <= geom && |r.1| <= |candidates|
  {
    if candidates == [] then (geom, [])
    else Visit(candidates[|candidates| - 1], Greedy(candidates[..|candidates| - 1], geom))
  }

  /** What the cache offers for a query: the uncovered remainder and the reused items. */
  function Lookup(entries: seq<Entry>, pcs: Value, geom: Region): (r: (Region, seq<seq<Region>>))
    ensures r.0 == geom - RegionsOf(Candidates(entries, pcs, geom))
  {
    GreedyRemainder(Candidates(entries, pcs, geom), geom);
    Greedy(Candidates(entries, pcs, geom), geom)
  }

  /** The union of the candidates' regions. */
  function RegionsOf(candidates: seq<Entry>): Region
  {
    if candidates == [] then {}
    else RegionsOf(candidates[..|candidates| - 1]) + candidates[|candidates| - 1].region
  }

  lemma {:induction false} RegionsOfContains(candidates: seq<Entry>, c: Entry)
    requires c in candidates
    ensures c.region <= RegionsOf(candidates)
  {
    var n := |candidates|;
    if candidates[n - 1] != c {
      assert c in candidates[..n - 1];
      RegionsOfContains(candidates[..n - 1], c);
    }
  }

  /**
   * Whatever the visiting order and whichever candidates are skipped, the
   * remainder is the query minus every candidate's region: a candidate is
   * skipped only when it no longer overlaps the remainder.
   */
  lemma {:induction false} GreedyRemainder(candidates: seq<Entry>, geom: Region)
    ensures Greedy(candidates, geom).0 == geom - RegionsOf(candidates)
  {
    if candidates != [] {
      var n := |candidates|;
      GreedyRemainder(candidates[..n - 1], geom);
      var c := candidates[n - 1];
      var remaining := Greedy(candidates[..n - 1], geom).0;
      if !Covers(remaining, c.region) && Area(Intersection(c.region, remaining)) == 0 {
        assert c.region * remaining == {};
        forall x | x in remaining ensures x !in c.region {
          assert x !in c.region * remaining;
        }
        assert remaining - c.region == remaining;
      }
    }
  }

  /** A query lying inside a stored region of the same pcs leaves nothing to fetch. */
  lemma ContainedQueryNeedsNoFetch(entries: seq<Entry>, pcs: Value, geom: Region, e: Entry)
    requires e in entries && e.pcs == pcs && geom <= e.region
    ensures Lookup(entries, pcs, geom).0 == {}
  {
    var candidates := Candidates(entries, pcs, geom);
    GreedyRemainder(candidates, geom);
    if geom != {} {
      CandidatesAreMatching(entries, pcs, geom);
      assert Intersects(e.region, geom) by {
        var x :| x in geom;
        assert x in e.region * geom;
      }
      RegionsOfContains(candidates, e);
    }
  }

  /** Every item is one of `world` and meets `region`. */
  ghost predicate SoundFor(items: seq<Region>, region: Region, world: seq<Region>)
  {
    forall w :: w in items ==> w in world && Intersects(w, region)
  }

  /** Every item of `world` that meets `region` is among the items. */
  ghost predicate CompleteFor(items: seq<Region>, region: Region, world: seq<Region>)
  {
    forall w :: w in world && Intersects(w, region) ==> w in items
  }

  /** Every entry stored under `pcs` holds only items of `world` meeting its region. */
  ghost predicate EntriesSound(entries: seq<Entry>, pcs: Value, world: seq<Region>)
  {
    forall e :: e in entries && e.pcs == pcs ==> SoundFor(e.items, e.region, world)
  }

  /** Every entry stored under `pcs` holds exactly the items of `world` meeting its region. */
  ghost predicate EntriesExact(entries: seq<Entry>, pcs: Value, world: seq<Region>)
  {
    forall e :: e in entries && e.pcs == pcs ==> SoundFor(e.items, e.region, world) && CompleteFor(e.items, e.region, world)
  }

  lemma MeetsLarger(w: Region, small: Region, large: Region)
    requires Intersects(w, small) && small <= large
    ensures Intersects(w, large)
  {
    var x :| x in w * small;
    assert x in w * large;
  }

  lemma VisitSound(c: Entry, acc: (Region, seq<seq<Region>>), geom: Region, world: seq<Region>)
    requires SoundFor(c.items, c.region, world)
    requires acc.0 <= geom && SoundFor(Flatten(acc.1), geom, world)
    ensures Visit(c, acc).0 <= geom && SoundFor(Flatten(Visit(c, acc).1), geom, world)
  {
    var (remaining, collected) := acc;
    if Covers(remaining, c.region) {
      FlattenAppend(collected, c.items);
      forall w | w in c.items ensures Intersects(w, geom) {
        MeetsLarger(w, c.region, geom);
      }
    } else {
      var overlap := Intersection(c.region, remaining);
      if Area(overlap) != 0 {
        var kept := ItemsIntersecting(c.items, overlap);
        FlattenAppend(collected, kept);
        forall w | w in kept ensures Intersects(w, geom) {
          MeetsLarger(w, overlap, geom);
        }
      }
    }
  }

  /** Reused items are only ever items of the query region. */
  lemma {:induction false} GreedySound(candidates: seq<Entry>, geom: Region, world: seq<Region>)
    requires forall c :: c in candidates ==> SoundFor(c.items, c.region, world)
    ensures Greedy(candidates, geom).0 <= geom
    ensures SoundFor(Flatten(Greedy(candidates, geom).1), geom, world)
  {
    if candidates != [] {
      var n := |candidates|;
      forall c | c in candidates[..n - 1] ensures SoundFor(c.items, c.region, world) {
        assert c in candidates;
      }
      GreedySound(candidates[..n - 1], geom, world);
      VisitSound(candidates[n - 1], Greedy(candidates[..n - 1], geom), geom, world);
    }
  }

  lemma VisitComplete(c: Entry, acc: (Region, seq<seq<Region>>), w: Region, world: seq<Region>)
    requires CompleteFor(c.items, c.region, world)
    requires w in world && (w in Flatten(acc.1) || Intersects(w, acc.0))
    ensures w in Flatten(Visit(c, acc).1) || Intersects(w, Visit(c, acc).0)
  {
    var (remaining, collected) := acc;
    var overlap := Intersection(c.region, remaining);
    if Covers(remaining, c.region) {
      FlattenAppend(collected, c.items);
    } else if Area(overlap) != 0 {
      FlattenAppend(collected, ItemsIntersecting(c.items, overlap));
    }
    if w !in Flatten(collected) {
      var x :| x in w * remaining;
      if x in c.region {
        assert x in w * c.region;
        assert x in w * overlap;
      } else {
        assert x in w * Visit(c, acc).0;
      }
    }
  }

  /**
   * Nothing of the query region is lost: an item of the world meeting it is
   * either reused or meets the remainder that is left to fetch.
   */
  lemma {:induction false} GreedyComplete(candidates: seq<Entry>, geom: Region, world: seq<Region>)
    requires forall c :: c in candidates ==> CompleteFor(c.items, c.region, world)
    ensures forall w :: w in world && Intersects(w, geom) ==>
      w in Flatten(Greedy(candidates, geom).1) || Intersects(w, Greedy(candidates, geom).0)
  {
    if candidates != [] {
      var n := |candidates|;
      forall c | c in candidates[..n - 1] ensures CompleteFor(c.items, c.region, world) {
        assert c in candidates;
      }
      GreedyComplete(candidates[..n - 1], geom, world);
      forall w | w in world && Intersects(w, geom)
        ensures w in Flatten(Greedy(candidates, geom).1) || Intersects(w, Greedy(candidates, geom).0)
      {
        VisitComplete(candidates[n - 1], Greedy(candidates[..n - 1], geom), w, world);
      }
    }
  }

  /**
   * One call on a geometry, as written at lines 50-90, for a wrapped
   * function that always returns `fetch(region)`: the new cache list and
   * the returned items. The new entry is keyed by the whole query `geom`
   * although its items were fetched for the remainder only.
   */
  function Query(entries: seq<Entry>, pcs: Value, geom: Region, fetch: Region -> seq<Region>, maxsize: int)
    : (r: (seq<Entry>, seq<Region>))
    ensures var remaining := geom - RegionsOf(Candidates(entries, pcs, geom));
      if remaining == {} then r.0 == entries
      else
        && 1 <= |r.0| <= |entries| + 1 && r.0[0] == Entry(geom, pcs, fetch(remaining)) && r.0[1..] == entries[..|r.0| - 1]
        && |fetch(remaining)| <= |r.1| && r.1[|r.1| - |fetch(remaining)|..] == fetch(remaining)
  {
    var (remaining, collected) := Lookup(entries, pcs, geom);
    if Area(remaining) > 0 then
      var items := fetch(remaining);
      FlattenAppend(collected, items);
      (PushFront(entries, Entry(geom, pcs, items), maxsize), Flatten(collected + [items]))
    else
      (entries, Flatten(collected))
  }

  /**
   * The same call with the new entry keyed by the region its items were
   * actually fetched for.
   */
  function QueryCorrected(entries: seq<Entry>, pcs: Value, geom: Region, fetch: Region -> seq<Region>, maxsize: int)
    : (r: (seq<Entry>, seq<Region>))
    ensures var remaining := geom - RegionsOf(Candidates(entries, pcs, geom));
      if remaining == {} then r.0 == entries
      else
        && 1 <= |r.0| <= |entries| + 1 && r.0[0] == Entry(remaining, pcs, fetch(remaining)) && r.0[1..] == entries[..|r.0| - 1]
        && |fetch(remaining)| <= |r.1| && r.1[|r.1| - |fetch(remaining)|..] == fetch(remaining)
  {
    var (remaining, collected) := Lookup(entries, pcs, geom);
    if Area(remaining) > 0 then
      var items := fetch(remaining);
      FlattenAppend(collected, items);
      (PushFront(entries, Entry(remaining, pcs, items), maxsize), Flatten(collected + [items]))
    else
      (entries, Flatten(collected))
  }

  /**
   * Asking again for the same region needs no fetch: the first call either
   * found it covered or stored an entry for the whole of it.
   */
  lemma RepeatQueryNeedsNoFetch(entries: seq<Entry>, pcs: Value, geom: Region, fetch: Region -> seq<Region>, maxsize: int)
    ensures Lookup(Query(entries, pcs, geom, fetch, maxsize).0, pcs, geom).0 == {}
  {
    var (remaining, collected) := Lookup(entries, pcs, geom);
    if Area(remaining) > 0 {
      var after := Query(entries, pcs, geom, fetch, maxsize).0;
      ContainedQueryNeedsNoFetch(after, pcs, geom, after[0]);
    } else {
      assert remaining == {};
    }
  }

  /**
   * As written, the cache keeps answers sound: given a wrapped function
   * that returns only items of the world meeting its region, every stored
   * entry and every answer holds only items meeting the region queried.
   */
  lemma QuerySound(entries: seq<Entry>, pcs: Value, geom: Region, fetch: Region -> seq<Region>, maxsize: int,
                   world: seq<Region>)
    requires EntriesSound(entries, pcs, world)
    requires forall r :: SoundFor(fetch(r), r, world)
    ensures EntriesSound(Query(entries, pcs, geom, fetch, maxsize).0, pcs, world)
    ensures SoundFor(Query(entries, pcs, geom, fetch, maxsize).1, geom, world)
  {
    var candidates := Candidates(entries, pcs, geom);
    CandidatesAreMatching(entries, pcs, geom);
    GreedySound(candidates, geom, world);
    var (remaining, collected) := Lookup(entries, pcs, geom);
    if Area(remaining) > 0 {
      var items := fetch(remaining);
      FlattenAppend(collected, items);
      forall w | w in items ensures Intersects(w, geom) {
        MeetsLarger(w, remaining, geom);
      }
      var after := PushFront(entries, Entry(geom, pcs, items), maxsize);
      forall e | e in after && e.pcs == pcs ensures SoundFor(e.items, e.region, world) {
        PushFrontMembers(entries, Entry(geom, pcs, items), maxsize, e);
      }
    }
  }

  /**
   * With entries keyed by the region actually fetched, the answer is
   * exactly the world's items meeting the query, as a set, whatever the
   * cache held, and every stored entry stays exact.
   */
  lemma QueryCorrectedExact(entries: seq<Entry>, pcs: Value, geom: Region, fetch: Region -> seq<Region>,
                            maxsize: int, world: seq<Region>)
    requires EntriesExact(entries, pcs, world)
    requires forall r :: SoundFor(fetch(r), r, world) && CompleteFor(fetch(r), r, world)
    ensures EntriesExact(QueryCorrected(entries, pcs, geom, fetch, maxsize).0, pcs, world)
    ensures forall w :: w in QueryCorrected(entries, pcs, geom, fetch, maxsize).1 <==> w in world && Intersects(w, geom)
  {
    var candidates := Candidates(entries, pcs, geom);
    CandidatesAreMatching(entries, pcs, geom);
    GreedySound(candidates, geom, world);
    GreedyComplete(candidates, geom, world);
    var (remaining, collected) := Lookup(entries, pcs, geom);
    if Area(remaining) > 0 {
      var items := fetch(remaining);
      FlattenAppend(collected, items);
      forall w | w in items ensures Intersects(w, geom) {
        MeetsLarger(w, remaining, geom);
      }
      var after := PushFront(entries, Entry(remaining, pcs, items), maxsize);
      forall e | e in after && e.pcs == pcs ensures SoundFor(e.items, e.region, world) && CompleteFor(e.items, e.region, world) {
        PushFrontMembers(entries, Entry(remaining, pcs, items), maxsize, e);
      }
    } else {
      assert remaining == {};
    }
  }

  /** A world of two items, one in cell (0, 0) and one in (1, 0), and the fetch that finds them. */
  const TwoItems: seq<Region> := [{(0, 0)}, {(1, 0)}]

  function FetchTwoItems(r: Region): seq<Region>
  {
    ItemsIntersecting(TwoItems, r)
  }

  /** Querying {(0, 0)} on an empty cache fetches and stores the first item under its cell. */
  lemma FirstQueryAsWritten(pcs: Value)
    ensures Query([], pcs, {(0, 0)}, FetchTwoItems, DefaultMaxsize).0 == [Entry({(0, 0)}, pcs, [{(0, 0)}])]
  {
    var a: Region := {(0, 0)};
    assert (0, 0) != (1, 0);
    assert (0, 0) in a * a;
    assert {(1, 0)} * a == {};
    assert TwoItems[1..] == [{(1, 0)}] && [{(1, 0)}][1..] == [];
    assert FetchTwoItems(a) == [{(0, 0)}];
    assert Lookup([], pcs, a) == (a, []);
  }

  /**
   * Querying {(0, 0)} and then {(0, 0), (1, 0)} on an empty cache leaves
   * the second item stored under the whole two-cell region, and the first
   * under its own cell.
   */
  lemma TwoQueriesAsWritten(pcs: Value)
    ensures var first := Query([], pcs, {(0, 0)}, FetchTwoItems, DefaultMaxsize);
      Query(first.0, pcs, {(0, 0), (1, 0)}, FetchTwoItems, DefaultMaxsize).0
        == [Entry({(0, 0), (1, 0)}, pcs, [{(1, 0)}]), Entry({(0, 0)}, pcs, [{(0, 0)}])]
  {
    var a: Region := {(0, 0)};
    var b: Region := {(0, 0), (1, 0)};
    var ea := Entry(a, pcs, [{(0, 0)}]);
    FirstQueryAsWritten(pcs);
    assert (0, 0) != (1, 0);
    assert (0, 0) in b * a;
    assert {(1, 0)} * a == {} && (1, 0) in {(1, 0)} * {(1, 0)};
    assert TwoItems[1..] == [{(1, 0)}] && [{(1, 0)}][1..] == [];
    assert FetchTwoItems({(1, 0)}) == [{(1, 0)}];
    assert Matching([ea], pcs, b) == [ea];
    assert Candidates([ea], pcs, b) == [ea];
    assert [ea][..0] == [];
    assert RegionsOf([ea]) == a;
    assert b - a == {(1, 0)};
  }

  /** The third query of the example visits the two-cell entry first. */
  lemma LargerEntryFirst(pcs: Value)
    ensures var ea := Entry({(0, 0)}, pcs, [{(0, 0)}]);
      var eb := Entry({(0, 0), (1, 0)}, pcs, [{(1, 0)}]);
      Candidates([eb, ea], pcs, {(0, 0)}) == [eb, ea]
  {
    var a: Region := {(0, 0)};
    var b: Region := {(0, 0), (1, 0)};
    var ea := Entry(a, pcs, [{(0, 0)}]);
    var eb := Entry(b, pcs, [{(1, 0)}]);
    assert (0, 0) != (1, 0);
    assert |b| == 2;
    assert (0, 0) in a * a && (0, 0) in b * a;
    assert Intersects(b, a) && Intersects(a, a);
    assert Matching([ea], pcs, a) == [ea] by {
      assert [ea][1..] == [];
    }
    assert Matching([eb, ea], pcs, a) == [eb, ea] by {
      assert [eb, ea][1..] == [ea];
    }
    assert SortBy([ea], NegArea) == [ea] by {
      assert [ea][1..] == [];
    }
    assert [eb, ea][1..] == [ea];
    assert NegArea(eb) < NegArea(ea);
  }

  /**
   * The as-written keying loses items. After the two queries above,
   * querying {(0, 0)} again visits the larger entry first, filters its
   * items to the one cell and finds none, leaves nothing to fetch, and
   * returns nothing although the first item lies in the query.
   */
  lemma AsWrittenDropsCachedItems(pcs: Value)
    ensures var a: Region := {(0, 0)};
      var first := Query([], pcs, a, FetchTwoItems, DefaultMaxsize);
      var second := Query(first.0, pcs, {(0, 0), (1, 0)}, FetchTwoItems, DefaultMaxsize);
      && {(0, 0)} in TwoItems && Intersects({(0, 0)}, a)
      && Query(second.0, pcs, a, FetchTwoItems, DefaultMaxsize).1 == []
  {
    var a: Region := {(0, 0)};
    var ea := Entry(a, pcs, [{(0, 0)}]);
    var eb := Entry({(0, 0), (1, 0)}, pcs, [{(1, 0)}]);
    TwoQueriesAsWritten(pcs);
    ThirdLookup(pcs);
    assert (0, 0) in a * a;
    assert Lookup([eb, ea], pcs, a) == ({}, [[]]);
  }

  /** The third query's lookup: nothing remains, and the one list reused is empty. */
  lemma ThirdLookup(pcs: Value)
    ensures var ea := Entry({(0, 0)}, pcs, [{(0, 0)}]);
      var eb := Entry({(0, 0), (1, 0)}, pcs, [{(1, 0)}]);
      Lookup([eb, ea], pcs, {(0, 0)}) == ({}, [[]])
  {
    var a: Region := {(0, 0)};
    var b: Region := {(0, 0), (1, 0)};
    var ea := Entry(a, pcs, [{(0, 0)}]);
    var eb := Entry(b, pcs, [{(1, 0)}]);
    assert (0, 0) != (1, 0);
    assert (0, 0) in a * a && (0, 0) in b * a;
    LargerEntryFirst(pcs);
    assert !Covers(a, b);
    assert b * a == a;
    assert a - b == {};
    assert [eb][..0] == [];
    assert Area(Intersection(b, a)) == 1;
    assert {(1, 0)} * a == {};
    assert ItemsIntersecting(eb.items, Intersection(b, a)) == [];
    var empty: seq<seq<Region>> := [];
    var v := Visit(eb, (a, empty));
    assert v.0 == {};
    assert v.1 == [[]];
    assert Greedy([eb], a) == v;
    assert [eb, ea][..1] == [eb];
  }

  /** The state closed over by the decorated function: its cache list. */
  class UnionSpatialCache {
    const fn: WrappedFn
    const maxsize: int
    /** The default of the wrapped function's `pcs` parameter; None when it has none. */
    const pcsDefault: Option<Value>
    var entries: seq<Entry>

    ghost predicate Valid()
      reads this
    {
      |entries| <= Max(maxsize, 1)
    }

    constructor (fn: WrappedFn, maxsize: int, pcsDefault: Option<Value>)
      ensures Valid()
      ensures this.fn == fn && this.maxsize == maxsize && this.pcsDefault == pcsDefault && entries == []
    {
      this.fn := fn;
      this.maxsize := maxsize;
      this.pcsDefault := pcsDefault;
      entries := [];
    }

    /** `check_cache_first(*args, **kwargs)` */
    method Call(args: seq<Value>, kwargs: map<string, Value>) returns (r: Result<seq<Region>, Exception>)
      requires Valid()
      modifies this
      ensures Valid()
      ensures CallArguments(args, kwargs, pcsDefault).Failure? ==>
        r == Failure(CallArguments(args, kwargs, pcsDefault).error) && entries == old(entries)
      ensures CallArguments(args, kwargs, pcsDefault).Success? && CallArguments(args, kwargs, pcsDefault).value.0.None? ==>
        r == fn(args, kwargs) && entries == old(entries)
      ensures CallArguments(args, kwargs, pcsDefault).Success? && CallArguments(args, kwargs, pcsDefault).value.0.Some? ==>
        var (geom, pcs) := (CallArguments(args, kwargs, pcsDefault).value.0.value, CallArguments(args, kwargs, pcsDefault).value.1);
        var (remaining, collected) := Lookup(old(entries), pcs, geom);
        if Area(remaining) == 0 then
          r == Success(Flatten(collected)) && entries == old(entries)
        else
          match fn(args[..|args| - 1] + [GeomValue(remaining)], kwargs)
          case Failure(e) => r == Failure(e) && entries == old(entries)
          case Success(items) =>
            && r == Success(Flatten(collected + [items]))
            && entries == PushFront(old(entries), Entry(geom, pcs, items), maxsize)
    {
      var checked := CallArguments(args, kwargs, pcsDefault);
      if checked.Failure? {
        return Failure(checked.error);
      }
      var (shape, pcs) := checked.value;
      if shape.None? {
        return fn(args, kwargs);
      }
      var geom := shape.value;
      var candidates := Candidates(entries, pcs, geom);
      var remaining := geom;
      var collected: seq<seq<Region>> := [];
      for i := 0 to |candidates|
        invariant (remaining, collected) == Greedy(candidates[..i], geom)
      {
        var c := candidates[i];
        assert candidates[..i + 1][..i] == candidates[..i];
        if Covers(remaining, c.region) {
          collected := collected + [c.items];
        } else {
          var overlap := Intersection(c.region, remaining);
          if Area(overlap) == 0 {
            continue;
          }
          collected := collected + [ItemsIntersecting(c.items, overlap)];
        }
        remaining := Difference(remaining, c.region);
      }
      assert candidates[..|candidates|] == candidates;
      if Area(remaining) > 0 {
        var result := fn(args[..|args| - 1] + [GeomValue(remaining)], kwargs);
        if result.Failure? {
          return Failure(result.error);
        }
        collected := collected + [result.value];
        entries := PushFront(entries, Entry(geom, pcs, result.value), maxsize);
      }
      r := Success(Flatten(collected));
    }
  }

  /**
   * The class agrees with `Query`: a call with the geometry as the only
   * positional argument and `pcs` as a keyword, to a wrapped function that
   * answers `fetch` of the region it is passed, returns and stores what
   * `Query` describes.
   */
  method CallAsQuery(cache: UnionSpatialCache, geom: Region, pcs: Value, fetch: Region -> seq<Region>)
    returns (r: Result<seq<Region>, Exception>)
    requires cache.Valid()
    requires forall region :: cache.fn([GeomValue(region)], map["pcs" := pcs]) == Success(fetch(region))
    modifies cache
    ensures cache.Valid()
    ensures r == Success(Query(old(cache.entries), pcs, geom, fetch, cache.maxsize).1)
    ensures cache.entries == Query(old(cache.entries), pcs, geom, fetch, cache.maxsize).0
  {
    var args := [GeomValue(geom)];
    var kwargs := map["pcs" := pcs];
    assert CallArguments(args, kwargs, cache.pcsDefault) == Success((Some(geom), pcs));
    var remaining := Lookup(cache.entries, pcs, geom).0;
    assert args[..0] + [GeomValue(remaining)] == [GeomValue(remaining)];
    r := cache.Call(args, kwargs);
  }
}
