/**
 * `mundipy.pcs`: choosing a projected coordinate reference system whose
 * area of use wholly contains a given box. The catalog records that the
 * bounding-box query returns are an input; among those with the requested
 * axis unit and a geometry, sorted by ascending area (stably, so ties keep
 * catalog order), the first whose geometry contains the box wins.
 */
module Pcs {
  import opened Wrappers
  import opened Geometry
  import opened Values
  import opened Sorting
  import opened Decimal
  import FootprintCache

  /** One feature of the catalog: its geometry and the properties read here. */
  datatype CatalogRecord = CatalogRecord(geometry: Option<Region>, axisUnit: string, area: int, epsg: int, name: string)

  /** The dictionary handed back to callers; the world fallback has no `epsg` key. */
  datatype Descriptor = Descriptor(name: string, epsg: Option<int>, crs: string, units: string)

  const WorldMollweide := Descriptor("World Mollweide", None, "ESRI:54009", "meters")

  const ChooseUnitsMessage := "units passed to projectedcrs.choose_pcs() is neither feet nor meters"
  const SuggestUnitsMessage := "units passed to projectedcrs.suggest_pcs() is neither feet nor meters"
  const BindingMessage := "choose_pcs() got arguments it does not accept"
  const MissingBoxMessage := "choose_pcs() missing 1 required positional argument: 'box'"

  /** The message both entry points raise for a box that is not a geometry. */
  function BoxMessage(box: Value): string
  {
    "box passed to projectedcrs.choose_pcs() is not a shapely BaseGeometry, instead got '" + TypeName(box) + "'"
  }

  predicate ValidUnits(units: Value)
  {
    units == StrValue("feet") || units == StrValue("meters")
  }

  /** `transform_epsg`: the record's name, code and unit, and `'EPSG:%d' % code`. */
  function TransformEpsg(rec: CatalogRecord): (d: Descriptor)
    ensures d.name == rec.name && d.epsg == Some(rec.epsg) && d.units == rec.axisUnit
  {
    Descriptor(rec.name, Some(rec.epsg), "EPSG:" + FormatInt(rec.epsg), rec.axisUnit)
  }

  function TransformAll(recs: seq<CatalogRecord>): seq<Descriptor>
  {
    seq(|recs|, i requires 0 <= i < |recs| => TransformEpsg(recs[i]))
  }

  /** The EPSG code a `crs` string names, if it is of the form `EPSG:<integer>`. */
  function EpsgCode(crs: string): Option<int>
  {
    if |crs| >= 5 && crs[..5] == "EPSG:" then ParseInt(crs[5..]) else None
  }

  /** The `crs` string names exactly the record's code; the fallback names none. */
  lemma CrsNamesEpsg(rec: CatalogRecord)
    ensures EpsgCode(TransformEpsg(rec).crs) == Some(rec.epsg)
    ensures EpsgCode(WorldMollweide.crs) == None
  {
    var crs := TransformEpsg(rec).crs;
    assert crs[..5] == "EPSG:";
    assert crs[5..] == FormatInt(rec.epsg);
    ParseFormatInt(rec.epsg);
    assert WorldMollweide.crs[..5] != "EPSG:" by {
      assert WorldMollweide.crs[0] == 'E' && WorldMollweide.crs[1] == 'S';
    }
  }

  /** Records with different codes get different `crs` strings. */
  lemma CrsInjective(a: CatalogRecord, b: CatalogRecord)
    requires a.epsg != b.epsg
    ensures TransformEpsg(a).crs != TransformEpsg(b).crs
  {
    CrsNamesEpsg(a);
    CrsNamesEpsg(b);
  }

  /** The filter of line 39: a geometry is present and the axis unit matches. */
  predicate Eligible(rec: CatalogRecord, units: string)
  {
    rec.geometry.Some? && rec.axisUnit == units
  }

  /** `shape(geometry).buffer(0).contains(box)`; `buffer(0)` leaves a region as it is. */
  predicate ContainsBox(rec: CatalogRecord, box: Region)
  {
    rec.geometry.Some? && Contains(rec.geometry.value, box)
  }

  /** `has_unit`, in catalog order. */
  function HasUnit(catalog: seq<CatalogRecord>, units: string): (r: seq<CatalogRecord>)
    ensures forall rec :: rec in r <==> rec in catalog && Eligible(rec, units)
  {
    if catalog == [] then []
    else (if Eligible(catalog[0], units) then [catalog[0]] else []) + HasUnit(catalog[1..], units)
  }

  function AreaKey(rec: CatalogRecord): int
  {
    rec.area
  }

  /** `by_area = sorted(has_unit, key=area)` */
  function ByArea(catalog: seq<CatalogRecord>, units: string): (r: seq<CatalogRecord>)
    ensures |r| == |HasUnit(catalog, units)|
    ensures SortedBy(r, AreaKey)
  {
    SortByIsSorted(HasUnit(catalog, units), AreaKey);
    SortBy(HasUnit(catalog, units), AreaKey)
  }

  /** `by_area` holds exactly the eligible records. */
  lemma ByAreaMembers(catalog: seq<CatalogRecord>, units: string)
    ensures forall rec :: rec in ByArea(catalog, units) <==> rec in catalog && Eligible(rec, units)
  {
    SortByPermutes(HasUnit(catalog, units), AreaKey);
    forall rec
      ensures rec in ByArea(catalog, units) <==> rec in HasUnit(catalog, units)
    {
      assert rec in ByArea(catalog, units) <==> rec in multiset(ByArea(catalog, units));
      assert rec in HasUnit(catalog, units) <==> rec in multiset(HasUnit(catalog, units));
    }
  }

  /** The index of the first record whose geometry contains `box`. */
  function FirstContaining(s: seq<CatalogRecord>, box: Region): (k: Option<nat>)
    ensures k.Some? ==> k.value < |s| && ContainsBox(s[k.value], box)
    ensures forall j :: 0 <= j < |s| && (k.None? || j < k.value) ==> !ContainsBox(s[j], box)
  {
    if s == [] then None
    else if ContainsBox(s[0], box) then Some(0)
    else
      match FirstContaining(s[1..], box)
      case None => None
      case Some(j) => Some(j + 1)
  }

  /** The record `choose_pcs` settles on, if any (the loop of lines 47-52). */
  function Chosen(catalog: seq<CatalogRecord>, box: Region, units: string): (c: Option<CatalogRecord>)
    ensures c.Some? ==> ContainsBox(c.value, box)
  {
    var byArea := ByArea(catalog, units);
    match FirstContaining(byArea, box)
    case None => None
    case Some(k) => Some(byArea[k])
  }

  /** `choose_pcs(box, units)` without its cache: `(descriptor, footprint)`. */
  function ChoosePcs(catalog: seq<CatalogRecord>, box: Value, units: Value): (r: Result<(Descriptor, Option<Region>), Exception>)
    ensures r.Failure? && r.error.TypeError? <==> !box.GeomValue? || !ValidUnits(units)
    ensures !box.GeomValue? ==> r == Failure(TypeError(BoxMessage(box)))
    ensures r == Failure(NoProjectionFoundError) <==>
      box.GeomValue? && units == StrValue("feet") && Chosen(catalog, box.region, "feet").None?
    ensures r.Success? && r.value.1.Some? ==> box.GeomValue? && Contains(r.value.1.value, box.region)
    ensures r.Success? && r.value.1.None? <==>
      box.GeomValue? && units == StrValue("meters") && Chosen(catalog, box.region, "meters").None?
    ensures r.Success? && r.value.1.None? ==> r.value.0 == WorldMollweide
    ensures box.GeomValue? && !ValidUnits(units) ==> r == Failure(TypeError(ChooseUnitsMessage))
    ensures box.GeomValue? && ValidUnits(units) && Chosen(catalog, box.region, units.text).Some? ==>
      var c := Chosen(catalog, box.region, units.text).value;
      r == Success((TransformEpsg(c), c.geometry))
  {
    if !box.GeomValue? then Failure(TypeError(BoxMessage(box)))
    else if !ValidUnits(units) then Failure(TypeError(ChooseUnitsMessage))
    else
      match Chosen(catalog, box.region, units.text)
      case Some(c) => Success((TransformEpsg(c), c.geometry))
      case None =>
        if units.text == "meters" then Success((WorldMollweide, None))
        else Failure(NoProjectionFoundError)
  }

  /** The chosen record has the requested unit, a geometry containing the box, and comes from the catalog. */
  lemma ChosenIsEligible(catalog: seq<CatalogRecord>, box: Region, units: string)
    requires Chosen(catalog, box, units).Some?
    ensures Chosen(catalog, box, units).value in catalog
    ensures Eligible(Chosen(catalog, box, units).value, units)
  {
    ByAreaMembers(catalog, units);
  }

  /** No eligible record containing the box has a strictly smaller area than the chosen one. */
  lemma ChosenIsSmallest(catalog: seq<CatalogRecord>, box: Region, units: string, q: CatalogRecord)
    requires Chosen(catalog, box, units).Some?
    requires q in catalog && Eligible(q, units) && ContainsBox(q, box)
    ensures Chosen(catalog, box, units).value.area <= q.area
  {
    var byArea := ByArea(catalog, units);
    ByAreaMembers(catalog, units);
    var k := FirstContaining(byArea, box).value;
    var j :| 0 <= j < |byArea| && byArea[j] == q;
    assert k <= j;
  }

  /** Something is chosen exactly when some eligible record contains the box. */
  lemma ChosenExistsIff(catalog: seq<CatalogRecord>, box: Region, units: string)
    ensures Chosen(catalog, box, units).Some? <==>
      exists q :: q in catalog && Eligible(q, units) && ContainsBox(q, box)
  {
    var byArea := ByArea(catalog, units);
    ByAreaMembers(catalog, units);
    if Chosen(catalog, box, units).Some? {
      ChosenIsEligible(catalog, box, units);
    } else {
      forall q | q in catalog && Eligible(q, units)
        ensures !ContainsBox(q, box)
      {
        var j :| 0 <= j < |byArea| && byArea[j] == q;
      }
    }
  }

  /** Once the first containing record is found, it is also first among those with its key. */
  lemma {:induction false} FirstContainingWithKey(s: seq<CatalogRecord>, box: Region, k: int)
    requires FirstContaining(s, box).Some? && AreaKey(s[FirstContaining(s, box).value]) == k
    ensures FirstContaining(WithKey(s, AreaKey, k), box).Some?
    ensures WithKey(s, AreaKey, k)[FirstContaining(WithKey(s, AreaKey, k), box).value]
         == s[FirstContaining(s, box).value]
  {
    var w := WithKey(s, AreaKey, k);
    if !ContainsBox(s[0], box) {
      FirstContainingWithKey(s[1..], box, k);
      var w1 := WithKey(s[1..], AreaKey, k);
      if AreaKey(s[0]) == k {
        assert w == [s[0]] + w1;
        assert w[1..] == w1;
      } else {
        assert w == w1;
      }
    }
  }

  /**
   * Ties: among the eligible records of the chosen area, in catalog order,
   * the chosen one is the first that contains the box.
   */
  lemma ChosenIsFirstOfItsArea(catalog: seq<CatalogRecord>, box: Region, units: string)
    requires Chosen(catalog, box, units).Some?
    ensures var w := WithKey(HasUnit(catalog, units), AreaKey, Chosen(catalog, box, units).value.area);
      FirstContaining(w, box).Some? && w[FirstContaining(w, box).value] == Chosen(catalog, box, units).value
  {
    var c := Chosen(catalog, box, units).value;
    FirstContainingWithKey(ByArea(catalog, units), box, c.area);
    SortByIsStable(HasUnit(catalog, units), AreaKey, c.area);
  }

  /** The Mollweide fallback is the only answer without a footprint, so the cache never stores it. */
  lemma FallbackIffNoFootprint(catalog: seq<CatalogRecord>, box: Value, units: Value)
    requires ChoosePcs(catalog, box, units).Success?
    ensures ChoosePcs(catalog, box, units).value.1.None? <==> ChoosePcs(catalog, box, units).value.0 == WorldMollweide
  {
  }

  /** How `choose_pcs(*args, **kwargs)` binds `box` and `units` (default `'meters'`). */
  function BindChooseArguments(args: seq<Value>, kwargs: map<string, Value>): (r: Result<(Value, Value), Exception>)
    ensures r.Success? <==>
      && |args| <= 2 && kwargs.Keys <= {"box", "units"}
      && (|args| == 0 ==> "box" in kwargs)
      && (|args| >= 1 ==> "box" !in kwargs)
      && (|args| >= 2 ==> "units" !in kwargs)
    ensures r.Failure? ==> r.error.TypeError?
    ensures r.Success? && |args| == 0 ==> r.value.0 == kwargs["box"]
    ensures r.Success? && |args| >= 1 ==> r.value.0 == args[0]
    ensures r.Success? && |args| >= 2 ==> r.value.1 == args[1]
    ensures r.Success? && |args| < 2 ==> r.value.1 == if "units" in kwargs then kwargs["units"] else StrValue("meters")
  {
    if |args| > 2 || !(kwargs.Keys <= {"box", "units"})
       || (|args| >= 1 && "box" in kwargs) || (|args| >= 2 && "units" in kwargs) then
      Failure(TypeError(BindingMessage))
    else if |args| == 0 && "box" !in kwargs then Failure(TypeError(MissingBoxMessage))
    else
      var box := if |args| >= 1 then args[0] else kwargs["box"];
      var units := if |args| >= 2 then args[1] else if "units" in kwargs then kwargs["units"] else StrValue("meters");
      Success((box, units))
  }

  /** `choose_pcs` as the function the footprint cache wraps. */
  function ChoosePcsCall(catalog: seq<CatalogRecord>): FootprintCache.WrappedFn<Descriptor>
  {
    (args: seq<Value>, kwargs: map<string, Value>) =>
      match BindChooseArguments(args, kwargs)
      case Failure(e) => Failure(e)
      case Success((box, units)) =>
        match ChoosePcs(catalog, box, units)
        case Failure(e) => Failure(e)
        case Success(out) => Success(Some(out))
  }

  /** The footprint `choose_pcs` returns always contains the box it was asked about. */
  lemma ChoosePcsHonoursFootprint(catalog: seq<CatalogRecord>)
    ensures FootprintCache.HonoursFootprint(ChoosePcsCall(catalog), false)
  {
    var fn := ChoosePcsCall(catalog);
    forall args: seq<Value>, kwargs: map<string, Value> |
      FootprintCache.ShapeArgument(args, false).Success? && FootprintCache.ShapeArgument(args, false).value.Some?
      ensures FootprintCache.FootprintContains(fn(args, kwargs), FootprintCache.ShapeArgument(args, false).value.value)
    {
      var b := BindChooseArguments(args, kwargs);
      if b.Success? {
        var out := ChoosePcs(catalog, b.value.0, b.value.1);
        assert b.value.0 == args[0] == GeomValue(FootprintCache.ShapeArgument(args, false).value.value);
      }
    }
  }

  /**
   * The decorated `choose_pcs` called twice with the same arguments on a
   * fresh cache: both calls answer alike, and when a containing record
   * exists the second call is a hit.
   */
  method ChooseTwice(catalog: seq<CatalogRecord>, args: seq<Value>, kwargs: map<string, Value>)
    returns (first: Result<Option<Descriptor>, Exception>, second: Result<Option<Descriptor>, Exception>, hits: nat, misses: nat)
    ensures first == second
    ensures hits + misses <= 2
    ensures |args| >= 1 && args[0].GeomValue? && FootprintCache.Cacheable(ChoosePcsCall(catalog)(args, kwargs)) ==>
      hits == 1 && misses == 1
  {
    var cache := new FootprintCache.SpatialCacheFootprint(ChoosePcsCall(catalog), FootprintCache.DefaultMaxsize, false);
    ChoosePcsHonoursFootprint(catalog);
    assert cache.fn == ChoosePcsCall(catalog) && !cache.isMethod;
    assert cache.hits == 0 && cache.misses == 0;
    first, second := FootprintCache.CallTwice(cache, args, kwargs);
    assert |args| >= 1 && args[0].GeomValue? ==> FootprintCache.ShapeArgument(args, false).Success? && FootprintCache.ShapeArgument(args, false).value.Some?;
    hits := cache.hits;
    misses := cache.misses;
  }

  /** Two zones over the same cell, one per axis unit. */
  const MetersZone := CatalogRecord(Some({(0, 0)}), "meters", 1, 32631, "Zone in meters")
  const FeetZone := CatalogRecord(Some({(0, 0)}), "feet", 1, 2264, "Zone in feet")

  /**
   * As written, a hit ignores `units`: the cache looks only at the box. A
   * call with the default units stores the meters zone; the same box asked
   * for in feet is then answered with the meters zone, although
   * `choose_pcs` itself picks the feet zone.
   */
  method UnitsIgnoredOnHit() returns (first: Result<Option<Descriptor>, Exception>, second: Result<Option<Descriptor>, Exception>)
    ensures first == Success(Some(TransformEpsg(MetersZone)))
    ensures second == first
    ensures ChoosePcs([MetersZone, FeetZone], GeomValue({(0, 0)}), StrValue("feet"))
         == Success((TransformEpsg(FeetZone), FeetZone.geometry))
    ensures TransformEpsg(FeetZone).units != TransformEpsg(MetersZone).units
  {
    var catalog := [MetersZone, FeetZone];
    var b: Region := {(0, 0)};
    MetersZoneChosen();
    var cache := new FootprintCache.SpatialCacheFootprint(ChoosePcsCall(catalog), FootprintCache.DefaultMaxsize, false);
    var args := [GeomValue(b)];
    assert BindChooseArguments(args, map[]) == Success((GeomValue(b), StrValue("meters")));
    first := cache.Call(args, map[]);
    assert cache.entries == [FootprintCache.Entry(TransformEpsg(MetersZone), b)];
    second := cache.Call(args, map["units" := StrValue("feet")]);
  }

  /** Over the two zones, `choose_pcs` picks the zone of the requested unit. */
  lemma MetersZoneChosen()
    ensures Chosen([MetersZone, FeetZone], {(0, 0)}, "meters") == Some(MetersZone)
    ensures Chosen([MetersZone, FeetZone], {(0, 0)}, "feet") == Some(FeetZone)
  {
    var catalog := [MetersZone, FeetZone];
    assert catalog[1..] == [FeetZone] && [FeetZone][1..] == [];
    assert |"feet"| != |"meters"|;
    assert Eligible(MetersZone, "meters") && !Eligible(FeetZone, "meters");
    assert Eligible(FeetZone, "feet") && !Eligible(MetersZone, "feet");
    assert HasUnit([FeetZone], "meters") == [] && HasUnit([FeetZone], "feet") == [FeetZone];
    assert HasUnit(catalog, "meters") == [MetersZone];
    assert HasUnit(catalog, "feet") == [FeetZone];
    assert [MetersZone][1..] == [] && [FeetZone][1..] == [];
    assert ByArea(catalog, "meters") == [MetersZone];
    assert ByArea(catalog, "feet") == [FeetZone];
  }

  /** A `choose_pcs` cache entry with the units it was computed for. */
  datatype UnitsEntry = UnitsEntry(units: Value, entry: FootprintCache.Entry<Descriptor>)

  /** The corrected lookup searches only the entries computed for the requested units. */
  function SameUnits(entries: seq<UnitsEntry>, units: Value): (r: seq<FootprintCache.Entry<Descriptor>>)
    ensures forall e :: e in r <==> UnitsEntry(units, e) in entries
  {
    if entries == [] then []
    else
      var rest := SameUnits(entries[1..], units);
      assert forall ue :: ue in entries <==> ue == entries[0] || ue in entries[1..];
      if entries[0].units == units then [entries[0].entry] + rest else rest
  }

  /** The entry stores what `choose_pcs` answers for some box in its units. */
  ghost predicate Recorded(catalog: seq<CatalogRecord>, ue: UnitsEntry)
  {
    exists rec :: rec in catalog && ValidUnits(ue.units) && Eligible(rec, ue.units.text)
      && ue.entry == FootprintCache.Entry(TransformEpsg(rec), rec.geometry.value)
  }

  /** Whatever `choose_pcs` returns with a footprint is a recorded entry under its units. */
  lemma ChoosePcsEntryRecorded(catalog: seq<CatalogRecord>, box: Value, units: Value)
    requires ChoosePcs(catalog, box, units).Success? && ChoosePcs(catalog, box, units).value.1.Some?
    ensures var (d, g) := ChoosePcs(catalog, box, units).value;
      Recorded(catalog, UnitsEntry(units, FootprintCache.Entry(d, g.value)))
  {
    var c := Chosen(catalog, box.region, units.text);
    ChosenIsEligible(catalog, box.region, units.text);
    assert c.value in catalog;
  }

  /**
   * With the lookup keyed by units, a hit on recorded entries answers the
   * descriptor of an eligible catalog record in the requested units whose
   * geometry contains the box: an answer `choose_pcs` treats as valid.
   */
  lemma KeyedHitIsValid(catalog: seq<CatalogRecord>, entries: seq<UnitsEntry>, units: Value, box: Region)
    requires forall ue :: ue in entries ==> Recorded(catalog, ue)
    requires FootprintCache.FirstHit(SameUnits(entries, units), box).Some?
    ensures var e := SameUnits(entries, units)[FootprintCache.FirstHit(SameUnits(entries, units), box).value];
      && ValidUnits(units) && e.result.units == units.text
      && exists rec :: rec in catalog && Eligible(rec, units.text) && ContainsBox(rec, box) && e.result == TransformEpsg(rec)
  {
    var e := SameUnits(entries, units)[FootprintCache.FirstHit(SameUnits(entries, units), box).value];
    assert e in SameUnits(entries, units);
    assert Recorded(catalog, UnitsEntry(units, e));
    var rec :| rec in catalog && ValidUnits(units) && Eligible(rec, units.text)
      && e == FootprintCache.Entry(TransformEpsg(rec), rec.geometry.value);
    assert ContainsBox(rec, box);
  }

  /** `suggest_pcs` keeps these records: the first `n` (at least one) containing ones in `by_area`. */
  function Suggested(catalog: seq<CatalogRecord>, box: Region, units: string, n: int): (r: seq<CatalogRecord>)
    ensures |r| <= Max(n, 1)
    ensures |Containing(ByArea(catalog, units), box)| >= Max(n, 1) ==> |r| == Max(n, 1)
    ensures SortedBy(r, AreaKey)
  {
    var all := Containing(ByArea(catalog, units), box);
    ContainingSorted(ByArea(catalog, units), box);
    SortedPrefix(all, Prefix(all, Max(n, 1)), AreaKey);
    Prefix(all, Max(n, 1))
  }

  /** The records of `s` whose geometry contains `box`, in order. */
  function Containing(s: seq<CatalogRecord>, box: Region): seq<CatalogRecord>
  {
    if s == [] then []
    else Containing(s[..|s| - 1], box) + (if ContainsBox(s[|s| - 1], box) then [s[|s| - 1]] else [])
  }

  /** The filter of lines 84-88 keeps exactly the records whose geometry contains the box. */
  lemma {:induction false} ContainingMembers(s: seq<CatalogRecord>, box: Region)
    ensures |Containing(s, box)| <= |s|
    ensures forall rec :: rec in Containing(s, box) <==> rec in s && ContainsBox(rec, box)
  {
    if s != [] {
      var init := s[..|s| - 1];
      ContainingMembers(init, box);
      assert s == init + [s[|s| - 1]];
    }
  }

  lemma {:induction false} ContainingAppend(a: seq<CatalogRecord>, b: seq<CatalogRecord>, box: Region)
    ensures Containing(a + b, box) == Containing(a, box) + Containing(b, box)
  {
    if b != [] {
      var ab := a + b;
      assert ab[..|ab| - 1] == a + b[..|b| - 1];
      assert ab[|ab| - 1] == b[|b| - 1];
      ContainingAppend(a, b[..|b| - 1], box);
    } else {
      assert a + b == a;
    }
  }

  /** Filtering a prefix of `s` gives a prefix of the filtered `s`. */
  lemma ContainingPrefix(s: seq<CatalogRecord>, j: nat, box: Region)
    requires j <= |s|
    ensures var pre := Containing(s[..j], box);
      |pre| <= |Containing(s, box)| && pre == Containing(s, box)[..|pre|]
  {
    assert s == s[..j] + s[j..];
    ContainingAppend(s[..j], s[j..], box);
  }

  /** One more record examined: it is kept exactly when it contains the box. */
  lemma ContainingSnoc(s: seq<CatalogRecord>, i: nat, box: Region)
    requires i < |s|
    ensures Containing(s[..i + 1], box)
         == Containing(s[..i], box) + (if ContainsBox(s[i], box) then [s[i]] else [])
  {
    assert s[..i + 1][..i] == s[..i];
  }

  /** `suggest_pcs(box, units, n)` */
  method SuggestPcs(catalog: seq<CatalogRecord>, box: Value, units: Value, n: int) returns (r: Result<seq<Descriptor>, Exception>)
    ensures !box.GeomValue? ==> r == Failure(TypeError(BoxMessage(box)))
    ensures box.GeomValue? && !ValidUnits(units) ==> r == Failure(TypeError(SuggestUnitsMessage))
    ensures box.GeomValue? && ValidUnits(units) ==>
      r == Success(TransformAll(Suggested(catalog, box.region, units.text, n)))
  {
    if !box.GeomValue? {
      return Failure(TypeError(BoxMessage(box)));
    }
    if !ValidUnits(units) {
      return Failure(TypeError(SuggestUnitsMessage));
    }
    var byArea := ByArea(catalog, units.text);
    var suggestions: seq<CatalogRecord> := [];
    var i := 0;
    while i < |byArea|
      invariant 0 <= i <= |byArea|
      invariant suggestions == Containing(byArea[..i], box.region)
      invariant |suggestions| < Max(n, 1)
    {
      ContainingSnoc(byArea, i, box.region);
      if !ContainsBox(byArea[i], box.region) {
        i := i + 1;
        continue;
      }
      suggestions := suggestions + [byArea[i]];
      if |suggestions| >= n {
        ContainingPrefix(byArea, i + 1, box.region);
        PrefixOfLength(Containing(byArea, box.region), suggestions, Max(n, 1));
        assert suggestions == Suggested(catalog, box.region, units.text, n);
        break;
      }
      i := i + 1;
    }
    if i == |byArea| {
      assert byArea[..i] == byArea;
      PrefixOfLength(Containing(byArea, box.region), suggestions, Max(n, 1));
      assert suggestions == Suggested(catalog, box.region, units.text, n);
    }
    return Success(TransformAll(suggestions));
  }

  /** Every suggestion is an eligible catalog record containing the box. */
  lemma SuggestedAreEligible(catalog: seq<CatalogRecord>, box: Region, units: string, n: int)
    ensures forall rec :: rec in Suggested(catalog, box, units, n) ==>
      rec in catalog && Eligible(rec, units) && ContainsBox(rec, box)
  {
    ByAreaMembers(catalog, units);
    ContainingMembers(ByArea(catalog, units), box);
  }

  lemma {:induction false} ContainingSorted(s: seq<CatalogRecord>, box: Region)
    requires SortedBy(s, AreaKey)
    ensures SortedBy(Containing(s, box), AreaKey)
  {
    if s != [] {
      var init := s[..|s| - 1];
      var last := s[|s| - 1];
      assert SortedBy(init, AreaKey) by {
        forall i, j | 0 <= i < j < |init| ensures AreaKey(init[i]) <= AreaKey(init[j]) {
          assert init[i] == s[i] && init[j] == s[j];
        }
      }
      ContainingSorted(init, box);
      ContainingMembers(init, box);
      var c := Containing(s, box);
      var ci := Containing(init, box);
      if ContainsBox(last, box) {
        forall i, j | 0 <= i < j < |c| ensures AreaKey(c[i]) <= AreaKey(c[j]) {
          if j == |c| - 1 {
            assert c[i] == ci[i] && c[i] in init;
            var m :| 0 <= m < |init| && init[m] == c[i];
            assert s[m] == c[i];
          } else {
            assert c[i] == ci[i] && c[j] == ci[j];
          }
        }
      }
    }
  }

  /** Any eligible containing record left out is at least as large as every one suggested. */
  lemma SuggestedAreSmallest(catalog: seq<CatalogRecord>, box: Region, units: string, n: int, q: CatalogRecord)
    requires q in catalog && Eligible(q, units) && ContainsBox(q, box)
    requires q !in Suggested(catalog, box, units, n)
    ensures forall rec :: rec in Suggested(catalog, box, units, n) ==> rec.area <= q.area
  {
    var all := Containing(ByArea(catalog, units), box);
    var p := Suggested(catalog, box, units, n);
    ByAreaMembers(catalog, units);
    ContainingMembers(ByArea(catalog, units), box);
    ContainingSorted(ByArea(catalog, units), box);
    assert q in all;
    var j :| 0 <= j < |all| && all[j] == q;
    assert |p| <= j;
    forall rec | rec in p ensures rec.area <= q.area {
      var i :| 0 <= i < |p| && p[i] == rec;
      assert all[i] == rec;
    }
  }

  /** `Containing` keeps nothing exactly when no record contains the box. */
  lemma ContainingNone(s: seq<CatalogRecord>, box: Region)
    ensures Containing(s, box) == [] <==> FirstContaining(s, box).None?
  {
    var all := Containing(s, box);
    ContainingMembers(s, box);
    if all != [] {
      assert all[0] in s;
    }
  }

  lemma ContainingCons(s: seq<CatalogRecord>, box: Region)
    requires s != []
    ensures Containing(s, box) == (if ContainsBox(s[0], box) then [s[0]] else []) + Containing(s[1..], box)
  {
    assert s == [s[0]] + s[1..];
    ContainingAppend([s[0]], s[1..], box);
    assert [s[0]][..0] == [];
  }

  /** The first record `Containing` keeps is the one `FirstContaining` finds. */
  lemma {:induction false} ContainingHead(s: seq<CatalogRecord>, box: Region, k: nat)
    requires FirstContaining(s, box) == Some(k)
    ensures Containing(s, box) != [] && Containing(s, box)[0] == s[k]
  {
    ContainingCons(s, box);
    if k > 0 {
      ContainingHead(s[1..], box, k - 1);
    }
  }

  /** `suggest_pcs` leads with what `choose_pcs` picks, and suggests nothing exactly when it falls back. */
  lemma SuggestedStartsWithChosen(catalog: seq<CatalogRecord>, box: Region, units: string, n: int)
    ensures Suggested(catalog, box, units, n) == [] <==> Chosen(catalog, box, units).None?
    ensures Chosen(catalog, box, units).Some? ==> Suggested(catalog, box, units, n)[0] == Chosen(catalog, box, units).value
  {
    var byArea := ByArea(catalog, units);
    ContainingNone(byArea, box);
    if FirstContaining(byArea, box).Some? {
      ContainingHead(byArea, box, FirstContaining(byArea, box).value);
    }
  }
}
