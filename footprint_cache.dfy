/**
 * `spatial_cache_footprint`: memoises a function that returns a result
 * together with the footprint over which that result stays valid. A later
 * call whose shape lies inside a stored footprint is answered from the
 * cache. The list is newest first, bounded by `maxsize`, and evicts from
 * the tail; a hit does not move its entry.
 */
module FootprintCache {
  import opened Wrappers
  import opened Geometry
  import opened Values

  const DefaultMaxsize: int := 128

  /** One `(result, footprint)` pair of the cache list. */
  datatype Entry<R> = Entry(result: R, footprint: Region)

  /**
   * The wrapped function, given the positional and keyword arguments: it
   * raises, returns None, or returns `(result, footprint)` where a None
   * footprint marks a result that must not be cached.
   */
  type WrappedFn<!R> = (seq<Value>, map<string, Value>) -> Result<Option<(R, Option<Region>)>, Exception>

  const NoArgsMessage := "zero args passed to function expecting one (spatial_cache_footprint)"
  const NotGeometryMessage := "first arg passed to spatial_cache_footprint is not a shapely BaseGeometry, or None"

  /** Where the shape sits: after `self` when the wrapped function is a method. */
  function ShapePosition(isMethod: bool): nat
  {
    if isMethod then 1 else 0
  }

  /**
   * The argument checks made before anything else: the shape, None, or the
   * TypeError raised when the shape argument is missing or is neither None
   * nor a geometry.
   */
  function ShapeArgument(args: seq<Value>, isMethod: bool): (r: Result<Option<Region>, Exception>)
    ensures r.Failure? <==> |args| <= ShapePosition(isMethod) || !IsGeometryOrNone(args[ShapePosition(isMethod)])
    ensures r.Success? && r.value.Some? ==> args[ShapePosition(isMethod)] == GeomValue(r.value.value)
    ensures r.Success? && r.value.None? ==> args[ShapePosition(isMethod)] == NoneValue
  {
    var pos := ShapePosition(isMethod);
    if |args| <= pos then Failure(TypeError(NoArgsMessage))
    else if !IsGeometryOrNone(args[pos]) then Failure(TypeError(NotGeometryMessage))
    else if args[pos].NoneValue? then Success(None)
    else Success(Some(args[pos].region))
  }

  /** The index of the first entry whose footprint contains `shape`. */
  function FirstHit<R>(entries: seq<Entry<R>>, shape: Region): (k: Option<nat>)
    ensures k.Some? ==> k.value < |entries| && Contains(entries[k.value].footprint, shape)
    ensures forall j :: 0 <= j < |entries| && (k.None? || j < k.value) ==> !Contains(entries[j].footprint, shape)
  {
    if entries == [] then None
    else if Contains(entries[0].footprint, shape) then Some(0)
    else
      match FirstHit(entries[1..], shape)
      case None => None
      case Some(j) => Some(j + 1)
  }

  /**
   * A shape that one already found contains hits as well, at the same entry
   * or an earlier one.
   */
  lemma SmallerShapeHits<R>(entries: seq<Entry<R>>, outer: Region, inner: Region)
    requires FirstHit(entries, outer).Some? && Contains(outer, inner)
    ensures FirstHit(entries, inner).Some? && FirstHit(entries, inner).value <= FirstHit(entries, outer).value
  {
  }

  /** The lookup as a whole: a None shape never hits. */
  function Lookup<R>(entries: seq<Entry<R>>, shape: Option<Region>): Option<nat>
  {
    if shape.None? then None else FirstHit(entries, shape.value)
  }

  /**
   * What a wrapped function owes the cache: whenever it returns a
   * footprint for a shape, the shape lies inside that footprint.
   */
  ghost predicate HonoursFootprint<R>(fn: WrappedFn<R>, isMethod: bool)
  {
    forall args: seq<Value>, kwargs: map<string, Value> ::
      ShapeArgument(args, isMethod).Success? && ShapeArgument(args, isMethod).value.Some? ==>
        FootprintContains(fn(args, kwargs), ShapeArgument(args, isMethod).value.value)
  }

  /** A returned footprint, if any, includes `shape`. */
  predicate FootprintContains<R>(out: Result<Option<(R, Option<Region>)>, Exception>, shape: Region)
  {
    out.Success? && out.value.Some? && out.value.value.1.Some? ==> shape <= out.value.value.1.value
  }

  /** The wrapped function's answer is one the cache stores. */
  predicate Cacheable<R>(out: Result<Option<(R, Option<Region>)>, Exception>)
  {
    out.Success? && out.value.Some? && out.value.value.1.Some?
  }

  /** A fresh entry for a shape inside its footprint is found first. */
  lemma HitAfterInsert<R>(entries: seq<Entry<R>>, e: Entry<R>, maxsize: int, shape: Region)
    requires Contains(e.footprint, shape)
    ensures FirstHit(PushFront(entries, e, maxsize), shape) == Some(0)
  {
  }

  /** The state closed over by the decorated function: the list and `cache_info`. */
  class SpatialCacheFootprint<R> {
    const fn: WrappedFn<R>
    const maxsize: int
    /** Whether the wrapped function's first parameter is named `self`. */
    const isMethod: bool
    var entries: seq<Entry<R>>
    var hits: nat
    var misses: nat

    ghost predicate Valid()
      reads this
    {
      |entries| <= Max(maxsize, 1)
    }

    constructor (fn: WrappedFn<R>, maxsize: int, isMethod: bool)
      ensures Valid()
      ensures this.fn == fn && this.maxsize == maxsize && this.isMethod == isMethod
      ensures entries == [] && hits == 0 && misses == 0
    {
      this.fn := fn;
      this.maxsize := maxsize;
      this.isMethod := isMethod;
      entries := [];
      hits := 0;
      misses := 0;
    }

    /** `check_cache_first(*args, **kwargs)` */
    method Call(args: seq<Value>, kwargs: map<string, Value>) returns (r: Result<Option<R>, Exception>)
      requires Valid()
      modifies this
      ensures Valid()
      ensures ShapeArgument(args, isMethod).Failure? ==>
        && r == Failure(ShapeArgument(args, isMethod).error)
        && entries == old(entries) && hits == old(hits) && misses == old(misses)
      ensures ShapeArgument(args, isMethod).Success? && Lookup(old(entries), ShapeArgument(args, isMethod).value).Some? ==>
        && r == Success(Some(old(entries)[Lookup(old(entries), ShapeArgument(args, isMethod).value).value].result))
        && entries == old(entries) && hits == old(hits) + 1 && misses == old(misses)
      ensures ShapeArgument(args, isMethod).Success? && Lookup(old(entries), ShapeArgument(args, isMethod).value).None? ==>
        && hits == old(hits) && misses == old(misses) + 1
        && match fn(args, kwargs)
           case Failure(e) => r == Failure(e) && entries == old(entries)
           case Success(None) => r == Success(None) && entries == old(entries)
           case Success(Some((res, footprint))) =>
             && r == Success(Some(res))
             && entries == if footprint.Some? then PushFront(old(entries), Entry(res, footprint.value), maxsize)
                           else old(entries)
    {
      var shapeArg := ShapeArgument(args, isMethod);
      if shapeArg.Failure? {
        return Failure(shapeArg.error);
      }
      var shape := shapeArg.value;
      if shape.Some? {
        var i := 0;
        while i < |entries|
          invariant 0 <= i <= |entries|
          invariant forall j :: 0 <= j < i ==> !Contains(entries[j].footprint, shape.value)
        {
          if Contains(entries[i].footprint, shape.value) {
            hits := hits + 1;
            return Success(Some(entries[i].result));
          }
          i := i + 1;
        }
      }
      misses := misses + 1;
      var out := fn(args, kwargs);
      if out.Failure? {
        return Failure(out.error);
      }
      if out.value.None? {
        return Success(None);
      }
      var (res, footprint) := out.value.value;
      if footprint.Some? {
        entries := PushFront(entries, Entry(res, footprint.value), maxsize);
      }
      r := Success(Some(res));
    }
  }

  /**
   * Two identical calls in a row give the same answer, provided the
   * wrapped function honours its footprints; when the first stores an
   * entry for a non-empty shape, the second is a hit on it. An empty shape
   * is contained in no footprint, so it misses every time.
   */
  method CallTwice<R>(cache: SpatialCacheFootprint<R>, args: seq<Value>, kwargs: map<string, Value>)
    returns (first: Result<Option<R>, Exception>, second: Result<Option<R>, Exception>)
    requires cache.Valid() && HonoursFootprint(cache.fn, cache.isMethod)
    modifies cache
    ensures cache.Valid()
    ensures first == second
    ensures cache.hits + cache.misses <= old(cache.hits) + old(cache.misses) + 2
    ensures ShapeArgument(args, cache.isMethod).Success? && old(cache.entries) == [] ==>
      cache.misses >= old(cache.misses) + 1
    ensures ShapeArgument(args, cache.isMethod).Success? && ShapeArgument(args, cache.isMethod).value.Some?
            && ShapeArgument(args, cache.isMethod).value.value != {} && Cacheable(cache.fn(args, kwargs)) ==>
      cache.misses <= old(cache.misses) + 1 && cache.hits >= old(cache.hits) + 1
  {
    first := cache.Call(args, kwargs);
    second := cache.Call(args, kwargs);
  }
}
