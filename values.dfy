/**
 * The Python values the decorators inspect, the exceptions they raise, and
 * the list slicing with which they evict old entries.
 */
module Values {
  import opened Geometry

  /** A positional or keyword argument, as far as the caches look at it. */
  datatype Value =
    | NoneValue
    | GeomValue(region: Region)
    | StrValue(text: string)
    | IntValue(number: int)
    | ObjectValue(id: nat)

  datatype Exception =
    | TypeError(message: string)
    | KeyError(key: string)
    | NoProjectionFoundError
    | OtherError(name: string)

  /** `x is None or isinstance(x, BaseGeometry)` */
  predicate IsGeometryOrNone(v: Value)
  {
    v.NoneValue? || v.GeomValue?
  }

  /** `type(v)` as `'%s'` prints it. */
  function TypeName(v: Value): string
  {
    match v
    case NoneValue => "<class 'NoneType'>"
    case GeomValue(_) => "<class 'shapely.geometry.polygon.Polygon'>"
    case StrValue(_) => "<class 'str'>"
    case IntValue(_) => "<class 'int'>"
    case ObjectValue(_) => "<class 'object'>"
  }

  function Max(a: int, b: int): int
  {
    if a < b then b else a
  }

  /**
   * `s[:k]`: a negative bound counts from the end; both kinds are clamped
   * to the list.
   */
  function Prefix<T>(s: seq<T>, k: int): (p: seq<T>)
    ensures |p| <= |s| && p == s[..|p|]
    ensures k >= 0 ==> |p| == if k <= |s| then k else |s|
    ensures k < 0 ==> |p| == Max(|s| + k, 0)
  {
    if k >= 0 then (if k <= |s| then s[..k] else s)
    else if |s| + k >= 0 then s[..|s| + k]
    else []
  }

  /**
   * `[e] + s[:maxsize-1]`, the update both decorators apply when they
   * store a new entry.
   */
  function PushFront<T>(s: seq<T>, e: T, maxsize: int): (r: seq<T>)
    ensures 1 <= |r| <= |s| + 1 && r[0] == e && r[1..] == s[..|r| - 1]
    ensures maxsize >= 1 ==> |r| == if |s| < maxsize then |s| + 1 else maxsize
    ensures maxsize <= 0 ==> |r| == 1 + Max(|s| + maxsize - 1, 0)
    ensures |s| < maxsize ==> r == [e] + s
  {
    [e] + Prefix(s, maxsize - 1)
  }

  /** An entry survives a `PushFront` only if it was there before. */
  lemma PushFrontMembers<T>(s: seq<T>, e: T, maxsize: int, x: T)
    requires x in PushFront(s, e, maxsize)
    ensures x == e || x in s
  {
    var r := PushFront(s, e, maxsize);
    if x != e {
      assert x in r[1..];
    }
  }

  /** A prefix of `s` of length `k`, or all of a shorter `s`, is `s[:k]`. */
  lemma PrefixOfLength<T>(s: seq<T>, pre: seq<T>, k: int)
    requires |pre| <= |s| && pre == s[..|pre|]
    requires |pre| == k || (|pre| == |s| && |pre| < k)
    ensures Prefix(s, k) == pre
  {
  }
}
