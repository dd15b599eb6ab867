/**
 * The objects the library handles. The host collections a Map or List wraps
 * are heap objects (a Map and the Hash it wraps share that Hash, so an update
 * through either is seen by both); every other value is immutable.
 */
module Values {
  import opened Wrappers
  import opened Keys
  import OrderedHash

  /** A host Hash object. */
  class HashBox {
    var entries: seq<(Key, Val)>

    ghost predicate Valid()
      reads this
    {
      OrderedHash.DistinctKeys(entries)
    }

    constructor (es: seq<(Key, Val)>)
      ensures entries == es
      ensures OrderedHash.DistinctKeys(es) ==> Valid()
    {
      entries := es;
    }
  }

  /** A host Array object. */
  class ArrayBox {
    var items: seq<Val>

    constructor (xs: seq<Val>)
      ensures items == xs
    {
      items := xs;
    }
  }

  /**
   * A value as the library sees it. A Map or List wrapper is identified with
   * the host collection it wraps. HashLike and ArrayLike are other objects that
   * answer `to_hash` / `to_ary` with a host collection.
   */
  datatype Val =
    | Nil
    | Atom(key: Key)
    | RawHash(hash: HashBox)
    | RawArray(array: ArrayBox)
    | MapView(innerMap: HashBox)
    | ListView(innerArray: ArrayBox)
    | HashLike(toHash: HashBox)
    | ArrayLike(toAry: ArrayBox)

  /** The values Values.externalize leaves alone: anything that is not a host collection or convertible to one. */
  predicate IsPlain(v: Val) {
    v.Nil? || v.Atom?
  }

  /** Map.try_convert: a Map as is, else a new Map over what Hash.try_convert yields. */
  function MapTryConvert(v: Val): (r: Option<Val>)
    ensures r.Some? <==> v.RawHash? || v.MapView? || v.HashLike?
    ensures r.Some? ==> r.value.MapView?
    ensures v.MapView? ==> r == Some(v)
  {
    match v
    case MapView(_) => Some(v)
    case RawHash(h) => Some(MapView(h))
    case HashLike(h) => Some(MapView(h))
    case _ => None
  }

  /** Map.try_deconstruct: the inner Hash of a Map, or what `to_hash` yields. */
  function MapTryDeconstruct(v: Val): (r: Option<HashBox>)
    ensures r.Some? <==> v.RawHash? || v.MapView? || v.HashLike?
    ensures r.Some? ==> MapTryConvert(v) == Some(MapView(r.value))
  {
    match v
    case MapView(h) => Some(h)
    case RawHash(h) => Some(h)
    case HashLike(h) => Some(h)
    case _ => None
  }

  /** List.try_convert: a List as is, else a new List over what Array.try_convert yields. */
  function ListTryConvert(v: Val): (r: Option<Val>)
    ensures r.Some? <==> v.RawArray? || v.ListView? || v.ArrayLike?
    ensures r.Some? ==> r.value.ListView?
    ensures v.ListView? ==> r == Some(v)
  {
    match v
    case ListView(_) => Some(v)
    case RawArray(a) => Some(ListView(a))
    case ArrayLike(a) => Some(ListView(a))
    case _ => None
  }

  /** List.try_deconstruct: the inner Array of a List, or what `to_ary` yields. */
  function ListTryDeconstruct(v: Val): (r: Option<ArrayBox>)
    ensures r.Some? <==> v.RawArray? || v.ListView? || v.ArrayLike?
    ensures r.Some? ==> ListTryConvert(v) == Some(ListView(r.value))
  {
    match v
    case ListView(a) => Some(a)
    case RawArray(a) => Some(a)
    case ArrayLike(a) => Some(a)
    case _ => None
  }

  /**
   * Values.externalize: the Map or List form of a value that is or converts to
   * a Hash or Array, wrapping the very same host collection; anything else as is.
   */
  function Externalize(v: Val): (r: Val)
    ensures r.MapView? || r.ListView? || IsPlain(r)
    ensures IsPlain(v) || v.MapView? || v.ListView? ==> r == v
    ensures MapTryDeconstruct(v).Some? ==> r == MapView(MapTryDeconstruct(v).value)
    ensures ListTryDeconstruct(v).Some? ==> r == ListView(ListTryDeconstruct(v).value)
  {
    match MapTryConvert(v)
    case Some(m) => m
    case None =>
      match ListTryConvert(v)
      case Some(l) => l
      case None => v
  }

  /**
   * Values.internalize: the host collection behind a Map or List, or the one a
   * convertible object yields; anything else as is.
   */
  function Internalize(v: Val): (r: Val)
    ensures r.RawHash? || r.RawArray? || IsPlain(r)
    ensures IsPlain(v) || v.RawHash? || v.RawArray? ==> r == v
    ensures MapTryDeconstruct(v).Some? ==> r == RawHash(MapTryDeconstruct(v).value)
    ensures ListTryDeconstruct(v).Some? ==> r == RawArray(ListTryDeconstruct(v).value)
  {
    match MapTryDeconstruct(v)
    case Some(h) => RawHash(h)
    case None =>
      match ListTryDeconstruct(v)
      case Some(a) => RawArray(a)
      case None => v
  }

  /** Externalizing twice is externalizing once; likewise internalizing. */
  lemma ConversionsIdempotent(v: Val)
    ensures Externalize(Externalize(v)) == Externalize(v)
    ensures Internalize(Internalize(v)) == Internalize(v)
  {
  }

  /**
   * Each conversion sees through the other: both forms of a value share the
   * same host collection, and a raw collection or a wrapper survives the
   * round trip by identity.
   */
  lemma ConversionsRoundTrip(v: Val)
    ensures Internalize(Externalize(v)) == Internalize(v)
    ensures Externalize(Internalize(v)) == Externalize(v)
    ensures v.RawHash? || v.RawArray? || IsPlain(v) ==> Internalize(Externalize(v)) == v
    ensures v.MapView? || v.ListView? || IsPlain(v) ==> Externalize(Internalize(v)) == v
  {
  }
}
