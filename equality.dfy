/**
 * Ruby `==` as the wrappers define it: a Map equals any Hash-like object with
 * the same number of entries whose values match key by key under String/Symbol
 * indifference, a List equals any Array-like object of the same length whose
 * items match position by position, and items are compared in their
 * externalized form, so nested host collections compare as Maps and Lists.
 *
 * Ruby recurses without bound; here `depth` bounds how many levels of nested
 * collections are compared, and a comparison that would go deeper answers false.
 */
module Equality {
  import opened Wrappers
  import opened Keys
  import opened OrderedHash
  import opened Conformance
  import opened Values

  /** `a == b` for an externalized receiver a: Map#== or List#== for collections, identity of value otherwise. */
  function ValEq(a: Val, b: Val, depth: nat): bool
    reads *
    decreases depth, 1
  {
    match Externalize(a)
    case MapView(h) => MapEq(h, b, depth)
    case ListView(x) => ListEq(x, b, depth)
    case _ => a == b
  }

  /** Whether the entry e of the receiver finds an equal value under the conformation of its key in es. */
  predicate EntryMatches(e: (Key, Val), es: Entries<Val>, depth: nat)
    reads *
    decreases depth, 2
  {
    var ck := ConformKey(es, e.0);
    HasKey(es, ck) && ValEq(Externalize(e.1), Externalize(Get(es, ck).value), depth)
  }

  /** Map#== for the Map over h. */
  function MapEq(h: HashBox, other: Val, depth: nat): bool
    reads *
    decreases depth, 0
  {
    match MapTryConvert(other)
    case None => false
    case Some(o) =>
      var oh := o.innerMap;
      oh == h ||
      (|h.entries| == |oh.entries| &&
       forall i :: 0 <= i < |h.entries| ==> depth > 0 && EntryMatches(h.entries[i], oh.entries, depth - 1))
  }

  /** List#== for the List over x. */
  function ListEq(x: ArrayBox, other: Val, depth: nat): bool
    reads *
    decreases depth, 0
  {
    match ListTryDeconstruct(other)
    case None => false
    case Some(ox) =>
      (other.ListView? && ox == x) ||
      (|x.items| == |ox.items| &&
       forall i :: 0 <= i < |x.items| ==> depth > 0 && ValEq(Externalize(x.items[i]), Externalize(ox.items[i]), depth - 1))
  }
}
