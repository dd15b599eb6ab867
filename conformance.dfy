/**
 * Key conformance: the rule by which a Map finds the entry of its inner Hash
 * that a String or Symbol key refers to.
 */
module Conformance {
  import opened Wrappers
  import opened Keys
  import opened OrderedHash

  /**
   * Map#conform_key: the given key if the inner Hash holds it, else its
   * String/Symbol alternate if the inner Hash holds that, else the given key.
   */
  function ConformKey<V>(es: Entries<V>, k: Key): (r: Key)
    ensures r == k || Alternate(k) == Some(r)
    ensures HasKey(es, k) ==> r == k
    ensures !HasKey(es, k) && Alternate(k).Some? && HasKey(es, Alternate(k).value) ==> r == Alternate(k).value
    ensures !HasKey(es, r) ==> r == k
  {
    match k
    case Str(s) =>
      var alt := if HasKey(es, k) then k else Sym(s);
      if HasKey(es, alt) then alt else k
    case Sym(s) =>
      var alt := if HasKey(es, k) then k else Str(s);
      if HasKey(es, alt) then alt else k
    case Int(_) => k
  }

  /** Map#key?: the key or its String/Symbol alternate is a key of the inner Hash. */
  predicate KeyPresent<V>(es: Entries<V>, k: Key): (r: bool)
    ensures r <==> HasKey(es, ConformKey(es, k))
  {
    match k
    case Str(s) => HasKey(es, k) || HasKey(es, Sym(s))
    case Sym(s) => HasKey(es, k) || HasKey(es, Str(s))
    case Int(_) => HasKey(es, k)
  }

  /** Conforming twice is conforming once. */
  lemma ConformIdempotent<V>(es: Entries<V>, k: Key)
    ensures ConformKey(es, ConformKey(es, k)) == ConformKey(es, k)
  {
  }

  /** The two forms of a String/Symbol key conform alike whenever at most one of them is held. */
  lemma ConformIndifferent<V>(es: Entries<V>, k: Key)
    requires Alternate(k).Some?
    requires !(HasKey(es, k) && HasKey(es, Alternate(k).value))
    requires KeyPresent(es, k)
    ensures ConformKey(es, k) == ConformKey(es, Alternate(k).value)
  {
  }

  /** A Hash holds no two keys that are each other's String/Symbol alternates. */
  predicate IndifferentlyDistinct<V>(es: Entries<V>) {
    forall i, j :: 0 <= i < |es| && 0 <= j < |es| ==> Alternate(es[i].0) != Some(es[j].0)
  }
}
