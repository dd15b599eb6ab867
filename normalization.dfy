/**
 * Normalization: the two library key strategies and the deep key
 * symbolizer and stringifier built from them on DeepNormalizer.
 */
module Normalization {
  import opened Keys
  import opened Trees
  import opened KeyStrategy
  import DeepNormalizer

  /** KeySymbolizationStrategy: every key that is not a Symbol becomes `key.to_s.to_sym`. */
  const KeySymbolization := Strategy((k: Key) => !k.Sym?, (k: Key) => Sym(ToS(k)))

  /** KeyStringificationStrategy: every key that is not a String becomes `key.to_s`. */
  const KeyStringification := Strategy((k: Key) => !k.Str?, (k: Key) => Str(ToS(k)))

  /** Symbolization stores every key as the Symbol of its text: Symbols are kept and 3 becomes :'3'. */
  lemma SymbolizationKey(k: Key)
    ensures KeySymbolization.needsCoercion(k) <==> !k.Sym?
    ensures CoerceKey(KeySymbolization, k) == Sym(ToS(k))
    ensures CoerceKey(KeySymbolization, Int(3)) == Sym("3")
  {
  }

  /** Stringification stores every key as its text: Strings are kept and :a becomes "a". */
  lemma StringificationKey(k: Key)
    ensures KeyStringification.needsCoercion(k) <==> !k.Str?
    ensures CoerceKey(KeyStringification, k) == Str(ToS(k))
    ensures CoerceKey(KeyStringification, Int(3)) == Str("3")
  {
  }

  /** Both strategies produce keys that need no further coercion. */
  lemma StrategiesSettled()
    ensures Settled(KeySymbolization) && Settled(KeyStringification)
  {
  }

  /** Normalization#deeply_symbolize_keys, as a value. */
  function DeepSymbolized(t: Tree): Tree {
    DeepNormalizer.Called(t, KeySymbolization)
  }

  /** Normalization#deeply_stringify_keys, as a value. */
  function DeepStringified(t: Tree): Tree {
    DeepNormalizer.Called(t, KeyStringification)
  }

  method DeeplySymbolizeKeys(t: Tree) returns (r: Tree)
    requires WellFormed(t)
    ensures r == DeepSymbolized(t)
  {
    r := DeepNormalizer.Call(t, KeySymbolization);
  }

  method DeeplyStringifyKeys(t: Tree) returns (r: Tree)
    requires WellFormed(t)
    ensures r == DeepStringified(t)
  {
    r := DeepNormalizer.Call(t, KeyStringification);
  }

  /** After deeply_symbolize_keys every key at every depth is a Symbol. */
  lemma SymbolizedKeysAreSymbols(t: Tree)
    ensures EveryKey(DeepSymbolized(t), (k: Key) => k.Sym?)
  {
    StrategiesSettled();
    DeepNormalizer.CalledKeysSettled(t, KeySymbolization);
    EveryKeyWeaken(DeepSymbolized(t), DeepNormalizer.Untouched(KeySymbolization), (k: Key) => k.Sym?);
  }

  /** After deeply_stringify_keys every key at every depth is a String. */
  lemma StringifiedKeysAreStrings(t: Tree)
    ensures EveryKey(DeepStringified(t), (k: Key) => k.Str?)
  {
    StrategiesSettled();
    DeepNormalizer.CalledKeysSettled(t, KeyStringification);
    EveryKeyWeaken(DeepStringified(t), DeepNormalizer.Untouched(KeyStringification), (k: Key) => k.Str?);
  }

  /**
   * deeply_stringify_keys keeps the order of a top-level Hash: entry i holds
   * the text of key i with its value stringified, when no two keys have the
   * same text.
   */
  lemma StringifyKeepsOrder(es: seq<(Key, Tree)>)
    requires forall i, j :: 0 <= i < j < |es| ==> ToS(es[i].0) != ToS(es[j].0)
    ensures |DeepStringified(Hash(es)).entries| == |es|
    ensures forall i :: 0 <= i < |es| ==>
      DeepStringified(Hash(es)).entries[i] == (Str(ToS(es[i].0)), DeepNormalizer.Coerced(es[i].1, KeyStringification).0)
  {
    forall i, j | 0 <= i < j < |es| ensures CoerceKey(KeyStringification, es[i].0) != CoerceKey(KeyStringification, es[j].0) {
      StringificationKey(es[i].0);
      StringificationKey(es[j].0);
    }
    DeepNormalizer.HashEntriesInOrder(PlainHash, es, KeyStringification);
    forall i | 0 <= i < |es| ensures CoerceKey(KeyStringification, es[i].0) == Str(ToS(es[i].0)) {
      StringificationKey(es[i].0);
    }
  }

  /** The same for deeply_symbolize_keys. */
  lemma SymbolizeKeepsOrder(es: seq<(Key, Tree)>)
    requires forall i, j :: 0 <= i < j < |es| ==> ToS(es[i].0) != ToS(es[j].0)
    ensures |DeepSymbolized(Hash(es)).entries| == |es|
    ensures forall i :: 0 <= i < |es| ==>
      DeepSymbolized(Hash(es)).entries[i] == (Sym(ToS(es[i].0)), DeepNormalizer.Coerced(es[i].1, KeySymbolization).0)
  {
    forall i, j | 0 <= i < j < |es| ensures CoerceKey(KeySymbolization, es[i].0) != CoerceKey(KeySymbolization, es[j].0) {
      SymbolizationKey(es[i].0);
      SymbolizationKey(es[j].0);
    }
    DeepNormalizer.HashEntriesInOrder(PlainHash, es, KeySymbolization);
    forall i | 0 <= i < |es| ensures CoerceKey(KeySymbolization, es[i].0) == Sym(ToS(es[i].0)) {
      SymbolizationKey(es[i].0);
    }
  }
}
