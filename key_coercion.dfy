/**
 * KeyCoercion: the earliest deep key symbolizer. Every Hash-like node
 * becomes a fresh Hash (a Map a fresh Map) whose keys are the Symbols of
 * their text, every Array-like node a copy (the array wrapper a fresh
 * wrapper), with values and items symbolized recursively.
 *
 * deeply_symbolize_hash skips a key when `Symbol == k`, which compares the
 * class Symbol with the key and so never holds for a key: every key is
 * converted, and a Symbol key converts to itself.
 */
module KeyCoercion {
  import opened Keys
  import opened OrderedHash
  import opened Trees
  import opened KeyStrategy
  import Normalization
  import DeepCoercer

  /** `k.to_s.to_sym`. */
  function SymbolKey(k: Key): (r: Key)
    ensures r.Sym? && r.s == ToS(k)
    ensures k.Sym? ==> r == k
  {
    Sym(ToS(k))
  }

  /** KeyCoercion#deeply_symbolize as a value. */
  function Symbolized(t: Tree): (r: Tree)
    decreases t
    ensures t.Scalar? ==> r == t
    ensures t.HashNode? ==> r.HashNode? && r.hashKind == (if t.hashKind == MapWrapped then MapWrapped else PlainHash)
    ensures t.ArrayNode? ==> r.ArrayNode? && r.arrayKind == (if t.arrayKind == ListWrapped then ListWrapped else PlainArray)
    ensures t.ArrayNode? ==> |r.items| == |t.items|
  {
    match t
    case Scalar(_) => t
    case HashNode(kind, es) =>
      var ps := seq(|es|, i requires 0 <= i < |es| => (SymbolKey(es[i].0), Symbolized(es[i].1)));
      HashNode(if kind == MapWrapped then MapWrapped else PlainHash, FromPairs(ps))
    case ArrayNode(kind, xs) =>
      var ys := seq(|xs|, i requires 0 <= i < |xs| => Symbolized(xs[i]));
      ArrayNode(if kind == ListWrapped then ListWrapped else PlainArray, ys)
  }

  /** The pairs deeply_symbolize_hash stores, in entry order. */
  function SymbolizedPairs(es: seq<(Key, Tree)>): (r: seq<(Key, Tree)>)
    ensures |r| == |es| && forall i :: 0 <= i < |es| ==> r[i] == (SymbolKey(es[i].0), Symbolized(es[i].1))
  {
    seq(|es|, i requires 0 <= i < |es| => (SymbolKey(es[i].0), Symbolized(es[i].1)))
  }

  /** The items deeply_symbolize_array leaves in its copy. */
  function SymbolizedItems(xs: seq<Tree>): (r: seq<Tree>)
    ensures |r| == |xs| && forall i :: 0 <= i < |xs| ==> r[i] == Symbolized(xs[i])
  {
    seq(|xs|, i requires 0 <= i < |xs| => Symbolized(xs[i]))
  }

  method DeeplySymbolize(t: Tree) returns (r: Tree)
    ensures r == Symbolized(t)
    decreases t, 2
  {
    match t
    case Scalar(_) =>
      r := t;
    case HashNode(kind, es) =>
      assert SymbolizedPairs(es) == seq(|es|, i requires 0 <= i < |es| => (SymbolKey(es[i].0), Symbolized(es[i].1)));
      if kind == MapWrapped {
        r := DeeplySymbolizeMwia(t, es);
      } else {
        var h := DeeplySymbolizeHash(t, es);
        r := Hash(h);
      }
    case ArrayNode(kind, xs) =>
      assert SymbolizedItems(xs) == seq(|xs|, i requires 0 <= i < |xs| => Symbolized(xs[i]));
      if kind == ListWrapped {
        r := DeeplySymbolizeMwiaArray(t, xs);
      } else {
        var a := DeeplySymbolizeArray(t, xs);
        r := Array(a);
      }
  }

  /** deeply_symbolize_hash: a fresh Hash filled entry by entry with the symbolized key and value. */
  method DeeplySymbolizeHash(ghost owner: Tree, es: seq<(Key, Tree)>) returns (result: seq<(Key, Tree)>)
    requires owner.HashNode? && owner.entries == es
    ensures result == FromPairs(SymbolizedPairs(es))
    decreases owner, 0
  {
    result := [];
    var i := 0;
    while i < |es|
      invariant 0 <= i <= |es|
      invariant result == FromPairs(SymbolizedPairs(es[..i]))
    {
      var k := SymbolKey(es[i].0);
      EntrySmaller(owner, i);
      var v := DeeplySymbolize(es[i].1);
      PairsStep(es, i);
      result := Put(result, k, v);
      i := i + 1;
    }
    assert es[..i] == es;
  }

  /** One more entry stored: FromPairs over one more symbolized pair. */
  lemma PairsStep(es: seq<(Key, Tree)>, i: nat)
    requires i < |es|
    ensures FromPairs(SymbolizedPairs(es[..i + 1])) ==
      Put(FromPairs(SymbolizedPairs(es[..i])), SymbolKey(es[i].0), Symbolized(es[i].1))
  {
    assert SymbolizedPairs(es[..i + 1]) == SymbolizedPairs(es[..i]) + [(SymbolKey(es[i].0), Symbolized(es[i].1))];
    FromPairsAppend(SymbolizedPairs(es[..i]), (SymbolKey(es[i].0), Symbolized(es[i].1)));
  }

  /** deeply_symbolize_mwia: a new Map over the symbolized Hash. */
  method DeeplySymbolizeMwia(ghost owner: Tree, es: seq<(Key, Tree)>) returns (r: Tree)
    requires owner.HashNode? && owner.entries == es
    ensures r == HashNode(MapWrapped, FromPairs(SymbolizedPairs(es)))
    decreases owner, 1
  {
    var h := DeeplySymbolizeHash(owner, es);
    r := HashNode(MapWrapped, h);
  }

  /** deeply_symbolize_array: a copy of the Array whose items are replaced in place by their symbolized forms. */
  method DeeplySymbolizeArray(ghost owner: Tree, xs: seq<Tree>) returns (result: seq<Tree>)
    requires owner.ArrayNode? && owner.items == xs
    ensures result == SymbolizedItems(xs)
    decreases owner, 0
  {
    result := xs;
    var i := 0;
    while i < |result|
      invariant 0 <= i <= |result| == |xs|
      invariant forall j :: 0 <= j < i ==> result[j] == Symbolized(xs[j])
      invariant forall j :: i <= j < |xs| ==> result[j] == xs[j]
    {
      var item := DeeplySymbolize(result[i]);
      result := result[i := item];
      i := i + 1;
    }
  }

  /** deeply_symbolize_mwia_array: a new array wrapper over the symbolized copy of the inner Array. */
  method DeeplySymbolizeMwiaArray(ghost owner: Tree, xs: seq<Tree>) returns (r: Tree)
    requires owner.ArrayNode? && owner.items == xs
    ensures r == ArrayNode(ListWrapped, SymbolizedItems(xs))
    decreases owner, 1
  {
    var a := DeeplySymbolizeArray(owner, xs);
    r := ArrayNode(ListWrapped, a);
  }

  /** deeply_symbolize is the deep coercer run with the symbolization strategy. */
  lemma {:induction false} SameAsDeepCoercer(t: Tree)
    ensures Symbolized(t) == DeepCoercer.Copied(t, Normalization.KeySymbolization)
    decreases t
  {
    var s := Normalization.KeySymbolization;
    match t
    case Scalar(_) =>
    case HashNode(kind, es) =>
      forall i | 0 <= i < |es| ensures SymbolizedPairs(es)[i] == DeepCoercer.CopiedPairs(es, s)[i] {
        SameAsDeepCoercer(es[i].1);
        Normalization.SymbolizationKey(es[i].0);
      }
      assert SymbolizedPairs(es) == DeepCoercer.CopiedPairs(es, s);
      assert Symbolized(t).entries == FromPairs(SymbolizedPairs(es));
      assert DeepCoercer.Copied(t, s).entries == FromPairs(DeepCoercer.CopiedPairs(es, s));
    case ArrayNode(kind, xs) =>
      forall i | 0 <= i < |xs| ensures SymbolizedItems(xs)[i] == DeepCoercer.CopiedItems(xs, s)[i] {
        SameAsDeepCoercer(xs[i]);
      }
      assert SymbolizedItems(xs) == DeepCoercer.CopiedItems(xs, s);
      assert Symbolized(t).items == SymbolizedItems(xs);
      assert DeepCoercer.Copied(t, s).items == DeepCoercer.CopiedItems(xs, s);
  }

  /** After deeply_symbolize every key at every depth is a Symbol. */
  lemma {:induction false} AllKeysSymbols(t: Tree)
    ensures EveryKey(Symbolized(t), (k: Key) => k.Sym?)
    decreases t
  {
    match t
    case Scalar(_) =>
    case HashNode(kind, es) =>
      var ps := SymbolizedPairs(es);
      var r := FromPairs(ps);
      FromPairsFrom(ps);
      assert Symbolized(t).entries == r;
      forall m | 0 <= m < |r| ensures r[m].0.Sym? && EveryKey(r[m].1, (k: Key) => k.Sym?) {
        var j :| 0 <= j < |ps| && ps[j] == r[m];
        AllKeysSymbols(es[j].1);
      }
    case ArrayNode(kind, xs) =>
      forall i | 0 <= i < |xs| ensures EveryKey(Symbolized(xs[i]), (k: Key) => k.Sym?) {
        AllKeysSymbols(xs[i]);
      }
      assert Symbolized(t).items == SymbolizedItems(xs);
  }

  /**
   * The order of a Hash's entries is kept: entry i holds the Symbol of key
   * i's text with its value symbolized, when no two keys have the same text.
   */
  lemma KeepsOrder(kind: HashKind, es: seq<(Key, Tree)>)
    requires forall i, j :: 0 <= i < j < |es| ==> ToS(es[i].0) != ToS(es[j].0)
    ensures |Symbolized(HashNode(kind, es)).entries| == |es|
    ensures forall i :: 0 <= i < |es| ==> Symbolized(HashNode(kind, es)).entries[i] == (Sym(ToS(es[i].0)), Symbolized(es[i].1))
  {
    assert Symbolized(HashNode(kind, es)).entries == FromPairs(SymbolizedPairs(es));
    assert DistinctKeys(SymbolizedPairs(es));
  }
}
