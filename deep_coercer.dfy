/**
 * DeepCoercer: the older deep key coercer, parameterized by a key strategy,
 * which always builds new containers. A Hash or hash-like object becomes a
 * fresh Hash, a Map a fresh Map over the coerced Hash, an Array or
 * array-like object a copy whose items are coerced in place, and the old
 * array wrapper a fresh wrapper over the coerced copy.
 */
module DeepCoercer {
  import opened Keys
  import opened OrderedHash
  import opened Trees
  import opened KeyStrategy
  import DeepNormalizer

  /**
   * DeepCoercer#call as a value. A Map and the array wrapper keep their
   * kind; every other Hash-like or Array-like node becomes raw; plain values
   * come back as they are.
   */
  function Copied(t: Tree, s: Strategy): (r: Tree)
    decreases t
    ensures t.Scalar? ==> r == t
    ensures t.HashNode? ==> r.HashNode? && r.hashKind == (if t.hashKind == MapWrapped then MapWrapped else PlainHash)
    ensures t.ArrayNode? ==> r.ArrayNode? && r.arrayKind == (if t.arrayKind == ListWrapped then ListWrapped else PlainArray)
    ensures t.ArrayNode? ==> |r.items| == |t.items|
  {
    match t
    case Scalar(_) => t
    case HashNode(kind, es) =>
      var ps := seq(|es|, i requires 0 <= i < |es| => (CoerceKey(s, es[i].0), Copied(es[i].1, s)));
      HashNode(if kind == MapWrapped then MapWrapped else PlainHash, FromPairs(ps))
    case ArrayNode(kind, xs) =>
      var ys := seq(|xs|, i requires 0 <= i < |xs| => Copied(xs[i], s));
      ArrayNode(if kind == ListWrapped then ListWrapped else PlainArray, ys)
  }

  /** The pairs coerce_hash stores, in entry order: each key coerced when it needs it, each value coerced. */
  function CopiedPairs(es: seq<(Key, Tree)>, s: Strategy): (r: seq<(Key, Tree)>)
    ensures |r| == |es| && forall i :: 0 <= i < |es| ==> r[i] == (CoerceKey(s, es[i].0), Copied(es[i].1, s))
  {
    seq(|es|, i requires 0 <= i < |es| => (CoerceKey(s, es[i].0), Copied(es[i].1, s)))
  }

  /** The items coerce_array leaves in its copy. */
  function CopiedItems(xs: seq<Tree>, s: Strategy): (r: seq<Tree>)
    ensures |r| == |xs| && forall i :: 0 <= i < |xs| ==> r[i] == Copied(xs[i], s)
  {
    seq(|xs|, i requires 0 <= i < |xs| => Copied(xs[i], s))
  }

  method Call(t: Tree, s: Strategy) returns (r: Tree)
    ensures r == Copied(t, s)
    decreases t, 2
  {
    match t
    case Scalar(_) =>
      r := t;
    case HashNode(kind, es) =>
      assert CopiedPairs(es, s) == seq(|es|, i requires 0 <= i < |es| => (CoerceKey(s, es[i].0), Copied(es[i].1, s)));
      if kind == MapWrapped {
        r := CoerceMwia(t, es, s);
      } else {
        var h := CoerceHash(t, es, s);
        r := Hash(h);
      }
    case ArrayNode(kind, xs) =>
      assert CopiedItems(xs, s) == seq(|xs|, i requires 0 <= i < |xs| => Copied(xs[i], s));
      if kind == ListWrapped {
        r := CoerceMwiaArray(t, xs, s);
      } else {
        var a := CoerceArray(t, xs, s);
        r := Array(a);
      }
  }

  /** coerce_hash: a fresh Hash filled entry by entry with the coerced key and the coerced value. */
  method CoerceHash(ghost owner: Tree, es: seq<(Key, Tree)>, s: Strategy) returns (result: seq<(Key, Tree)>)
    requires owner.HashNode? && owner.entries == es
    ensures result == FromPairs(CopiedPairs(es, s))
    decreases owner, 0
  {
    result := [];
    var i := 0;
    while i < |es|
      invariant 0 <= i <= |es|
      invariant result == FromPairs(CopiedPairs(es[..i], s))
    {
      var k := es[i].0;
      if s.needsCoercion(k) {
        k := s.coerce(k);
      }
      var v := Call(es[i].1, s);
      PairsStep(es, i, s);
      result := Put(result, k, v);
      i := i + 1;
    }
    assert es[..i] == es;
  }

  /** One more entry stored: FromPairs over one more coerced pair. */
  lemma PairsStep(es: seq<(Key, Tree)>, i: nat, s: Strategy)
    requires i < |es|
    ensures FromPairs(CopiedPairs(es[..i + 1], s)) ==
      Put(FromPairs(CopiedPairs(es[..i], s)), CoerceKey(s, es[i].0), Copied(es[i].1, s))
  {
    assert es[..i + 1] == es[..i] + [es[i]];
    CopiedPairsAppend(es[..i], es[i], s);
    FromPairsAppend(CopiedPairs(es[..i], s), (CoerceKey(s, es[i].0), Copied(es[i].1, s)));
  }

  lemma CopiedPairsAppend(es: seq<(Key, Tree)>, e: (Key, Tree), s: Strategy)
    ensures CopiedPairs(es + [e], s) == CopiedPairs(es, s) + [(CoerceKey(s, e.0), Copied(e.1, s))]
  {
    var longer := CopiedPairs(es + [e], s);
    var appended := CopiedPairs(es, s) + [(CoerceKey(s, e.0), Copied(e.1, s))];
    forall j | 0 <= j < |longer|
      ensures longer[j] == appended[j]
    {
      if j < |es| {
        assert (es + [e])[j] == es[j];
      }
    }
  }

  /** coerce_mwia: a new Map over the coerced Hash. */
  method CoerceMwia(ghost owner: Tree, es: seq<(Key, Tree)>, s: Strategy) returns (r: Tree)
    requires owner.HashNode? && owner.entries == es
    ensures r == HashNode(MapWrapped, FromPairs(CopiedPairs(es, s)))
    decreases owner, 1
  {
    var h := CoerceHash(owner, es, s);
    r := HashNode(MapWrapped, h);
  }

  /** coerce_array: a copy of the Array whose items are then replaced in place by their coerced forms. */
  method CoerceArray(ghost owner: Tree, xs: seq<Tree>, s: Strategy) returns (result: seq<Tree>)
    requires owner.ArrayNode? && owner.items == xs
    ensures result == CopiedItems(xs, s)
    decreases owner, 0
  {
    result := xs;
    var i := 0;
    while i < |result|
      invariant 0 <= i <= |result| == |xs|
      invariant forall j :: 0 <= j < i ==> result[j] == Copied(xs[j], s)
      invariant forall j :: i <= j < |xs| ==> result[j] == xs[j]
    {
      var item := Call(result[i], s);
      result := result[i := item];
      i := i + 1;
    }
  }

  /** coerce_mwia_array: a new array wrapper over the coerced copy of the inner Array. */
  method CoerceMwiaArray(ghost owner: Tree, xs: seq<Tree>, s: Strategy) returns (r: Tree)
    requires owner.ArrayNode? && owner.items == xs
    ensures r == ArrayNode(ListWrapped, CopiedItems(xs, s))
    decreases owner, 1
  {
    var a := CoerceArray(owner, xs, s);
    r := ArrayNode(ListWrapped, a);
  }

  /** A Hash's result lists, in entry order, each coerced key with its coerced value, when no two keys coerce alike. */
  lemma HashEntriesInOrder(kind: HashKind, es: seq<(Key, Tree)>, s: Strategy)
    requires forall i, j :: 0 <= i < j < |es| ==> CoerceKey(s, es[i].0) != CoerceKey(s, es[j].0)
    ensures |Copied(HashNode(kind, es), s).entries| == |es|
    ensures forall i :: 0 <= i < |es| ==>
      Copied(HashNode(kind, es), s).entries[i] == (CoerceKey(s, es[i].0), Copied(es[i].1, s))
  {
    assert Copied(HashNode(kind, es), s).entries == FromPairs(CopiedPairs(es, s));
    assert DistinctKeys(CopiedPairs(es, s));
  }

  /** An Array's result has the same length, with item i the coerced item i. */
  lemma ArrayPositions(kind: ArrayKind, xs: seq<Tree>, s: Strategy)
    ensures |Copied(ArrayNode(kind, xs), s).items| == |xs|
    ensures forall i :: 0 <= i < |xs| ==> Copied(ArrayNode(kind, xs), s).items[i] == Copied(xs[i], s)
  {
    assert Copied(ArrayNode(kind, xs), s).items == CopiedItems(xs, s);
  }

  /**
   * On raw nested data the coercer builds the same tree the copy-on-write
   * normalizer returns: the two differ only in which containers are new
   * objects, and in that the coercer keeps Map and array-wrapper nodes.
   */
  lemma {:induction false} AgreesWithNormalizer(t: Tree, s: Strategy)
    requires WellFormed(t) && Raw(t)
    ensures Copied(t, s) == DeepNormalizer.Coerced(t, s).0
    decreases t
  {
    match t
    case Scalar(_) =>
    case HashNode(kind, es) =>
      var kids := DeepNormalizer.HashKids(es, s);
      forall i | 0 <= i < |es| ensures kids[i].0 == Copied(es[i].1, s) {
        AgreesWithNormalizer(es[i].1, s);
      }
      var ps := CopiedPairs(es, s);
      assert DeepNormalizer.Coerced(t, s).0 == DeepNormalizer.HashResult(es, kids, s).0;
      if DeepNormalizer.AnyKeyNeedsCoercion(es, s) {
        assert DeepNormalizer.CoercedPairs(es, kids, s) == ps;
      } else {
        assert DeepNormalizer.Revalued(es, kids) == ps;
        assert DistinctKeys(ps);
      }
    case ArrayNode(kind, xs) =>
      var kids := DeepNormalizer.ArrayKids(xs, s);
      forall i | 0 <= i < |xs| ensures kids[i].0 == Copied(xs[i], s) {
        AgreesWithNormalizer(xs[i], s);
      }
      assert DeepNormalizer.Coerced(t, s).0 == DeepNormalizer.ArrayResult(kids).0;
      assert DeepNormalizer.ArrayResult(kids).0.items == CopiedItems(xs, s);
  }
}
