/**
 * DeepNormalizer: copy-on-write deep key normalization. Hash keys that the
 * strategy says need coercion are coerced, values and items are normalized
 * recursively, nested Maps and Lists become their raw Hash and Array, and a
 * container none of whose keys, values or items changed is returned as is.
 * The "is it the same object" test is modelled by a `changed` flag.
 */
module DeepNormalizer {
  import opened Keys
  import opened OrderedHash
  import opened Trees
  import opened KeyStrategy

  /** The keys a strategy leaves alone. */
  function Untouched(s: Strategy): Key -> bool {
    k => !s.needsCoercion(k)
  }

  /** A tree the normalizer returns unchanged: raw containers only, and no key that needs coercion. */
  predicate AlreadyNormal(t: Tree, s: Strategy) {
    Raw(t) && EveryKey(t, Untouched(s))
  }

  /** coerce_hash's first test: whether any key of the Hash needs coercion. */
  predicate AnyKeyNeedsCoercion(es: seq<(Key, Tree)>, s: Strategy) {
    exists i :: 0 <= i < |es| && s.needsCoercion(es[i].0)
  }

  /** The pairs coerce_hash stores into a fresh Hash: coerced keys with normalized values, in entry order. */
  function CoercedPairs(es: seq<(Key, Tree)>, kids: seq<(Tree, bool)>, s: Strategy): (r: seq<(Key, Tree)>)
    requires |kids| == |es|
    ensures |r| == |es| && forall i :: 0 <= i < |es| ==> r[i] == (CoerceKey(s, es[i].0), kids[i].0)
  {
    seq(|es|, i requires 0 <= i < |es| => (CoerceKey(s, es[i].0), kids[i].0))
  }

  /** The entries with each value replaced by its normalized form, keys and order kept. */
  function Revalued(es: seq<(Key, Tree)>, kids: seq<(Tree, bool)>): (r: seq<(Key, Tree)>)
    requires |kids| == |es|
    ensures |r| == |es| && forall i :: 0 <= i < |es| ==> r[i] == (es[i].0, kids[i].0)
  {
    seq(|es|, i requires 0 <= i < |es| => (es[i].0, kids[i].0))
  }

  /** Whether any of the normalized children differs from its input. */
  predicate AnyChanged(kids: seq<(Tree, bool)>) {
    exists i :: 0 <= i < |kids| && kids[i].1
  }

  /** coerce_hash given the normalized values: a fresh Hash when a key needs coercion, else the entries revalued. */
  function HashResult(es: seq<(Key, Tree)>, kids: seq<(Tree, bool)>, s: Strategy): (Tree, bool)
    requires |kids| == |es|
  {
    if AnyKeyNeedsCoercion(es, s) then (Hash(FromPairs(CoercedPairs(es, kids, s))), true)
    else (Hash(Revalued(es, kids)), AnyChanged(kids))
  }

  /** coerce_array given the normalized items. */
  function ArrayResult(kids: seq<(Tree, bool)>): (Tree, bool) {
    (Array(seq(|kids|, i requires 0 <= i < |kids| => kids[i].0)), AnyChanged(kids))
  }

  /**
   * recursively_coerce: the normalized tree, and whether it is a different
   * object from the input. A plain value comes back as it is; a Map, List or
   * duck-typed object is always replaced by a raw Hash or Array.
   */
  function Coerced(t: Tree, s: Strategy): (r: (Tree, bool))
    decreases t
    ensures !r.1 ==> r.0 == t
    ensures t.Scalar? ==> r == (t, false)
    ensures t.HashNode? ==> r.0.HashNode? && r.0.hashKind == PlainHash
    ensures t.ArrayNode? ==> r.0.ArrayNode? && r.0.arrayKind == PlainArray && |r.0.items| == |t.items|
    ensures (t.HashNode? && t.hashKind != PlainHash) || (t.ArrayNode? && t.arrayKind != PlainArray) ==> r.1
  {
    match t
    case Scalar(_) => (t, false)
    case HashNode(kind, es) =>
      var kids := seq(|es|, i requires 0 <= i < |es| => Coerced(es[i].1, s));
      assert !AnyChanged(kids) ==> Revalued(es, kids) == es;
      var h := HashResult(es, kids, s);
      if kind == PlainHash then h else (h.0, true)
    case ArrayNode(kind, xs) =>
      var kids := seq(|xs|, i requires 0 <= i < |xs| => Coerced(xs[i], s));
      var a := ArrayResult(kids);
      assert !a.1 ==> a.0.items == xs;
      if kind == PlainArray then a else (a.0, true)
  }

  /** The normalized values of a Hash's entries, in entry order. */
  function HashKids(es: seq<(Key, Tree)>, s: Strategy): (r: seq<(Tree, bool)>)
    ensures |r| == |es| && forall i :: 0 <= i < |es| ==> r[i] == Coerced(es[i].1, s)
  {
    seq(|es|, i requires 0 <= i < |es| => Coerced(es[i].1, s))
  }

  /** The normalized items of an Array, in order. */
  function ArrayKids(xs: seq<Tree>, s: Strategy): (r: seq<(Tree, bool)>)
    ensures |r| == |xs| && forall i :: 0 <= i < |xs| ==> r[i] == Coerced(xs[i], s)
  {
    seq(|xs|, i requires 0 <= i < |xs| => Coerced(xs[i], s))
  }

  /** Values.externalize on a tree: a raw Hash or Array gets its wrapper, anything else is itself. */
  function Wrap(t: Tree): (r: Tree)
    ensures t.HashNode? && t.hashKind == PlainHash ==> r == HashNode(MapWrapped, t.entries)
    ensures t.ArrayNode? && t.arrayKind == PlainArray ==> r == ArrayNode(ListWrapped, t.items)
    ensures !(t.HashNode? && t.hashKind == PlainHash) && !(t.ArrayNode? && t.arrayKind == PlainArray) ==> r == t
  {
    match t
    case HashNode(PlainHash, es) => HashNode(MapWrapped, es)
    case ArrayNode(PlainArray, xs) => ArrayNode(ListWrapped, xs)
    case _ => t
  }

  /** The nodes DeepNormalizer#call re-wraps: the library's Map and List. */
  predicate Wrapper(t: Tree) {
    (t.HashNode? && t.hashKind == MapWrapped) || (t.ArrayNode? && t.arrayKind == ListWrapped)
  }

  /**
   * DeepNormalizer#call: a Map or List yields a wrapper of the same kind over
   * the normalized inner collection; anything else its normalized form.
   */
  function Called(t: Tree, s: Strategy): (r: Tree)
    ensures t.HashNode? && t.hashKind == MapWrapped ==>
      r.HashNode? && r.hashKind == MapWrapped && Coerced(t, s).0 == Hash(r.entries)
    ensures t.ArrayNode? && t.arrayKind == ListWrapped ==>
      r.ArrayNode? && r.arrayKind == ListWrapped && Coerced(t, s).0 == Array(r.items)
    ensures !Wrapper(t) ==> r == Coerced(t, s).0
    ensures t.Scalar? ==> r == t
  {
    if Wrapper(t) then Wrap(Coerced(t, s).0) else Coerced(t, s).0
  }

  method Call(t: Tree, s: Strategy) returns (r: Tree)
    requires WellFormed(t)
    ensures r == Called(t, s)
  {
    var inner, _ := RecursivelyCoerce(t, s);
    if Wrapper(t) {
      r := Wrap(inner);
    } else {
      r := inner;
    }
  }

  method RecursivelyCoerce(t: Tree, s: Strategy) returns (r: Tree, changed: bool)
    requires WellFormed(t)
    ensures (r, changed) == Coerced(t, s)
    decreases t, 2
  {
    match t
    case Scalar(_) =>
      return t, false;
    case HashNode(kind, es) =>
      assert HashKids(es, s) == seq(|es|, i requires 0 <= i < |es| => Coerced(es[i].1, s));
      r, changed := CoerceHash(t, es, s);
      if kind != PlainHash {
        changed := true;
      }
    case ArrayNode(kind, xs) =>
      assert ArrayKids(xs, s) == seq(|xs|, i requires 0 <= i < |xs| => Coerced(xs[i], s));
      r, changed := CoerceArray(t, xs, s);
      if kind != PlainArray {
        changed := true;
      }
  }

  /**
   * coerce_hash: when some key needs coercion, fills a fresh Hash with the
   * coerced keys and normalized values; otherwise keeps the given Hash until
   * the first value that changes, then writes into a copy. The one loop over
   * the entries is written as two, one per answer of the first test, which
   * does not change inside the loop.
   */
  method CoerceHash(ghost owner: Tree, es: seq<(Key, Tree)>, s: Strategy) returns (r: Tree, changed: bool)
    requires owner.HashNode? && owner.entries == es
    requires DistinctKeys(es) && forall i :: 0 <= i < |es| ==> WellFormed(es[i].1)
    ensures (r, changed) == HashResult(es, HashKids(es, s), s)
    decreases owner, 1
  {
    var needs := AnyKeyNeedsCoercion(es, s);
    var result: seq<(Key, Tree)>;
    if needs {
      result := FillCoerced(owner, es, s);
      changed := true;
    } else {
      result, changed := CopyOnWrite(owner, es, s);
    }
    r := Hash(result);
  }

  /** coerce_hash's loop into the fresh Hash: each coerced key stored with its normalized value, in entry order. */
  method FillCoerced(ghost owner: Tree, es: seq<(Key, Tree)>, s: Strategy) returns (result: seq<(Key, Tree)>)
    requires owner.HashNode? && owner.entries == es
    requires forall i :: 0 <= i < |es| ==> WellFormed(es[i].1)
    ensures result == FromPairs(CoercedPairs(es, HashKids(es, s), s))
    decreases owner, 0
  {
    result := [];
    ghost var got: seq<(Tree, bool)> := [];
    var i := 0;
    while i < |es|
      invariant 0 <= i <= |es| && |got| == i
      invariant got == HashKids(es[..i], s)
      invariant result == FromPairs(CoercedPairs(es[..i], got, s))
    {
      var key := es[i].0;
      if s.needsCoercion(key) {
        key := s.coerce(key);
      }
      var newValue, valueChanged := RecursivelyCoerce(es[i].1, s);
      HashKidsPrefix(es, i, s);
      FreshStep(es, i, got, (newValue, valueChanged), s);
      result := Put(result, key, newValue);
      got := got + [(newValue, valueChanged)];
      i := i + 1;
    }
    assert es[..i] == es;
  }

  /**
   * coerce_hash's loop over a Hash without keys to coerce: the given entries
   * are kept until the first value that changes, then that value and every
   * later changed one is written into a copy. The key of the entry at i is
   * already in the copy at i, so Hash#[]= there overwrites that entry in
   * place (OrderedHash.PutAt).
   */
  method CopyOnWrite(ghost owner: Tree, es: seq<(Key, Tree)>, s: Strategy) returns (result: seq<(Key, Tree)>, changed: bool)
    requires owner.HashNode? && owner.entries == es
    requires DistinctKeys(es) && forall i :: 0 <= i < |es| ==> WellFormed(es[i].1)
    requires !AnyKeyNeedsCoercion(es, s)
    ensures result == Revalued(es, HashKids(es, s)) && changed == AnyChanged(HashKids(es, s))
    decreases owner, 0
  {
    result := es;
    var same := true;
    ghost var got: seq<(Tree, bool)> := [];
    var i := 0;
    while i < |es|
      invariant 0 <= i <= |es| && |got| == i
      invariant got == HashKids(es[..i], s)
      invariant |result| == |es|
      invariant forall j :: 0 <= j < i ==> result[j] == (es[j].0, got[j].0)
      invariant forall j :: i <= j < |es| ==> result[j] == es[j]
      invariant same == !AnyChanged(got)
      invariant same ==> result == es
    {
      var key := es[i].0;
      if s.needsCoercion(key) {
        key := s.coerce(key);
      }
      assert key == es[i].0;
      var newValue, valueChanged := RecursivelyCoerce(es[i].1, s);
      assert !valueChanged ==> newValue == es[i].1;
      HashKidsPrefix(es, i, s);
      AnyChangedAppend(got, (newValue, valueChanged));
      if same {
        if valueChanged {
          result := es;
          result := result[i := (key, newValue)];
          same := false;
        }
      } else {
        result := result[i := (key, newValue)];
      }
      got := got + [(newValue, valueChanged)];
      i := i + 1;
    }
    assert es[..i] == es;
    changed := !same;
  }

  lemma HashKidsPrefix(es: seq<(Key, Tree)>, i: nat, s: Strategy)
    requires i < |es|
    ensures HashKids(es[..i + 1], s) == HashKids(es[..i], s) + [Coerced(es[i].1, s)]
  {
    assert es[..i + 1] == es[..i] + [es[i]];
  }

  lemma ArrayKidsPrefix(xs: seq<Tree>, i: nat, s: Strategy)
    requires i < |xs|
    ensures ArrayKids(xs[..i + 1], s) == ArrayKids(xs[..i], s) + [Coerced(xs[i], s)]
  {
    assert xs[..i + 1] == xs[..i] + [xs[i]];
  }

  lemma AnyChangedAppend(kids: seq<(Tree, bool)>, kid: (Tree, bool))
    ensures AnyChanged(kids + [kid]) == (AnyChanged(kids) || kid.1)
  {
    var all := kids + [kid];
    assert all[|kids|] == kid;
    if AnyChanged(kids) {
      var j :| 0 <= j < |kids| && kids[j].1;
      assert all[j] == kids[j];
    }
    if AnyChanged(all) {
      var j :| 0 <= j < |all| && all[j].1;
      if j < |kids| {
        assert all[j] == kids[j];
      }
    }
  }

  /** One more entry stored into the fresh Hash: FromPairs over one more coerced pair. */
  lemma FreshStep(es: seq<(Key, Tree)>, i: nat, got: seq<(Tree, bool)>, kid: (Tree, bool), s: Strategy)
    requires |got| == i < |es|
    ensures Put(FromPairs(CoercedPairs(es[..i], got, s)), CoerceKey(s, es[i].0), kid.0) ==
      FromPairs(CoercedPairs(es[..i + 1], got + [kid], s))
  {
    assert CoercedPairs(es[..i + 1], got + [kid], s) == CoercedPairs(es[..i], got, s) + [(CoerceKey(s, es[i].0), kid.0)];
    FromPairsAppend(CoercedPairs(es[..i], got, s), (CoerceKey(s, es[i].0), kid.0));
  }

  /**
   * coerce_array: keeps the given Array until the first item that changes,
   * then writes each changed item into a copy.
   */
  method CoerceArray(ghost owner: Tree, xs: seq<Tree>, s: Strategy) returns (r: Tree, changed: bool)
    requires owner.ArrayNode? && owner.items == xs
    requires forall i :: 0 <= i < |xs| ==> WellFormed(xs[i])
    ensures (r, changed) == ArrayResult(ArrayKids(xs, s))
    decreases owner, 0
  {
    var result := xs;
    var same := true;
    ghost var got: seq<(Tree, bool)> := [];
    var i := 0;
    while i < |xs|
      invariant 0 <= i <= |xs| && |got| == i && |result| == |xs|
      invariant got == ArrayKids(xs[..i], s)
      invariant forall j :: 0 <= j < i ==> result[j] == got[j].0
      invariant forall j :: i <= j < |xs| ==> result[j] == xs[j]
      invariant same == !AnyChanged(got)
      invariant same ==> result == xs
    {
      var newItem, itemChanged := RecursivelyCoerce(xs[i], s);
      assert !itemChanged ==> newItem == xs[i];
      ArrayKidsPrefix(xs, i, s);
      AnyChangedAppend(got, (newItem, itemChanged));
      if itemChanged {
        if same {
          result := xs;
          same := false;
        }
        result := result[i := newItem];
      }
      got := got + [(newItem, itemChanged)];
      i := i + 1;
    }
    assert xs[..i] == xs;
    assert result == ArrayResult(got).0.items;
    r := Array(result);
    changed := !same;
  }

  /** The pairs of a Hash's result all come from the coerced pairs. */
  lemma ResultPairsFrom(es: seq<(Key, Tree)>, kids: seq<(Tree, bool)>, s: Strategy, m: nat)
    requires |kids| == |es|
    requires m < |HashResult(es, kids, s).0.entries|
    ensures exists j :: 0 <= j < |es| && HashResult(es, kids, s).0.entries[m] == (CoerceKey(s, es[j].0), kids[j].0)
    ensures !AnyKeyNeedsCoercion(es, s) ==> HashResult(es, kids, s).0.entries[m] == (es[m].0, kids[m].0)
  {
    if AnyKeyNeedsCoercion(es, s) {
      var ps := CoercedPairs(es, kids, s);
      FromPairsFrom(ps);
      var j :| 0 <= j < |ps| && ps[j] == HashResult(es, kids, s).0.entries[m];
    } else {
      assert CoerceKey(s, es[m].0) == es[m].0;
    }
  }

  /**
   * Copy-on-write: the normalizer hands back its very input exactly when that
   * input is already normal, that is raw at every depth with no key that
   * needs coercion.
   */
  lemma {:induction false} UnchangedIffNormal(t: Tree, s: Strategy)
    ensures !Coerced(t, s).1 <==> AlreadyNormal(t, s)
    decreases t
  {
    match t
    case Scalar(_) =>
    case HashNode(kind, es) =>
      forall i | 0 <= i < |es| ensures !Coerced(es[i].1, s).1 <==> AlreadyNormal(es[i].1, s) {
        UnchangedIffNormal(es[i].1, s);
      }
      var kids := HashKids(es, s);
      assert Coerced(t, s).1 == (kind != PlainHash || AnyKeyNeedsCoercion(es, s) || AnyChanged(kids));
    case ArrayNode(kind, xs) =>
      forall i | 0 <= i < |xs| ensures !Coerced(xs[i], s).1 <==> AlreadyNormal(xs[i], s) {
        UnchangedIffNormal(xs[i], s);
      }
      var kids := ArrayKids(xs, s);
      assert Coerced(t, s).1 == (kind != PlainArray || AnyChanged(kids));
  }

  /** Every Map, List and duck-typed container, at every depth, is replaced by a raw Hash or Array. */
  lemma {:induction false} ResultIsRaw(t: Tree, s: Strategy)
    ensures Raw(Coerced(t, s).0)
    decreases t
  {
    match t
    case Scalar(_) =>
    case HashNode(kind, es) =>
      var kids := HashKids(es, s);
      var r := HashResult(es, kids, s).0.entries;
      forall m | 0 <= m < |r| ensures Raw(r[m].1) {
        ResultPairsFrom(es, kids, s, m);
        var j :| 0 <= j < |es| && r[m] == (CoerceKey(s, es[j].0), kids[j].0);
        ResultIsRaw(es[j].1, s);
      }
      assert Coerced(t, s).0 == Hash(r);
    case ArrayNode(kind, xs) =>
      var kids := ArrayKids(xs, s);
      forall i | 0 <= i < |xs| ensures Raw(kids[i].0) {
        ResultIsRaw(xs[i], s);
      }
      assert Coerced(t, s).0 == ArrayResult(kids).0;
  }

  /** With a settled strategy, no key of the result, at any depth, needs coercion. */
  lemma {:induction false} ResultKeysSettled(t: Tree, s: Strategy)
    requires Settled(s)
    ensures EveryKey(Coerced(t, s).0, Untouched(s))
    decreases t
  {
    match t
    case Scalar(_) =>
    case HashNode(kind, es) =>
      var kids := HashKids(es, s);
      var r := HashResult(es, kids, s).0.entries;
      forall m | 0 <= m < |r| ensures Untouched(s)(r[m].0) && EveryKey(r[m].1, Untouched(s)) {
        ResultPairsFrom(es, kids, s, m);
        var j :| 0 <= j < |es| && r[m] == (CoerceKey(s, es[j].0), kids[j].0);
        if !AnyKeyNeedsCoercion(es, s) {
          assert !s.needsCoercion(es[m].0);
        } else if s.needsCoercion(es[j].0) {
          assert !s.needsCoercion(s.coerce(es[j].0));
        }
        ResultKeysSettled(es[j].1, s);
      }
      assert Coerced(t, s).0 == Hash(r);
    case ArrayNode(kind, xs) =>
      var kids := ArrayKids(xs, s);
      forall i | 0 <= i < |xs| ensures EveryKey(kids[i].0, Untouched(s)) {
        ResultKeysSettled(xs[i], s);
      }
      assert Coerced(t, s).0 == ArrayResult(kids).0;
  }

  /** The result keeps every Hash's keys distinct. */
  lemma {:induction false} ResultWellFormed(t: Tree, s: Strategy)
    requires WellFormed(t)
    ensures WellFormed(Coerced(t, s).0)
    decreases t
  {
    match t
    case Scalar(_) =>
    case HashNode(kind, es) =>
      var kids := HashKids(es, s);
      var r := HashResult(es, kids, s).0.entries;
      forall m | 0 <= m < |r| ensures WellFormed(r[m].1) {
        ResultPairsFrom(es, kids, s, m);
        var j :| 0 <= j < |es| && r[m] == (CoerceKey(s, es[j].0), kids[j].0);
        ResultWellFormed(es[j].1, s);
      }
      if !AnyKeyNeedsCoercion(es, s) {
        assert forall i :: 0 <= i < |r| ==> r[i].0 == es[i].0;
      }
      assert Coerced(t, s).0 == Hash(r);
    case ArrayNode(kind, xs) =>
      var kids := ArrayKids(xs, s);
      forall i | 0 <= i < |xs| ensures WellFormed(kids[i].0) {
        ResultWellFormed(xs[i], s);
      }
      assert Coerced(t, s).0 == ArrayResult(kids).0;
  }

  /** With a settled strategy the result is normal, so normalizing it again returns it unchanged. */
  lemma Idempotent(t: Tree, s: Strategy)
    requires Settled(s)
    ensures AlreadyNormal(Coerced(t, s).0, s)
    ensures Coerced(Coerced(t, s).0, s) == (Coerced(t, s).0, false)
  {
    ResultIsRaw(t, s);
    ResultKeysSettled(t, s);
    UnchangedIffNormal(Coerced(t, s).0, s);
  }

  /**
   * A Hash's result lists, in entry order, each key coerced when it needs it
   * with its value normalized, provided no two keys coerce to the same key.
   */
  lemma HashEntriesInOrder(kind: HashKind, es: seq<(Key, Tree)>, s: Strategy)
    requires forall i, j :: 0 <= i < j < |es| ==> CoerceKey(s, es[i].0) != CoerceKey(s, es[j].0)
    ensures |Coerced(HashNode(kind, es), s).0.entries| == |es|
    ensures forall i :: 0 <= i < |es| ==>
      Coerced(HashNode(kind, es), s).0.entries[i] == (CoerceKey(s, es[i].0), Coerced(es[i].1, s).0)
  {
    var kids := HashKids(es, s);
    assert Coerced(HashNode(kind, es), s).0 == HashResult(es, kids, s).0;
    if AnyKeyNeedsCoercion(es, s) {
      assert DistinctKeys(CoercedPairs(es, kids, s));
    }
  }

  /** The keys of a Hash's result are exactly the coerced keys of its entries, whether or not two collide. */
  lemma HashKeysCoerced(kind: HashKind, es: seq<(Key, Tree)>, s: Strategy, k: Key)
    ensures HasKey(Coerced(HashNode(kind, es), s).0.entries, k) <==> exists i :: 0 <= i < |es| && CoerceKey(s, es[i].0) == k
  {
    var kids := HashKids(es, s);
    var r := HashResult(es, kids, s).0.entries;
    assert Coerced(HashNode(kind, es), s).0.entries == r;
    var ck := KeysOf(CoercedPairs(es, kids, s));
    if AnyKeyNeedsCoercion(es, s) {
      assert HasKey(r, k) <==> k in ck;
    } else {
      assert KeysOf(r) == ck;
    }
    if k in ck {
      var i :| 0 <= i < |ck| && ck[i] == k;
      assert CoerceKey(s, es[i].0) == k;
    }
    if exists i :: 0 <= i < |es| && CoerceKey(s, es[i].0) == k {
      var i :| 0 <= i < |es| && CoerceKey(s, es[i].0) == k;
      assert ck[i] == k;
    }
  }

  /** An Array's result has the same length; item i is its normalized form, and the very item when that did not change. */
  lemma ArrayPositions(kind: ArrayKind, xs: seq<Tree>, s: Strategy)
    ensures |Coerced(ArrayNode(kind, xs), s).0.items| == |xs|
    ensures forall i :: 0 <= i < |xs| ==> Coerced(ArrayNode(kind, xs), s).0.items[i] == Coerced(xs[i], s).0
    ensures forall i :: 0 <= i < |xs| && !Coerced(xs[i], s).1 ==> Coerced(ArrayNode(kind, xs), s).0.items[i] == xs[i]
  {
    assert Coerced(ArrayNode(kind, xs), s).0 == ArrayResult(ArrayKids(xs, s)).0;
  }

  /** DeepNormalizer#call with a settled strategy leaves no key, at any depth, that needs coercion; re-wrapping keeps the keys. */
  lemma CalledKeysSettled(t: Tree, s: Strategy)
    requires Settled(s)
    ensures EveryKey(Called(t, s), Untouched(s))
  {
    ResultKeysSettled(t, s);
  }
}
