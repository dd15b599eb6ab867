/**
 * The Map wrapper: a view over a host Hash (its inner map) that reaches an
 * entry through either the String or the Symbol form of its key. A Map is
 * identified with its inner map; operations that change the Map change that
 * Hash in place, so every other view of the same Hash sees the change.
 */
module IndifferentMap {
  import opened Wrappers
  import opened Keys
  import opened OrderedHash
  import opened Conformance
  import opened Values
  import opened Equality

  /** A block taking a key (fetch, delete). */
  type KeyBlock = Key -> Val
  /** A block taking a key and an externalized value (delete_if and friends). */
  type EntryBlock = (Key, Val) -> bool
  /** The merge block: the receiver's key, its externalized old value and the incoming value. */
  type MergeBlock = (Key, Val, Val) -> Val

  // ---------------------------------------------------------------- construction

  /**
   * Map#initialize: a Map over the given basis's own Hash (a Map's inner map,
   * a Hash, or what `to_hash` yields); a basis that cannot be converted raises
   * ArgumentError. No Hash is copied.
   */
  function Construct(basis: Val): (r: Result<HashBox>)
    ensures r.Success? <==> MapTryConvert(basis).Some?
    ensures r.Success? ==> Externalize(basis) == MapView(r.value) && Internalize(basis) == RawHash(r.value)
    ensures r.Failure? ==> r.error == ArgumentError
  {
    match MapTryDeconstruct(basis)
    case Some(h) => Success(h)
    case None => Failure(ArgumentError)
  }

  /** Map.new with no basis: a Map over a new empty Hash. */
  method NewEmpty() returns (r: HashBox)
    ensures fresh(r) && r.entries == [] && r.Valid()
  {
    r := new HashBox([]);
  }

  /** Map#dup (initialize_dup): a new Map over a shallow copy of the inner map. */
  method Dup(m: HashBox) returns (r: HashBox)
    ensures fresh(r) && r.entries == m.entries
  {
    r := new HashBox(m.entries);
  }

  // ---------------------------------------------------------------- reading

  /** Map#[]: the externalized value under the conformed key, or nil (the default) when absent. */
  function Lookup(es: Entries<Val>, k: Key): (r: Val)
    ensures KeyPresent(es, k) ==> r == Externalize(Get(es, ConformKey(es, k)).value)
    ensures !KeyPresent(es, k) ==> r == Nil
    ensures r == Externalize(r)
  {
    var ck := ConformKey(es, k);
    match Get(es, ck)
    case Some(v) => Externalize(v)
    case None => Nil
  }

  /**
   * Map#fetch(key, *more_args) with an optional block. A present conformed key
   * gives its value; otherwise the block, called with the original key, wins
   * over a default argument; with neither, KeyError. More than one extra
   * argument is an ArgumentError.
   */
  function Fetch(es: Entries<Val>, k: Key, more: seq<Val>, block: Option<KeyBlock>): (r: Result<Val>)
    ensures |more| > 1 ==> r == Failure(ArgumentError)
    ensures |more| <= 1 && KeyPresent(es, k) ==> r == Success(Lookup(es, k))
    ensures |more| <= 1 && !KeyPresent(es, k) && block.Some? ==> r == Success(Externalize(block.value(k)))
    ensures |more| == 1 && !KeyPresent(es, k) && block.None? ==> r == Success(Externalize(more[0]))
    ensures r.Failure? <==> |more| > 1 || (!KeyPresent(es, k) && block.None? && more == [])
    ensures r.Failure? && |more| <= 1 ==> r.error == KeyError
  {
    if |more| > 1 then Failure(ArgumentError)
    else
      var ck := ConformKey(es, k);
      if HasKey(es, ck) then Success(Externalize(Get(es, ck).value))
      else if block.Some? then Success(Externalize(block.value(k)))
      else if |more| == 1 then Success(Externalize(more[0]))
      else Failure(KeyError)
  }

  /** Map#each / each_pair: the entries with their values externalized, in order. */
  function EachPair(es: Entries<Val>): (r: Entries<Val>)
    ensures |r| == |es| && KeysOf(r) == KeysOf(es)
    ensures forall i :: 0 <= i < |es| ==> r[i] == (es[i].0, Externalize(es[i].1))
  {
    seq(|es|, i requires 0 <= i < |es| => (es[i].0, Externalize(es[i].1)))
  }

  /** Map#assoc: the stored key and externalized value of the entry the given key conforms to. */
  function Assoc(es: Entries<Val>, k: Key): (r: Option<(Key, Val)>)
    ensures r.Some? <==> KeyPresent(es, k)
    ensures r.Some? ==> HasKey(es, r.value.0) && SameIndifferently(k, r.value.0) && r.value.1 == Lookup(es, k)
  {
    var ck := ConformKey(es, k);
    match Get(es, ck)
    case Some(v) => Some((ck, Externalize(v)))
    case None => None
  }

  /** Map#has_value?: some externalized value is `==` to the externalized argument. */
  predicate HasValue(es: Entries<Val>, value: Val, depth: nat)
    reads *
  {
    exists i :: 0 <= i < |es| && ValEq(Externalize(es[i].1), Externalize(value), depth)
  }

  /**
   * For nil or an atom, has_value? is exactly whether that very value is
   * stored, and it agrees with rassoc's scan, although the two compare with
   * the receiver and the argument swapped.
   */
  lemma HasValuePlain(es: Entries<Val>, value: Val, depth: nat)
    requires IsPlain(value)
    ensures HasValue(es, value, depth) <==> exists i :: 0 <= i < |es| && es[i].1 == value
    ensures HasValue(es, value, depth) <==> FirstMatch(es, value, depth).Some?
  {
    forall i | 0 <= i < |es|
      ensures ValEq(Externalize(es[i].1), Externalize(value), depth) <==> es[i].1 == value
      ensures ValEq(Externalize(value), Externalize(es[i].1), depth) <==> es[i].1 == value
    {
      PlainEqualsOnlyItself(es[i].1, value, depth);
    }
  }

  /** A plain value is `==` only to itself, whichever side it is on. */
  lemma PlainEqualsOnlyItself(v: Val, value: Val, depth: nat)
    requires IsPlain(value)
    ensures ValEq(Externalize(v), Externalize(value), depth) <==> v == value
    ensures ValEq(Externalize(value), Externalize(v), depth) <==> v == value
  {
    ConversionsIdempotent(v);
  }

  /** After `m[k] = v` with a plain v, has_value?(v) holds. */
  lemma StoredHasValue(es: Entries<Val>, k: Key, v: Val, depth: nat)
    requires IsPlain(v)
    ensures HasValue(Stored(es, k, v), v, depth)
  {
    var r := Stored(es, k, v);
    var ck := ConformKey(es, k);
    assert Get(r, ck) == Some(v);
    var i := IndexOf(r, ck).value;
    GetAt(r, ck, i);
    PlainEqualsOnlyItself(r[i].1, v, depth);
  }

  /** The position of the first entry whose externalized value the externalized argument is `==` to. */
  function FirstMatch(es: Entries<Val>, value: Val, depth: nat): (r: Option<nat>)
    reads *
    ensures r.None? <==> forall i :: 0 <= i < |es| ==> !ValEq(Externalize(value), Externalize(es[i].1), depth)
    ensures r.Some? ==> r.value < |es| && ValEq(Externalize(value), Externalize(es[r.value].1), depth)
    ensures r.Some? ==> forall j :: 0 <= j < r.value ==> !ValEq(Externalize(value), Externalize(es[j].1), depth)
  {
    if es == [] then None
    else if ValEq(Externalize(value), Externalize(es[0].1), depth) then Some(0)
    else match FirstMatch(es[1..], value, depth)
      case None => None
      case Some(i) => Some(i + 1)
  }

  /**
   * Map#rassoc: an early-exit scan for the first entry whose externalized value
   * the externalized argument is `==` to; gives its key and externalized value.
   */
  method Rassoc(m: HashBox, value: Val, depth: nat) returns (r: Option<(Key, Val)>)
    ensures FirstMatch(m.entries, value, depth).None? ==> r.None?
    ensures FirstMatch(m.entries, value, depth).Some? ==>
      var i := FirstMatch(m.entries, value, depth).value;
      r == Some((m.entries[i].0, Externalize(m.entries[i].1)))
  {
    var target := Externalize(value);
    var es := m.entries;
    var i := 0;
    while i < |es|
      invariant 0 <= i <= |es|
      invariant forall j :: 0 <= j < i ==> !ValEq(target, Externalize(es[j].1), depth)
    {
      if ValEq(target, Externalize(es[i].1), depth) {
        FirstMatchIsFirst(es, value, depth, i);
        return Some((es[i].0, Externalize(es[i].1)));
      }
      i := i + 1;
    }
    return None;
  }

  lemma {:induction false} FirstMatchIsFirst(es: Entries<Val>, value: Val, depth: nat, i: nat)
    requires i < |es| && ValEq(Externalize(value), Externalize(es[i].1), depth)
    requires forall j :: 0 <= j < i ==> !ValEq(Externalize(value), Externalize(es[j].1), depth)
    ensures FirstMatch(es, value, depth) == Some(i)
  {
  }

  /** Map#key: the key of the entry rassoc finds, or nil. */
  method KeyOf(m: HashBox, value: Val, depth: nat) returns (r: Option<Key>)
    ensures r.Some? <==> exists i :: 0 <= i < |m.entries| && ValEq(Externalize(value), Externalize(m.entries[i].1), depth)
    ensures r.Some? ==> r.value == m.entries[FirstMatch(m.entries, value, depth).value].0
  {
    var entry := Rassoc(m, value, depth);
    if entry.Some? {
      r := Some(entry.value.0);
    } else {
      r := None;
    }
  }

  /**
   * Map#==: false unless other converts to a Map; true at once when both
   * share one Hash; false on differing lengths; otherwise an early-exit scan
   * over the receiver's entries, fetching each key (conformed) from other.
   */
  method Equals(m: HashBox, other: Val, depth: nat) returns (r: bool)
    ensures r == MapEq(m, other, depth)
  {
    var o := MapTryConvert(other);
    if o.None? {
      return false;
    }
    var oh := o.value.innerMap;
    assert MapTryConvert(other) == Some(MapView(oh));
    if oh == m {
      return true;
    }
    if |m.entries| != |oh.entries| {
      return false;
    }
    var es := m.entries;
    if es == [] {
      return true;
    }
    if depth == 0 {
      assert m.entries[0] == es[0];
      return false;
    }
    var d: nat := depth - 1;
    var i := 0;
    while i < |es|
      invariant 0 <= i <= |es|
      invariant forall j :: 0 <= j < i ==> EntryMatches(es[j], oh.entries, d)
    {
      var ck := ConformKey(oh.entries, es[i].0);
      var ov := Get(oh.entries, ck);
      if ov.None? {
        return false;
      }
      if !ValEq(Externalize(es[i].1), Externalize(ov.value), d) {
        return false;
      }
      i := i + 1;
    }
    return true;
  }

  // ---------------------------------------------------------------- writing

  /** The inner entries after `m[k] = v`: the internalized value stored under the conformed key. */
  function Stored(es: Entries<Val>, k: Key, v: Val): (r: Entries<Val>)
    ensures DistinctKeys(es) ==> DistinctKeys(r)
    ensures Get(r, ConformKey(es, k)) == Some(Internalize(v))
  {
    Put(es, ConformKey(es, k), Internalize(v))
  }

  /** Map#[]= / store: returns the given value itself. */
  method Store(m: HashBox, k: Key, v: Val) returns (r: Val)
    requires m.Valid()
    modifies m
    ensures m.Valid()
    ensures m.entries == Stored(old(m.entries), k, v)
    ensures r == v
  {
    var ck := ConformKey(m.entries, k);
    m.entries := Put(m.entries, ck, Internalize(v));
    r := v;
  }

  /**
   * Storing under a key that conforms to an existing entry keeps the size, the
   * stored key forms and their order, and changes no other entry.
   */
  lemma StoreExisting(es: Entries<Val>, k: Key, v: Val)
    requires KeyPresent(es, k)
    ensures |Stored(es, k, v)| == |es|
    ensures KeysOf(Stored(es, k, v)) == KeysOf(es)
    ensures forall k' :: k' != ConformKey(es, k) ==> Get(Stored(es, k, v), k') == Get(es, k')
  {
  }

  /** Storing under a key that conforms to nothing appends exactly one entry, under the key as given. */
  lemma StoreNew(es: Entries<Val>, k: Key, v: Val)
    requires !KeyPresent(es, k)
    ensures Stored(es, k, v) == es + [(k, Internalize(v))]
  {
  }

  /**
   * When the Hash holds at most one form of a String/Symbol key, after
   * `m[k] = v` both `m[k]` and `m[alternate]` give the externalized v.
   */
  lemma {:induction false} StoreThenLookupEitherForm(es: Entries<Val>, k: Key, v: Val)
    requires DistinctKeys(es)
    requires Alternate(k).Some?
    requires !(HasKey(es, k) && HasKey(es, Alternate(k).value))
    ensures Lookup(Stored(es, k, v), k) == Externalize(v)
    ensures Lookup(Stored(es, k, v), Alternate(k).value) == Externalize(v)
  {
    var ck := ConformKey(es, k);
    var r := Stored(es, k, v);
    var alt := Alternate(k).value;
    AlternateInvolution(k);
    assert HasKey(r, ck);
    assert ConformKey(r, k) == ck;
    assert ConformKey(r, alt) == ck;
    ConversionsRoundTrip(v);
  }

  /**
   * Map#delete: removes the entry under the conformed key and returns its
   * externalized value; when there is none, the block's value for the
   * conformed key, or nil.
   */
  method Delete(m: HashBox, k: Key, block: Option<KeyBlock>) returns (r: Val)
    requires m.Valid()
    modifies m
    ensures m.Valid()
    ensures m.entries == Remove(old(m.entries), ConformKey(old(m.entries), k))
    ensures KeyPresent(old(m.entries), k) ==> r == Lookup(old(m.entries), k) && |m.entries| == |old(m.entries)| - 1
    ensures !KeyPresent(old(m.entries), k) ==> m.entries == old(m.entries)
    ensures !KeyPresent(old(m.entries), k) && block.Some? ==> r == Externalize(block.value(k))
    ensures !KeyPresent(old(m.entries), k) && block.None? ==> r == Nil
  {
    var ck := ConformKey(m.entries, k);
    match Get(m.entries, ck)
    case Some(v) =>
      m.entries := Remove(m.entries, ck);
      r := Externalize(v);
    case None =>
      r := if block.Some? then Externalize(block.value(ck)) else Nil;
  }

  /** The entries kept when each (key, externalized value) is tested against p and kept when the answer is keepWhen. */
  function Kept(es: Entries<Val>, p: EntryBlock, keepWhen: bool): (r: Entries<Val>)
    ensures forall i :: 0 <= i < |r| ==> p(r[i].0, Externalize(r[i].1)) == keepWhen
    ensures DistinctKeys(es) ==> DistinctKeys(r)
    ensures (forall i :: 0 <= i < |es| ==> p(es[i].0, Externalize(es[i].1)) == keepWhen) ==> r == es
  {
    FilterDistinct(es, Tester(p, keepWhen));
    Filter(es, Tester(p, keepWhen))
  }

  /** Exactly the entries that pass the test are kept: each kept one is an entry, and each passing entry is kept. */
  lemma KeptExactly(es: Entries<Val>, p: EntryBlock, keepWhen: bool)
    ensures forall i :: 0 <= i < |Kept(es, p, keepWhen)| ==> Kept(es, p, keepWhen)[i] in es
    ensures forall i :: 0 <= i < |es| && p(es[i].0, Externalize(es[i].1)) == keepWhen ==> es[i] in Kept(es, p, keepWhen)
  {
    FilterFrom(es, Tester(p, keepWhen));
    FilterKeeps(es, Tester(p, keepWhen));
  }

  /** The test delete_if / keep_if apply to a raw entry. */
  function Tester(p: EntryBlock, keepWhen: bool): (Key, Val) -> bool {
    (k, v) => p(k, Externalize(v)) == keepWhen
  }

  /** Map#delete_if: removes exactly the entries for which the block is true; returns the Map. */
  method DeleteIf(m: HashBox, p: EntryBlock) returns (r: Val)
    requires m.Valid()
    modifies m
    ensures m.Valid()
    ensures m.entries == Kept(old(m.entries), p, false)
    ensures r == MapView(m)
  {
    m.entries := Kept(m.entries, p, false);
    r := MapView(m);
  }

  /** Map#keep_if: removes exactly the entries for which the block is false; returns the Map. */
  method KeepIf(m: HashBox, p: EntryBlock) returns (r: Val)
    requires m.Valid()
    modifies m
    ensures m.Valid()
    ensures m.entries == Kept(old(m.entries), p, true)
    ensures r == MapView(m)
  {
    m.entries := Kept(m.entries, p, true);
    r := MapView(m);
  }

  /**
   * The delete_if / keep_if pass that also records whether any entry was
   * removed (the `has_rejections` flag of reject! and select!).
   */
  method FilterTracking(m: HashBox, p: EntryBlock, keepWhen: bool) returns (removed: bool)
    requires m.Valid()
    modifies m
    ensures m.Valid()
    ensures m.entries == Kept(old(m.entries), p, keepWhen)
    ensures !removed <==> forall i :: 0 <= i < |old(m.entries)| ==> p(old(m.entries)[i].0, Externalize(old(m.entries)[i].1)) == keepWhen
  {
    var es := m.entries;
    var kept: Entries<Val> := [];
    removed := false;
    var i := 0;
    while i < |es|
      invariant 0 <= i <= |es|
      invariant kept == Filter(es[..i], Tester(p, keepWhen))
      invariant !removed <==> forall j :: 0 <= j < i ==> Tester(p, keepWhen)(es[j].0, es[j].1)
    {
      var verdict := p(es[i].0, Externalize(es[i].1));
      assert Tester(p, keepWhen)(es[i].0, es[i].1) == (verdict == keepWhen);
      if verdict != keepWhen {
        removed := true;
      }
      FilterPrefixStep(es, i, Tester(p, keepWhen));
      if verdict == keepWhen {
        kept := kept + [es[i]];
      }
      i := i + 1;
    }
    assert es[..i] == es;
    assert kept == Kept(es, p, keepWhen);
    m.entries := kept;
  }

  lemma FilterPrefixStep(es: Entries<Val>, i: nat, keep: (Key, Val) -> bool)
    requires i < |es|
    ensures Filter(es[..i + 1], keep) == Filter(es[..i], keep) + (if keep(es[i].0, es[i].1) then [es[i]] else [])
  {
    assert es[..i + 1] == es[..i] + [es[i]];
    FilterAppend(es[..i], es[i], keep);
  }

  /** Map#reject!: delete_if, answering nil when nothing was removed. */
  method RejectBang(m: HashBox, p: EntryBlock) returns (r: Val)
    requires m.Valid()
    modifies m
    ensures m.Valid()
    ensures m.entries == Kept(old(m.entries), p, false)
    ensures r == Nil <==> forall i :: 0 <= i < |old(m.entries)| ==> !p(old(m.entries)[i].0, Externalize(old(m.entries)[i].1))
    ensures r != Nil ==> r == MapView(m)
  {
    var removed := FilterTracking(m, p, false);
    r := if removed then MapView(m) else Nil;
  }

  /** Map#select!: keep_if, answering nil when nothing was removed. */
  method SelectBang(m: HashBox, p: EntryBlock) returns (r: Val)
    requires m.Valid()
    modifies m
    ensures m.Valid()
    ensures m.entries == Kept(old(m.entries), p, true)
    ensures r == Nil <==> forall i :: 0 <= i < |old(m.entries)| ==> p(old(m.entries)[i].0, Externalize(old(m.entries)[i].1))
    ensures r != Nil ==> r == MapView(m)
  {
    var removed := FilterTracking(m, p, true);
    r := if removed then MapView(m) else Nil;
  }

  /** Map#reject: delete_if on a dup; the receiver's inner map is untouched. */
  method Reject(m: HashBox, p: EntryBlock) returns (r: Val)
    requires m.Valid()
    ensures r.MapView? && fresh(r.innerMap)
    ensures r.innerMap.entries == Kept(m.entries, p, false)
  {
    var d := Dup(m);
    r := DeleteIf(d, p);
  }

  /** Map#select: keep_if on a dup; the receiver's inner map is untouched. */
  method Select(m: HashBox, p: EntryBlock) returns (r: Val)
    requires m.Valid()
    ensures r.MapView? && fresh(r.innerMap)
    ensures r.innerMap.entries == Kept(m.entries, p, true)
  {
    var d := Dup(m);
    r := KeepIf(d, p);
  }

  /**
   * Map#replace: the inner map takes the entries of the other side's Hash;
   * anything that does not deconstruct to a Hash is refused by Hash#replace.
   */
  method Replace(m: HashBox, other: Val) returns (r: Result<Val>)
    requires m.Valid()
    requires MapTryDeconstruct(other).Some? ==> MapTryDeconstruct(other).value.Valid()
    modifies m
    ensures m.Valid()
    ensures MapTryDeconstruct(other).Some? ==>
      r == Success(MapView(m)) && m.entries == old(MapTryDeconstruct(other).value.entries)
    ensures MapTryDeconstruct(other).None? ==> r == Failure(TypeError) && m.entries == old(m.entries)
  {
    match MapTryDeconstruct(other)
    case Some(h) =>
      m.entries := h.entries;
      r := Success(MapView(m));
    case None =>
      r := Failure(TypeError);
  }

  /** Map#shift: removes the first entry and gives its key and externalized value; nothing for an empty Map. */
  method Shift(m: HashBox) returns (r: Option<(Key, Val)>)
    requires m.Valid()
    modifies m
    ensures m.Valid()
    ensures old(m.entries) == [] ==> r.None? && m.entries == []
    ensures old(m.entries) != [] ==>
      r == Some((old(m.entries)[0].0, Externalize(old(m.entries)[0].1))) && m.entries == old(m.entries)[1..]
  {
    if m.entries == [] {
      r := None;
    } else {
      var e := m.entries[0];
      m.entries := m.entries[1..];
      r := Some((e.0, Externalize(e.1)));
    }
  }

  /** Map#values: a new List over a new Array of the (internal) values, in entry order. */
  method ValuesOf(m: HashBox) returns (r: Val)
    ensures r.ListView? && fresh(r.innerArray)
    ensures |r.innerArray.items| == |m.entries|
    ensures forall i :: 0 <= i < |m.entries| ==> r.innerArray.items[i] == m.entries[i].1
  {
    var es := m.entries;
    var a := new ArrayBox(seq(|es|, i requires 0 <= i < |es| => es[i].1));
    r := ListView(a);
  }

  // ---------------------------------------------------------------- merge

  /**
   * What `other.each_pair` yields to merge!: the raw entries of a Hash, the
   * externalized entries of a Map, the pairs a hash-like object yields; other
   * objects have no each_pair.
   */
  function MergeSource(other: Val): (r: Result<Entries<Val>>)
    reads if other.RawHash? then {other.hash} else if other.MapView? then {other.innerMap}
      else if other.HashLike? then {other.toHash} else {}
    ensures r.Success? <==> other.RawHash? || other.MapView? || other.HashLike?
    ensures other.RawHash? ==> r == Success(other.hash.entries)
    ensures other.MapView? ==> r == Success(EachPair(other.innerMap.entries))
    ensures other.HashLike? ==> r == Success(other.toHash.entries)
    ensures r.Failure? ==> r.error == NoMethodError
  {
    match other
    case RawHash(h) => Success(h.entries)
    case MapView(h) => Success(EachPair(h.entries))
    case HashLike(h) => Success(h.entries)
    case _ => Failure(NoMethodError)
  }

  /**
   * One step of merge!: the incoming key is conformed against the current
   * entries; on a collision with a block the stored value becomes the
   * internalized block result, otherwise the incoming value is stored.
   */
  function MergeStep(es: Entries<Val>, e: (Key, Val), block: Option<MergeBlock>): (r: Entries<Val>)
    ensures DistinctKeys(es) ==> DistinctKeys(r)
  {
    var ck := ConformKey(es, e.0);
    if block.Some? && HasKey(es, ck) then
      Put(es, ck, Internalize(block.value(ck, Externalize(Get(es, ck).value), e.1)))
    else
      Put(es, ck, Internalize(e.1))
  }

  /** The entries after merging every incoming pair in order. */
  function MergeAll(es: Entries<Val>, src: Entries<Val>, block: Option<MergeBlock>): (r: Entries<Val>)
    ensures DistinctKeys(es) ==> DistinctKeys(r)
    decreases |src|
  {
    if src == [] then es else MergeAll(MergeStep(es, src[0], block), src[1..], block)
  }

  /** Map#merge! / update: merges other's pairs into the inner map in place and returns the Map. */
  method MergeBang(m: HashBox, other: Val, block: Option<MergeBlock>) returns (r: Result<Val>)
    requires m.Valid()
    modifies m
    ensures m.Valid()
    ensures old(MergeSource(other)).Failure? ==> r == Failure(NoMethodError) && m.entries == old(m.entries)
    ensures old(MergeSource(other)).Success? ==>
      r == Success(MapView(m)) && m.entries == MergeAll(old(m.entries), old(MergeSource(other)).value, block)
  {
    var src := MergeSource(other);
    if src.Failure? {
      return Failure(NoMethodError);
    }
    var pairs := src.value;
    ghost var start := m.entries;
    var i := 0;
    while i < |pairs|
      invariant 0 <= i <= |pairs|
      invariant m.Valid()
      invariant MergeAll(m.entries, pairs[i..], block) == MergeAll(start, pairs, block)
    {
      ghost var before := m.entries;
      MergeAllCons(before, pairs, i, block);
      var key := ConformKey(m.entries, pairs[i].0);
      if block.Some? && HasKey(m.entries, key) {
        var old_value := Lookup(m.entries, key);
        m.entries := Put(m.entries, key, Internalize(block.value(key, old_value, pairs[i].1)));
      } else {
        m.entries := Put(m.entries, key, Internalize(pairs[i].1));
      }
      assert m.entries == MergeStep(before, pairs[i], block);
      i := i + 1;
    }
    return Success(MapView(m));
  }

  /** Merging from position i on is merging pair i, then the rest. */
  lemma MergeAllCons(es: Entries<Val>, src: Entries<Val>, i: nat, block: Option<MergeBlock>)
    requires i < |src|
    ensures MergeAll(es, src[i..], block) == MergeAll(MergeStep(es, src[i], block), src[i + 1..], block)
  {
    assert src[i..][0] == src[i];
    assert src[i..][1..] == src[i + 1..];
  }

  /** Map#merge: merge! on a dup; the receiver's inner map is untouched. */
  method Merge(m: HashBox, other: Val, block: Option<MergeBlock>) returns (r: Result<Val>)
    requires m.Valid()
    ensures MergeSource(other).Failure? ==> r == Failure(NoMethodError)
    ensures MergeSource(other).Success? ==>
      r.Success? && r.value.MapView? && fresh(r.value.innerMap) &&
      r.value.innerMap.entries == MergeAll(m.entries, MergeSource(other).value, block)
  {
    var d := Dup(m);
    r := MergeBang(d, other, block);
  }

  /** The block is consulted only on a collision: an incoming key that conforms to nothing is stored as given. */
  lemma MergeStepNewKey(es: Entries<Val>, e: (Key, Val), block: Option<MergeBlock>)
    requires !KeyPresent(es, e.0)
    ensures MergeStep(es, e, block) == es + [(e.0, Internalize(e.1))]
  {
  }

  /** A colliding incoming key keeps the receiver's key form and position and changes only that entry. */
  lemma MergeStepCollision(es: Entries<Val>, e: (Key, Val), block: Option<MergeBlock>)
    requires KeyPresent(es, e.0)
    ensures KeysOf(MergeStep(es, e, block)) == KeysOf(es)
    ensures forall k :: k != ConformKey(es, e.0) ==> Get(MergeStep(es, e, block), k) == Get(es, k)
    ensures block.None? ==> Get(MergeStep(es, e, block), ConformKey(es, e.0)) == Some(Internalize(e.1))
    ensures block.Some? ==>
      Get(MergeStep(es, e, block), ConformKey(es, e.0)) == Some(Internalize(block.value(ConformKey(es, e.0), Lookup(es, e.0), e.1)))
  {
  }

  /** Merging never drops or reorders the receiver's keys: they stay a prefix of the result's keys. */
  lemma {:induction false} MergeKeepsReceiverKeys(es: Entries<Val>, src: Entries<Val>, block: Option<MergeBlock>)
    ensures |MergeAll(es, src, block)| >= |es|
    ensures KeysOf(MergeAll(es, src, block))[..|es|] == KeysOf(es)
    decreases |src|
  {
    if src != [] {
      var next := MergeStep(es, src[0], block);
      assert KeysOf(next)[..|es|] == KeysOf(es);
      MergeKeepsReceiverKeys(next, src[1..], block);
    }
  }

  /** After merging, every incoming key can be looked up (in either String/Symbol form it was given). */
  lemma MergeCoversIncomingKeys(es: Entries<Val>, src: Entries<Val>, block: Option<MergeBlock>)
    ensures forall i :: 0 <= i < |src| ==> KeyPresent(MergeAll(es, src, block), src[i].0)
  {
    forall i | 0 <= i < |src| ensures KeyPresent(MergeAll(es, src, block), src[i].0) {
      MergeCoversKey(es, src, block, i);
    }
  }

  /** The incoming key at position i is present once everything is merged. */
  lemma {:induction false} MergeCoversKey(es: Entries<Val>, src: Entries<Val>, block: Option<MergeBlock>, i: nat)
    requires i < |src|
    ensures KeyPresent(MergeAll(es, src, block), src[i].0)
    decreases |src|
  {
    var next := MergeStep(es, src[0], block);
    if i == 0 {
      MergeStepCovers(es, src[0], block);
      MergeKeepsPresence(next, src[1..], block, src[0].0);
    } else {
      assert src[i] == src[1..][i - 1];
      MergeCoversKey(next, src[1..], block, i - 1);
    }
  }

  /** One merge step makes its own key present. */
  lemma MergeStepCovers(es: Entries<Val>, e: (Key, Val), block: Option<MergeBlock>)
    ensures KeyPresent(MergeStep(es, e, block), e.0)
  {
  }

  /** One merge step keeps every present key present. */
  lemma MergeStepKeeps(es: Entries<Val>, e: (Key, Val), block: Option<MergeBlock>, k: Key)
    requires KeyPresent(es, k)
    ensures KeyPresent(MergeStep(es, e, block), k)
  {
    assert forall k' :: HasKey(es, k') ==> HasKey(MergeStep(es, e, block), k');
  }

  /** A key present before merging is still present after. */
  lemma {:induction false} MergeKeepsPresence(es: Entries<Val>, src: Entries<Val>, block: Option<MergeBlock>, k: Key)
    requires KeyPresent(es, k)
    ensures KeyPresent(MergeAll(es, src, block), k)
    decreases |src|
  {
    if src != [] {
      MergeStepKeeps(es, src[0], block, k);
      MergeKeepsPresence(MergeStep(es, src[0], block), src[1..], block, k);
    }
  }

  // ---------------------------------------------------------------- invert

  /**
   * Hash#invert on the inner map: values become keys and keys become values,
   * a later duplicate value overriding an earlier one. Values outside the key
   * universe of this model (nil, collections) give None.
   */
  function Inverted(es: Entries<Val>): (r: Option<Entries<Val>>)
    ensures r.Some? <==> forall i :: 0 <= i < |es| ==> es[i].1.Atom?
    ensures r.Some? ==> DistinctKeys(r.value)
  {
    if forall i :: 0 <= i < |es| ==> es[i].1.Atom? then
      Some(FromPairs(seq(|es|, i requires 0 <= i < |es| => (es[i].1.key, Atom(es[i].0)))))
    else None
  }

  /** Map#invert: a new Map over the inverted inner map. */
  method Invert(m: HashBox) returns (r: Option<Val>)
    ensures Inverted(m.entries).None? ==> r.None?
    ensures Inverted(m.entries).Some? ==>
      r.Some? && r.value.MapView? && fresh(r.value.innerMap) && r.value.innerMap.entries == Inverted(m.entries).value
  {
    match Inverted(m.entries)
    case None => r := None;
    case Some(ies) =>
      var h := new HashBox(ies);
      r := Some(MapView(h));
  }

  /** Inverting a Map whose values are pairwise distinct atoms, then inverting back, restores its entries. */
  lemma {:induction false} InvertTwice(es: Entries<Val>)
    requires DistinctKeys(es)
    requires forall i :: 0 <= i < |es| ==> es[i].1.Atom?
    requires forall i, j :: 0 <= i < j < |es| ==> es[i].1 != es[j].1
    ensures Inverted(es).Some? && Inverted(Inverted(es).value) == Some(es)
  {
    var ps := seq(|es|, i requires 0 <= i < |es| => (es[i].1.key, Atom(es[i].0)));
    assert DistinctKeys(ps);
    var once := Inverted(es).value;
    assert once == ps;
    var back := seq(|ps|, i requires 0 <= i < |ps| => (ps[i].1.key, Atom(ps[i].0)));
    assert back == es;
  }

  // ---------------------------------------------------------------- equality

  /** A Map equals any Hash over the same entries with every String/Symbol key in its alternate form. */
  lemma {:induction false} EqualsIndifferentFlip(h: HashBox, oh: HashBox, depth: nat)
    requires h != oh
    requires DistinctKeys(h.entries) && IndifferentlyDistinct(h.entries)
    requires |oh.entries| == |h.entries|
    requires forall i :: 0 <= i < |h.entries| ==> IsPlain(h.entries[i].1)
    requires forall i :: 0 <= i < |h.entries| ==>
      oh.entries[i] == (if Alternate(h.entries[i].0).Some? then Alternate(h.entries[i].0).value else h.entries[i].0, h.entries[i].1)
    requires depth > 0
    ensures MapEq(h, RawHash(oh), depth)
  {
    forall i | 0 <= i < |h.entries|
      ensures EntryMatches(h.entries[i], oh.entries, depth - 1)
    {
      FlipMatches(h, oh, depth - 1, i);
    }
  }

  lemma {:induction false} FlipMatches(h: HashBox, oh: HashBox, depth: nat, i: nat)
    requires DistinctKeys(h.entries) && IndifferentlyDistinct(h.entries)
    requires |oh.entries| == |h.entries|
    requires i < |h.entries| && IsPlain(h.entries[i].1)
    requires forall j :: 0 <= j < |h.entries| ==>
      oh.entries[j] == (if Alternate(h.entries[j].0).Some? then Alternate(h.entries[j].0).value else h.entries[j].0, h.entries[j].1)
    ensures EntryMatches(h.entries[i], oh.entries, depth)
  {
    var k := h.entries[i].0;
    var flipped := oh.entries[i].0;
    assert KeysOf(oh.entries)[i] == flipped;
    assert DistinctKeys(oh.entries) by {
      forall a, b | 0 <= a < b < |oh.entries| ensures oh.entries[a].0 != oh.entries[b].0 {
        AlternateInvolution(h.entries[a].0);
        AlternateInvolution(h.entries[b].0);
      }
    }
    if Alternate(k).Some? {
      assert !HasKey(oh.entries, k) by {
        forall j | 0 <= j < |oh.entries| ensures oh.entries[j].0 != k {
          AlternateInvolution(h.entries[j].0);
        }
      }
    }
    assert ConformKey(oh.entries, k) == flipped;
    assert Get(oh.entries, flipped) == Some(h.entries[i].1);
  }

  /** A Map and a Hash differ when some receiver value finds an unequal plain value under its conformed key. */
  lemma {:induction false} EqualsDetectsDifference(h: HashBox, oh: HashBox, depth: nat, i: nat)
    requires h != oh
    requires i < |h.entries| && IsPlain(h.entries[i].1)
    requires HasKey(oh.entries, ConformKey(oh.entries, h.entries[i].0))
    requires Get(oh.entries, ConformKey(oh.entries, h.entries[i].0)).value != h.entries[i].1
    ensures !MapEq(h, RawHash(oh), depth) && !MapEq(h, MapView(oh), depth)
  {
    if depth > 0 {
      assert !EntryMatches(h.entries[i], oh.entries, depth - 1);
    }
  }

  /** The depth bound only cuts comparisons off: a comparison that succeeds also succeeds with more depth. */
  lemma {:induction false} ValEqMonotone(a: Val, b: Val, depth: nat)
    requires ValEq(a, b, depth)
    ensures ValEq(a, b, depth + 1)
    decreases depth, 1
  {
    match Externalize(a)
    case MapView(h) => MapEqMonotone(h, b, depth);
    case ListView(x) => ListEqMonotone(x, b, depth);
    case _ =>
  }

  lemma {:induction false} MapEqMonotone(h: HashBox, other: Val, depth: nat)
    requires MapEq(h, other, depth)
    ensures MapEq(h, other, depth + 1)
    decreases depth, 0
  {
    var oh := MapTryConvert(other).value.innerMap;
    if oh != h {
      forall i | 0 <= i < |h.entries|
        ensures EntryMatches(h.entries[i], oh.entries, depth)
      {
        var e := h.entries[i];
        var ck := ConformKey(oh.entries, e.0);
        ValEqMonotone(Externalize(e.1), Externalize(Get(oh.entries, ck).value), depth - 1);
      }
    }
  }

  lemma {:induction false} ListEqMonotone(x: ArrayBox, other: Val, depth: nat)
    requires ListEq(x, other, depth)
    ensures ListEq(x, other, depth + 1)
    decreases depth, 0
  {
    var ox := ListTryDeconstruct(other).value;
    if !(other.ListView? && ox == x) {
      forall i | 0 <= i < |x.items|
        ensures ValEq(Externalize(x.items[i]), Externalize(ox.items[i]), depth)
      {
        ValEqMonotone(Externalize(x.items[i]), Externalize(ox.items[i]), depth - 1);
      }
    }
  }
}
