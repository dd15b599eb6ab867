/**
 * The host language's Hash, as the wrappers use it: an insertion-ordered
 * sequence of entries whose keys are pairwise distinct. Storing at an existing
 * key replaces the value in place; storing a new key appends an entry.
 */
module OrderedHash {
  import opened Wrappers
  import opened Keys

  type Entries<V> = seq<(Key, V)>

  function KeysOf<V>(es: Entries<V>): (ks: seq<Key>)
    ensures |ks| == |es|
    ensures forall i :: 0 <= i < |es| ==> ks[i] == es[i].0
  {
    seq(|es|, i requires 0 <= i < |es| => es[i].0)
  }

  predicate HasKey<V>(es: Entries<V>, k: Key) {
    k in KeysOf(es)
  }

  /** The representation invariant of a Hash. */
  predicate DistinctKeys<V>(es: Entries<V>) {
    forall i, j :: 0 <= i < j < |es| ==> es[i].0 != es[j].0
  }

  /** The position of the entry for k, if any. */
  function IndexOf<V>(es: Entries<V>, k: Key): (r: Option<nat>)
    ensures r.None? <==> !HasKey(es, k)
    ensures r.Some? ==> r.value < |es| && es[r.value].0 == k
    ensures r.Some? ==> forall j :: 0 <= j < r.value ==> es[j].0 != k
  {
    if es == [] then None
    else if es[0].0 == k then Some(0)
    else
      assert KeysOf(es) == [es[0].0] + KeysOf(es[1..]);
      match IndexOf(es[1..], k)
      case None => None
      case Some(i) => Some(i + 1)
  }

  /** IndexOf is determined by the first occurrence of the key. */
  lemma {:induction false} IndexOfFirst<V>(es: Entries<V>, k: Key, i: nat)
    requires i < |es| && es[i].0 == k
    requires forall j :: 0 <= j < i ==> es[j].0 != k
    ensures IndexOf(es, k) == Some(i)
  {
    assert KeysOf(es)[i] == k;
  }

  /** Hash#[] without a default: the value stored under k. */
  function Get<V>(es: Entries<V>, k: Key): (r: Option<V>)
    ensures r.Some? <==> HasKey(es, k)
    ensures DistinctKeys(es) ==> forall i :: 0 <= i < |es| && es[i].0 == k ==> r == Some(es[i].1)
  {
    match IndexOf(es, k)
    case None => None
    case Some(i) => Some(es[i].1)
  }

  /** Hash#[]=: replace the value of an existing key in place, or append a new entry. */
  function Put<V>(es: Entries<V>, k: Key, v: V): (r: Entries<V>)
    ensures HasKey(es, k) ==> |r| == |es| && KeysOf(r) == KeysOf(es)
    ensures !HasKey(es, k) ==> r == es + [(k, v)]
    ensures DistinctKeys(es) ==> DistinctKeys(r)
    ensures Get(r, k) == Some(v)
    ensures forall k' :: k' != k ==> Get(r, k') == Get(es, k')
    ensures forall k' :: HasKey(r, k') <==> HasKey(es, k') || k' == k
    ensures forall i :: 0 <= i < |r| ==> r[i] == (k, v) || r[i] in es
  {
    match IndexOf(es, k)
    case None =>
      assert KeysOf(es + [(k, v)]) == KeysOf(es) + [k];
      AppendPreservesGet(es, k, v);
      es + [(k, v)]
    case Some(i) =>
      var r := es[i := (k, v)];
      assert KeysOf(r) == KeysOf(es);
      ReplacePreservesGet(es, i, v);
      r
  }

  lemma {:induction false} AppendPreservesGet<V>(es: Entries<V>, k: Key, v: V)
    requires !HasKey(es, k)
    ensures Get(es + [(k, v)], k) == Some(v)
    ensures forall k' :: k' != k ==> Get(es + [(k, v)], k') == Get(es, k')
  {
    var r := es + [(k, v)];
    assert KeysOf(r) == KeysOf(es) + [k];
    assert forall j :: 0 <= j < |es| ==> r[j] == es[j];
    forall j | 0 <= j < |es| ensures r[j].0 != k {
      assert KeysOf(es)[j] == es[j].0;
    }
    IndexOfFirst(r, k, |es|);
    forall k' | k' != k
      ensures Get(r, k') == Get(es, k')
    {
      AppendOther(es, k, v, k');
    }
  }

  lemma {:induction false} AppendOther<V>(es: Entries<V>, k: Key, v: V, k': Key)
    requires k' != k
    ensures IndexOf(es + [(k, v)], k') == IndexOf(es, k')
  {
    var r := es + [(k, v)];
    assert KeysOf(r) == KeysOf(es) + [k];
    assert forall j :: 0 <= j < |es| ==> r[j] == es[j];
    match IndexOf(es, k')
    case None =>
      assert !HasKey(r, k');
    case Some(i) =>
      IndexOfFirst(r, k', i);
  }

  lemma {:induction false} ReplacePreservesGet<V>(es: Entries<V>, i: nat, v: V)
    requires i < |es| && IndexOf(es, es[i].0) == Some(i)
    ensures Get(es[i := (es[i].0, v)], es[i].0) == Some(v)
    ensures forall k' :: k' != es[i].0 ==> Get(es[i := (es[i].0, v)], k') == Get(es, k')
  {
    var k := es[i].0;
    var r := es[i := (k, v)];
    assert KeysOf(r) == KeysOf(es);
    IndexOfFirst(r, k, i);
    forall k' | k' != k
      ensures Get(r, k') == Get(es, k')
    {
      match IndexOf(es, k')
      case None =>
      case Some(j) =>
        IndexOfFirst(r, k', j);
    }
  }

  /** Hash#delete: drop the entry for k, keeping the order of the others. */
  function Remove<V>(es: Entries<V>, k: Key): (r: Entries<V>)
    ensures !HasKey(es, k) ==> r == es
    ensures HasKey(es, k) ==> var i := IndexOf(es, k).value; r == es[..i] + es[i + 1..]
    ensures DistinctKeys(es) ==> DistinctKeys(r) && !HasKey(r, k)
    ensures forall k' :: k' != k ==> Get(r, k') == Get(es, k')
  {
    match IndexOf(es, k)
    case None => es
    case Some(i) =>
      RemoveAtFacts(es, i);
      es[..i] + es[i + 1..]
  }

  lemma {:induction false} RemoveAtFacts<V>(es: Entries<V>, i: nat)
    requires i < |es| && IndexOf(es, es[i].0) == Some(i)
    ensures DistinctKeys(es) ==> DistinctKeys(es[..i] + es[i + 1..]) && !HasKey(es[..i] + es[i + 1..], es[i].0)
    ensures forall k' :: k' != es[i].0 ==> Get(es[..i] + es[i + 1..], k') == Get(es, k')
  {
    var r := es[..i] + es[i + 1..];
    if DistinctKeys(es) {
      RemoveAtDistinct(es, i);
    }
    forall k' | k' != es[i].0
      ensures Get(r, k') == Get(es, k')
    {
      RemoveAtOther(es, i, k');
    }
  }

  lemma {:induction false} RemoveAtDistinct<V>(es: Entries<V>, i: nat)
    requires i < |es| && DistinctKeys(es)
    ensures DistinctKeys(es[..i] + es[i + 1..]) && !HasKey(es[..i] + es[i + 1..], es[i].0)
  {
    var r := es[..i] + es[i + 1..];
    assert forall j :: 0 <= j < |r| ==> r[j] == if j < i then es[j] else es[j + 1];
    assert forall j :: 0 <= j < |r| ==> KeysOf(r)[j] != es[i].0;
  }

  lemma {:induction false} RemoveAtOther<V>(es: Entries<V>, i: nat, k': Key)
    requires i < |es| && IndexOf(es, es[i].0) == Some(i) && k' != es[i].0
    ensures Get(es[..i] + es[i + 1..], k') == Get(es, k')
  {
    var r := es[..i] + es[i + 1..];
    WithoutAt(es, i);
    match IndexOf(es, k')
    case None =>
      WithoutAbsent(es, i, r, k');
    case Some(j) =>
      if j < i {
        WithoutBefore(es, i, r, j);
      } else {
        WithoutAfter(es, i, r, j);
      }
  }

  /** r is es with the entry at position i taken out. */
  ghost predicate Without<V>(es: Entries<V>, i: nat, r: Entries<V>) {
    i < |es| && |r| == |es| - 1 &&
    (forall m :: 0 <= m < i ==> r[m] == es[m]) &&
    (forall m :: i <= m < |r| ==> r[m] == es[m + 1])
  }

  lemma WithoutAt<V>(es: Entries<V>, i: nat)
    requires i < |es|
    ensures Without(es, i, es[..i] + es[i + 1..])
  {
  }

  /** A key es lacks is still missing once an entry is taken out. */
  lemma WithoutAbsent<V>(es: Entries<V>, i: nat, r: Entries<V>, k': Key)
    requires Without(es, i, r) && !HasKey(es, k')
    ensures !HasKey(r, k') && Get(r, k') == Get(es, k') == None
  {
    forall m | 0 <= m < |r| ensures KeysOf(r)[m] != k' {
      var m' := if m < i then m else m + 1;
      assert r[m] == es[m'];
      assert KeysOf(es)[m'] == es[m'].0;
    }
  }

  /** The first occurrence of a key before the gap keeps its position. */
  lemma WithoutBefore<V>(es: Entries<V>, i: nat, r: Entries<V>, j: nat)
    requires Without(es, i, r) && j < i && IndexOf(es, es[j].0) == Some(j)
    ensures IndexOf(r, es[j].0) == Some(j)
    ensures Get(r, es[j].0) == Get(es, es[j].0)
  {
    assert forall m :: 0 <= m <= j ==> r[m] == es[m];
    IndexOfFirst(r, es[j].0, j);
    GetAt(r, es[j].0, j);
    GetAt(es, es[j].0, j);
  }

  /** The first occurrence of a key after the gap moves down by one position. */
  lemma WithoutAfter<V>(es: Entries<V>, i: nat, r: Entries<V>, j: nat)
    requires Without(es, i, r) && i < j < |es| && IndexOf(es, es[j].0) == Some(j)
    ensures IndexOf(r, es[j].0) == Some(j - 1)
    ensures Get(r, es[j].0) == Get(es, es[j].0)
  {
    var k := es[j].0;
    forall m | 0 <= m < j - 1
      ensures r[m].0 != k
    {
      if m < i {
        assert r[m] == es[m];
      } else {
        assert r[m] == es[m + 1];
      }
    }
    assert r[j - 1] == es[j];
    IndexOfFirst(r, k, j - 1);
    GetAt(r, k, j - 1);
    GetAt(es, k, j);
  }

  /** Get reads the entry IndexOf finds. */
  lemma GetAt<V>(es: Entries<V>, k: Key, i: nat)
    requires IndexOf(es, k) == Some(i)
    ensures Get(es, k) == Some(es[i].1)
  {
  }


  /** Hash#select / Hash#reject: the entries satisfying keep, in their original order. */
  function Filter<V>(es: Entries<V>, keep: (Key, V) -> bool): (r: Entries<V>)
    ensures |r| <= |es|
    ensures forall i :: 0 <= i < |r| ==> keep(r[i].0, r[i].1)
    ensures (forall i :: 0 <= i < |es| ==> keep(es[i].0, es[i].1)) ==> r == es
  {
    if es == [] then []
    else
      var rest := Filter(es[1..], keep);
      assert es == [es[0]] + es[1..];
      assert (forall i :: 0 <= i < |es| ==> keep(es[i].0, es[i].1)) ==>
        forall i :: 0 <= i < |es[1..]| ==> keep(es[1..][i].0, es[1..][i].1);
      if keep(es[0].0, es[0].1) then [es[0]] + rest else rest
  }

  /** Every entry Filter keeps is an entry of the input. */
  lemma {:induction false} FilterFrom<V>(es: Entries<V>, keep: (Key, V) -> bool)
    ensures forall i :: 0 <= i < |Filter(es, keep)| ==> Filter(es, keep)[i] in es
  {
    if es != [] {
      FilterFrom(es[1..], keep);
      var rest := Filter(es[1..], keep);
      forall i | 0 <= i < |rest| ensures rest[i] in es {
        var j :| 0 <= j < |es[1..]| && es[1..][j] == rest[i];
        assert es[j + 1] == rest[i];
      }
      if keep(es[0].0, es[0].1) {
        var r := [es[0]] + rest;
        forall i | 0 <= i < |r| ensures r[i] in es {
          if i > 0 {
            assert r[i] == rest[i - 1];
          }
        }
      }
    }
  }

  /** Every entry of the input that satisfies keep is kept. */
  lemma {:induction false} FilterKeeps<V>(es: Entries<V>, keep: (Key, V) -> bool)
    ensures forall i :: 0 <= i < |es| && keep(es[i].0, es[i].1) ==> es[i] in Filter(es, keep)
  {
    if es != [] {
      FilterKeeps(es[1..], keep);
      var rest := Filter(es[1..], keep);
      forall i | 1 <= i < |es| && keep(es[i].0, es[i].1) ensures es[i] in rest {
        assert es[i] == es[1..][i - 1];
      }
    }
  }

  /** Filter keeps the keys of a distinct-key Hash distinct. */
  lemma {:induction false} FilterDistinct<V>(es: Entries<V>, keep: (Key, V) -> bool)
    ensures DistinctKeys(es) ==> DistinctKeys(Filter(es, keep))
  {
    if es != [] && DistinctKeys(es) {
      assert DistinctKeys(es[1..]);
      FilterDistinct(es[1..], keep);
      FilterFrom(es[1..], keep);
      var rest := Filter(es[1..], keep);
      if keep(es[0].0, es[0].1) {
        var r := [es[0]] + rest;
        forall i | 0 <= i < |rest| ensures rest[i].0 != es[0].0 {
          var j :| 0 <= j < |es[1..]| && es[1..][j] == rest[i];
          assert es[j + 1] == rest[i];
        }
        forall i, j | 0 <= i < j < |r| ensures r[i].0 != r[j].0 {
          assert r[j] == rest[j - 1];
          if i > 0 {
            assert r[i] == rest[i - 1];
          }
        }
      }
    }
  }

  /** Filtering one more entry extends the filtered prefix by that entry or by nothing. */
  lemma {:induction false} FilterAppend<V>(es: Entries<V>, e: (Key, V), keep: (Key, V) -> bool)
    ensures Filter(es + [e], keep) == Filter(es, keep) + (if keep(e.0, e.1) then [e] else [])
    decreases |es|
  {
    if es == [] {
      assert [e][1..] == [];
    } else {
      assert (es + [e])[1..] == es[1..] + [e];
      FilterAppend(es[1..], e, keep);
    }
  }

  /** The distinct-key Hash obtained by storing pairs in order (later values win, first key position kept). */
  function FromPairs<V>(ps: Entries<V>): (r: Entries<V>)
    ensures DistinctKeys(r)
    ensures forall k :: HasKey(r, k) <==> HasKey(ps, k)
    ensures DistinctKeys(ps) ==> r == ps
  {
    if ps == [] then []
    else
      var init := ps[..|ps| - 1];
      var last := ps[|ps| - 1];
      assert ps == init + [last];
      assert KeysOf(ps) == KeysOf(init) + [last.0];
      SnocDistinct(init, last);
      Put(FromPairs(init), last.0, last.1)
  }

  /** A distinct-key sequence with one more entry: the prefix is distinct and lacks the last key. */
  lemma SnocDistinct<V>(init: Entries<V>, last: (Key, V))
    ensures DistinctKeys(init + [last]) ==> DistinctKeys(init) && !HasKey(init, last.0)
  {
    var ps := init + [last];
    if DistinctKeys(ps) {
      assert forall i :: 0 <= i < |init| ==> ps[i] == init[i];
      assert ps[|init|] == last;
      assert forall i :: 0 <= i < |init| ==> KeysOf(init)[i] != last.0;
    }
  }

  /** Every entry FromPairs builds is one of the pairs. */
  lemma {:induction false} FromPairsFrom<V>(ps: Entries<V>)
    ensures forall i :: 0 <= i < |FromPairs(ps)| ==> FromPairs(ps)[i] in ps
  {
    if ps != [] {
      var init := ps[..|ps| - 1];
      var last := ps[|ps| - 1];
      assert ps == init + [last];
      FromPairsFrom(init);
      var r := FromPairs(ps);
      assert r == Put(FromPairs(init), last.0, last.1);
      forall i | 0 <= i < |r| ensures r[i] in ps {
        if r[i] != last {
          assert r[i] in FromPairs(init);
          var j :| 0 <= j < |FromPairs(init)| && FromPairs(init)[j] == r[i];
          assert r[i] in init;
        }
      }
    }
  }

  /** FromPairs stores the pairs one after the other. */
  lemma FromPairsAppend<V>(ps: Entries<V>, p: (Key, V))
    ensures FromPairs(ps + [p]) == Put(FromPairs(ps), p.0, p.1)
  {
    assert (ps + [p])[..|ps|] == ps;
  }

  /** Storing under the key of an existing entry of a distinct-key Hash replaces that entry where it stands. */
  lemma PutAt<V>(es: Entries<V>, i: nat, v: V)
    requires DistinctKeys(es) && i < |es|
    ensures Put(es, es[i].0, v) == es[i := (es[i].0, v)]
  {
    IndexOfFirst(es, es[i].0, i);
  }

  /** The first key whose value satisfies p (Hash#key, Hash#rassoc). */
  function FirstKeyWhere<V>(es: Entries<V>, p: V -> bool): (r: Option<nat>)
    ensures r.None? <==> forall i :: 0 <= i < |es| ==> !p(es[i].1)
    ensures r.Some? ==> r.value < |es| && p(es[r.value].1) && forall j :: 0 <= j < r.value ==> !p(es[j].1)
  {
    if es == [] then None
    else if p(es[0].1) then Some(0)
    else match FirstKeyWhere(es[1..], p)
      case None => None
      case Some(i) => Some(i + 1)
  }
}
