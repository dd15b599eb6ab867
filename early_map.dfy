/**
 * The earliest MapWithIndifferentAccess: a wrapper over its own Hash that
 * stores under exactly the key given and, on a read of an absent String or
 * Symbol key, falls back to the key's other form.
 */
module EarlyMap {
  import opened Wrappers
  import opened Keys
  import opened OrderedHash
  import opened Values

  /** The `[]` cascade over the inner Hash: the exact key, then the other form of a String or Symbol, else nil. */
  function Lookup(es: Entries<Val>, k: Key): (r: Val)
    ensures HasKey(es, k) ==> r == Get(es, k).value
    ensures !HasKey(es, k) && !k.Int? ==> r == (if HasKey(es, Alternate(k).value) then Get(es, Alternate(k).value).value else Nil)
    ensures !HasKey(es, k) && k.Int? ==> r == Nil
  {
    if HasKey(es, k) then Get(es, k).value
    else match k
      case Str(s) => GetOrNil(es, Sym(s))
      case Sym(s) => GetOrNil(es, Str(s))
      case Int(_) => Nil
  }

  /** Hash#[]: the stored value, or nil when the key is absent. */
  function GetOrNil(es: Entries<Val>, k: Key): (r: Val)
    ensures HasKey(es, k) ==> r == Get(es, k).value
    ensures !HasKey(es, k) ==> r == Nil
  {
    match Get(es, k)
    case Some(v) => v
    case None => Nil
  }

  class MapWithIndifferentAccess {
    var innerMap: Entries<Val>

    ghost predicate Valid()
      reads this
    {
      DistinctKeys(innerMap)
    }

    /** A new wrapper over a new, empty Hash. */
    constructor ()
      ensures Valid() && innerMap == []
    {
      innerMap := [];
    }

    /** `[]=`: stores under exactly the given key, with no String/Symbol conformance; answers the value. */
    method Store(k: Key, v: Val) returns (r: Val)
      requires Valid()
      modifies this
      ensures Valid()
      ensures innerMap == Put(old(innerMap), k, v)
      ensures r == v
    {
      innerMap := Put(innerMap, k, v);
      r := v;
    }

    /** `[]`: the exact key, then the other form of a String or Symbol. */
    function Read(k: Key): Val
      reads this
    {
      Lookup(innerMap, k)
    }
  }

  /** A store goes under the exact key: it reads back there, and the other form's entry is untouched. */
  lemma StoreIsExact(es: Entries<Val>, k: Key, v: Val)
    ensures Lookup(Put(es, k, v), k) == v
    ensures !k.Int? ==> Get(Put(es, k, v), Alternate(k).value) == Get(es, Alternate(k).value)
  {
  }

  /**
   * A String key stored reads back through its Symbol and a Symbol key through
   * its String, as long as the other form is not itself stored.
   */
  lemma ReadsBackIndifferently(es: Entries<Val>, k: Key, v: Val)
    requires !k.Int? && !HasKey(es, Alternate(k).value)
    ensures Lookup(Put(es, k, v), Alternate(k).value) == v
  {
    var a := Alternate(k).value;
    assert !HasKey(Put(es, k, v), a);
    AlternateInvolution(k);
  }

  /** When both forms are stored, each reads its own entry. */
  lemma BothFormsStored(es: Entries<Val>, k: Key)
    requires !k.Int? && HasKey(es, k) && HasKey(es, Alternate(k).value)
    ensures Lookup(es, k) == Get(es, k).value
    ensures Lookup(es, Alternate(k).value) == Get(es, Alternate(k).value).value
  {
  }

  /** An absent key with no other form, and an absent String or Symbol whose other form is absent, read as nil. */
  lemma AbsentReadsNil(es: Entries<Val>, k: Key)
    requires !HasKey(es, k) && (k.Int? || !HasKey(es, Alternate(k).value))
    ensures Lookup(es, k) == Nil
  {
  }
}
