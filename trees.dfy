/**
 * Nested data as the deep key normalizers see it: an immutable tree whose
 * nodes are plain values, Hash-like nodes and Array-like nodes. A Hash-like
 * node is a raw Hash, the library's Map over one, or an object answering
 * `to_hash` and `each_pair`; an Array-like node is a raw Array, the
 * library's List over one, or an object answering `to_ary`. A Hash-like node
 * lists its entries in insertion order.
 */
module Trees {
  import opened Keys
  import opened OrderedHash

  datatype HashKind = PlainHash | MapWrapped | ToHashObject
  datatype ArrayKind = PlainArray | ListWrapped | ToAryObject

  datatype Tree =
    | Scalar(key: Key)
    | HashNode(hashKind: HashKind, entries: seq<(Key, Tree)>)
    | ArrayNode(arrayKind: ArrayKind, items: seq<Tree>)

  function Hash(es: seq<(Key, Tree)>): Tree { HashNode(PlainHash, es) }
  function Array(xs: seq<Tree>): Tree { ArrayNode(PlainArray, xs) }

  /** A value stored in a Hash-like node is smaller than the node. */
  lemma EntrySmaller(owner: Tree, i: nat)
    requires owner.HashNode? && i < |owner.entries|
    ensures owner.entries[i].1 < owner
  {
    assert owner.entries[i] in owner.entries;
  }

  /** Every Hash in the tree has distinct keys, as a host Hash always does. */
  predicate WellFormed(t: Tree)
    decreases t
  {
    match t
    case Scalar(_) => true
    case HashNode(_, es) => DistinctKeys(es) && forall i :: 0 <= i < |es| ==> WellFormed(es[i].1)
    case ArrayNode(_, xs) => forall i :: 0 <= i < |xs| ==> WellFormed(xs[i])
  }

  /** Only plain values, raw Hashes and raw Arrays, at every depth. */
  predicate Raw(t: Tree)
    decreases t
  {
    match t
    case Scalar(_) => true
    case HashNode(kind, es) => kind == PlainHash && forall i :: 0 <= i < |es| ==> Raw(es[i].1)
    case ArrayNode(kind, xs) => kind == PlainArray && forall i :: 0 <= i < |xs| ==> Raw(xs[i])
  }

  /** Every key of every Hash-like node, at every depth, satisfies p. */
  predicate EveryKey(t: Tree, p: Key -> bool)
    decreases t
  {
    match t
    case Scalar(_) => true
    case HashNode(_, es) => forall i :: 0 <= i < |es| ==> p(es[i].0) && EveryKey(es[i].1, p)
    case ArrayNode(_, xs) => forall i :: 0 <= i < |xs| ==> EveryKey(xs[i], p)
  }

  /** A key property implied by another holds wherever the other does. */
  lemma {:induction false} EveryKeyWeaken(t: Tree, p: Key -> bool, q: Key -> bool)
    requires forall k :: p(k) ==> q(k)
    requires EveryKey(t, p)
    ensures EveryKey(t, q)
    decreases t
  {
    match t
    case Scalar(_) =>
    case HashNode(_, es) =>
      forall i | 0 <= i < |es| ensures q(es[i].0) && EveryKey(es[i].1, q) {
        EveryKeyWeaken(es[i].1, p, q);
      }
    case ArrayNode(_, xs) =>
      forall i | 0 <= i < |xs| ensures EveryKey(xs[i], q) {
        EveryKeyWeaken(xs[i], p, q);
      }
  }
}
