/**
 * A key strategy: the interface the deep normalizers are parameterized by.
 * `needsCoercion` says whether a key must be replaced, `coerce` gives its
 * replacement.
 */
module KeyStrategy {
  import opened Keys

  datatype Strategy = Strategy(needsCoercion: Key -> bool, coerce: Key -> Key)

  /** The key a normalizer stores: coerced when the strategy says it needs it, else as given. */
  function CoerceKey(s: Strategy, k: Key): (r: Key)
    ensures s.needsCoercion(k) ==> r == s.coerce(k)
    ensures !s.needsCoercion(k) ==> r == k
  {
    if s.needsCoercion(k) then s.coerce(k) else k
  }

  /** A strategy whose coerced keys never need coercion again; both library strategies are settled. */
  ghost predicate Settled(s: Strategy) {
    forall k :: s.needsCoercion(k) ==> !s.needsCoercion(s.coerce(k))
  }
}
