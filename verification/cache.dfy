/**
 The process-wide cache the endpoint invalidates. Only deletion of a key is
 modelled; what a cached entry holds is left to the type parameter.
 */
module Cache {

  /** The key under which the effective restrictions are cached. */
  const RestrictionsKey: string := "restrictions"

  /** Drops one entry; deleting an absent key is a no-op, not an error. */
  function Delete<V>(c: map<string, V>, key: string): (c': map<string, V>)
    ensures key !in c'
    ensures c'.Keys == c.Keys - {key}
    ensures forall k :: k in c' ==> c'[k] == c[k]
    ensures key !in c ==> c' == c
  {
    c - {key}
  }

  /** Invalidation is idempotent: a second delete of the same key changes nothing. */
  lemma DeleteIdempotent<V>(c: map<string, V>, key: string)
    ensures Delete(Delete(c, key), key) == Delete(c, key)
  {
  }
}
