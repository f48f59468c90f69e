/**
 * A request-scoped context as an immutable chain of key/value bindings: a
 * derived context extends its parent and never changes it.
 */
module Contexts {
  import opened Wrappers

  datatype Context<K, V> =
    | Background
    | TODO
    | WithValue(parent: Context<K, V>, key: K, val: V)

  /** Whether some link of the chain binds `key`. */
  predicate Binds<K(==), V>(ctx: Context<K, V>, key: K) {
    match ctx
    case WithValue(parent, k, _) => k == key || Binds(parent, key)
    case _ => false
  }

  /** `Context.Value`: the value of the nearest binding of `key`, searching from the newest link towards the root. */
  function Value<K(==), V>(ctx: Context<K, V>, key: K): (r: Option<V>)
    ensures r.Some? <==> Binds(ctx, key)
  {
    match ctx
    case WithValue(parent, k, v) => if k == key then Some(v) else Value(parent, key)
    case _ => None
  }
}
