/** The element type the map stores in its tree: a key and a value, compared
    by key alone, so that two pairs with the same key are the same element. */
module Pairs {
  import opened Keys

  datatype KeyValuePair = KeyValuePair(key: Key, value: string) {

    predicate Lt(other: KeyValuePair) { Less(key, other.key) }

    predicate Gt(other: KeyValuePair) { Less(other.key, key) }

    predicate Le(other: KeyValuePair) { !Less(other.key, key) }

    predicate Ge(other: KeyValuePair) { !Less(key, other.key) }

    predicate Eq(other: KeyValuePair) { key == other.key }
  }

  /** The five comparisons form a consistent total order on keys: exactly one
      of `<`, `==`, `>` holds, `<=` and `>=` are their unions, and values never
      take part. */
  lemma PairOrder(a: KeyValuePair, b: KeyValuePair, v: string, w: string)
    ensures a.Lt(b) || a.Eq(b) || a.Gt(b)
    ensures !(a.Lt(b) && a.Eq(b)) && !(a.Lt(b) && a.Gt(b)) && !(a.Eq(b) && a.Gt(b))
    ensures a.Le(b) <==> a.Lt(b) || a.Eq(b)
    ensures a.Ge(b) <==> a.Gt(b) || a.Eq(b)
    ensures a.Gt(b) <==> b.Lt(a)
    ensures a.Lt(b) <==> KeyValuePair(a.key, v).Lt(KeyValuePair(b.key, w))
    ensures a.Eq(b) <==> KeyValuePair(a.key, v).Eq(KeyValuePair(b.key, w))
  {
    LessTrichotomy(a.key, b.key);
  }
}
