// Plain JavaScript objects used as records (`row`) and as the aggregation
// specification (`agg`): the property names in insertion order and the value
// stored under each. `o[k] = v` overwrites an existing property in place and
// appends a new one.

module Objects {

  /** An optional argument: a value, or `undefined`. */
  datatype Option<T> = None | Some(value: T)

  datatype Obj<V> = Obj(keys: seq<string>, vals: map<string, V>)

  /** `{}` */
  function Empty<V>(): Obj<V>
  {
    Obj([], map[])
  }

  /** Each property is listed once, and exactly the listed properties have values. */
  predicate Valid<V>(o: Obj<V>)
  {
    && (forall i, j :: 0 <= i < j < |o.keys| ==> o.keys[i] != o.keys[j])
    && (forall k :: k in o.keys ==> k in o.vals)
    && (forall k :: k in o.vals ==> k in o.keys)
  }

  /** `o[k] = v`. */
  function Put<V>(o: Obj<V>, k: string, v: V): Obj<V>
  {
    if k in o.vals then Obj(o.keys, o.vals[k := v]) else Obj(o.keys + [k], o.vals[k := v])
  }

  /** Assignment keeps an object well formed, reads back the assigned value,
      leaves every other property alone, and appends only a new name. */
  lemma PutSpec<V>(o: Obj<V>, k: string, v: V)
    requires Valid(o)
    ensures Valid(Put(o, k, v))
    ensures k in Put(o, k, v).vals && Put(o, k, v).vals[k] == v
    ensures forall k' :: k' != k ==> (k' in Put(o, k, v).vals <==> k' in o.vals)
    ensures forall k' :: k' != k && k' in o.vals ==> Put(o, k, v).vals[k'] == o.vals[k']
    ensures Put(o, k, v).keys == if k in o.keys then o.keys else o.keys + [k]
  {
  }
}
