/**
 * JSON values as the service receives them. An object is a Python dict:
 * its keys in insertion order plus the value stored under each key.
 * Node order matters downstream (the chain pass walks the nodes in this
 * order), so the order is part of the model.
 */
module Json {

  datatype Json =
    | JNull
    | JBool(b: bool)
    | JNum(n: int)
    | JStr(s: string)
    | JArr(items: seq<Json>)
    | JObj(obj: Dict<Json>)
  {
    /** `isinstance(x, (list, dict))`: values Python refuses as dict keys. */
    predicate Unhashable() {
      JArr? || JObj?
    }
  }

  /** A dict with string keys: `keys` is the iteration order, `vals` the contents. */
  datatype Dict<V> = Dict(keys: seq<string>, vals: map<string, V>)
  {
    /** Every key occurs once in the order, and the order lists exactly the stored keys. */
    ghost predicate Valid() {
      && Distinct(keys)
      && (forall k :: k in vals <==> k in keys)
    }

    /** `k in d` */
    predicate Has(k: string) {
      k in vals
    }

    /** `d.get(k, default)` */
    function Get(k: string, default: V): (v: V)
      ensures k in vals ==> v == vals[k]
      ensures k !in vals ==> v == default
    {
      if k in vals then vals[k] else default
    }

    /** `d[k] = v`: a new key goes to the end of the order, an existing key keeps its place. */
    function Set(k: string, v: V): (d: Dict<V>)
      ensures d.vals == vals[k := v]
      ensures d.keys == if k in vals then keys else keys + [k]
      ensures Valid() ==> d.Valid()
    {
      Dict(if k in vals then keys else keys + [k], vals[k := v])
    }

    /** `del d[k]` (and the removal half of `d.pop(k)`). */
    function Remove(k: string): (d: Dict<V>)
      ensures d.vals == vals - {k}
      ensures forall x :: x in d.keys <==> x in keys && x != k
      ensures Valid() ==> d.Valid()
    {
      Dict(Without(keys, k), vals - {k})
    }
  }

  /** `{}` */
  function Empty<V>(): (d: Dict<V>)
    ensures d.Valid() && d.vals == map[]
  {
    Dict([], map[])
  }

  /** The order with every occurrence of `k` dropped; the others keep their relative order. */
  function Without(s: seq<string>, k: string): (r: seq<string>)
    ensures forall x :: x in r <==> x in s && x != k
    ensures Distinct(s) ==> Distinct(r)
  {
    if s == [] then []
    else if s[0] == k then Without(s[1..], k)
    else
      var rest := Without(s[1..], k);
      assert Distinct(s) ==> s[0] !in s[1..];
      [s[0]] + rest
  }

  /** No element occurs twice. */
  ghost predicate Distinct<T>(s: seq<T>) {
    forall i, j :: 0 <= i < j < |s| ==> s[i] != s[j]
  }
}
