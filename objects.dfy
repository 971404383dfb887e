/**
 * A JavaScript object used as a dictionary with string keys: a map together
 * with the order in which its keys were first assigned, which is the order
 * `for..in` and `$.each` visit them.
 */
module Objects {

  predicate Distinct(s: seq<string>)
  {
    forall i, j :: 0 <= i < j < |s| ==> s[i] != s[j]
  }

  /** The position of `k` in `s`: its first occurrence. */
  function IndexOf(s: seq<string>, k: string): (i: nat)
    requires k in s
    ensures i < |s| && s[i] == k
    ensures forall j :: 0 <= j < i ==> s[j] != k
  {
    if s[0] == k then 0 else 1 + IndexOf(s[1..], k)
  }

  datatype Dict<V> = Dict(keys: seq<string>, vals: map<string, V>)
  {
    /** Every key is listed once, and the listed keys are the map's keys. */
    predicate Valid()
    {
      && Distinct(keys)
      && (forall k :: k in vals ==> k in keys)
      && (forall k :: k in keys ==> k in vals)
    }
  }

  /** The empty object `{}`. */
  function Empty<V>(): (d: Dict<V>)
    ensures d.Valid() && d.keys == [] && d.vals == map[]
  {
    Dict([], map[])
  }

  /**
   * The assignment `d[k] = v`: a new key goes to the end of the order, an
   * existing key keeps its place and gets the new value.
   */
  function Put<V>(d: Dict<V>, k: string, v: V): (r: Dict<V>)
    requires d.Valid()
    ensures r.Valid()
    ensures r.vals == d.vals[k := v]
    ensures k in d.vals ==> r.keys == d.keys
    ensures k !in d.vals ==> r.keys == d.keys + [k]
  {
    Dict(if k in d.vals then d.keys else d.keys + [k], d.vals[k := v])
  }
}
