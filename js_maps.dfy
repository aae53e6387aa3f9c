/** JavaScript's `Map<string, V>` as a value: the keys in the order they were
    first set, and the entries. `set` on a present key replaces its value and
    keeps its position; `forEach` visits the values in key order. */
module JsMaps {
  import opened Wrappers

  datatype JsMap<V> = JsMap(keys: seq<string>, entries: map<string, V>) {

    /** Every key is listed once, and exactly the entries' keys are listed. */
    ghost predicate Valid() {
      && (forall i, j :: 0 <= i < j < |keys| ==> keys[i] != keys[j])
      && (forall k :: k in entries <==> k in keys)
    }

    /** `map.get(k)`: the value stored under `k`, or undefined (None) when
        `k` was never set. */
    function Get(k: string): (r: Option<V>)
      ensures r.Some? <==> k in entries
      ensures r.Some? ==> r.value == entries[k]
    {
      if k in entries then Some(entries[k]) else None
    }

    /** `map.set(k, v)`: a new key goes to the end, a present one stays where it is. */
    function Set(k: string, v: V): (r: JsMap<V>)
      requires Valid()
      ensures r.Valid()
      ensures k in entries ==> r.keys == keys
    {
      JsMap(if k in entries then keys else keys + [k], entries[k := v])
    }

    /** The values in key order, as `forEach` visits them. */
    function Values(): (r: seq<V>)
      requires Valid()
      ensures |r| == |keys|
      ensures forall i :: 0 <= i < |keys| ==> r[i] == entries[keys[i]]
    {
      seq(|keys|, i requires 0 <= i < |keys| => entries[keys[i]])
    }
  }

  /** `new Map()`. */
  function Empty<V>(): (r: JsMap<V>)
    ensures r.Valid() && r.keys == []
  {
    JsMap([], map[])
  }

  /** After `set(k, v)`, `get(k)` is `v` and every other key reads as before. */
  lemma SetThenGet<V>(m: JsMap<V>, k: string, v: V)
    requires m.Valid()
    ensures m.Set(k, v).Get(k) == Some(v)
    ensures forall x :: x != k ==> m.Set(k, v).Get(x) == m.Get(x)
  {
  }

  /** Setting a key twice leaves what setting it once to the second value leaves. */
  lemma SetTwice<V>(m: JsMap<V>, k: string, a: V, b: V)
    requires m.Valid()
    ensures m.Set(k, a).Set(k, b) == m.Set(k, b)
  {
    assert m.entries[k := a][k := b] == m.entries[k := b];
  }

  /** The distinct elements of `xs`, each at the place it first occurs: the
      key order a map ends with after its keys were set in the order `xs`. */
  function FirstOccurrences(xs: seq<string>): (r: seq<string>)
    ensures |r| <= |xs|
    ensures forall x :: x in r <==> x in xs
    ensures forall i, j :: 0 <= i < j < |r| ==> r[i] != r[j]
  {
    if xs == [] then []
    else
      var prefix := FirstOccurrences(xs[..|xs| - 1]);
      assert forall x :: x in xs <==> x in xs[..|xs| - 1] || x == xs[|xs| - 1];
      if xs[|xs| - 1] in prefix then prefix else prefix + [xs[|xs| - 1]]
  }
}
