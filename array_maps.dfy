/** The client's `Map<string, T[]>` helpers: `pushKeyToArrayMap` (written the
    same way in both client revisions) and `populateArrayWithValuesFromMap`. */
module ArrayMaps {
  import opened Wrappers
  import opened JsStrings
  import opened JsMaps

  /** A `Map<string, T[]>` object, mutated in place by pushKeyToArrayMap. */
  class ArrayMap<T> {
    var contents: JsMap<seq<T>>

    ghost predicate Valid()
      reads this
    {
      contents.Valid()
    }

    constructor ()
      ensures Valid() && contents == Empty()
    {
      contents := Empty();
    }
  }

  /** The map contents after `pushKeyToArrayMap(key, value, map)`. An existing
      array, even an empty one (`[]` is truthy), gets `value` at its end; a
      missing key gets `[value]`. */
  function Pushed<T>(m: JsMap<seq<T>>, key: string, value: T): (r: JsMap<seq<T>>)
    requires m.Valid()
    ensures r.Valid()
  {
    match m.Get(key)
    case Some(arr) => m.Set(key, arr + [value])
    case None => m.Set(key, [value])
  }

  /** `pushKeyToArrayMap(key, value, map)`. */
  method PushKeyToArrayMap<T>(key: string, value: T, m: ArrayMap<T>)
    requires m.Valid()
    modifies m
    ensures m.Valid()
    ensures m.contents == Pushed(old(m.contents), key, value)
  {
    var existing := m.contents.Get(key);
    if existing.Some? {
      m.contents := m.contents.Set(key, existing.value + [value]);
    } else {
      m.contents := m.contents.Set(key, [value]);
    }
  }

  /** The pushed key's array: the old one with `value` at the end, or `[value]`. */
  lemma PushedAppends<T>(m: JsMap<seq<T>>, key: string, value: T)
    requires m.Valid()
    ensures key in m.entries ==> Pushed(m, key, value).entries[key] == m.entries[key] + [value]
    ensures key !in m.entries ==> Pushed(m, key, value).entries[key] == [value]
  {
  }

  /** Afterwards the keys are the old keys and `key`; a new key is last in order. */
  lemma PushedKeys<T>(m: JsMap<seq<T>>, key: string, value: T)
    requires m.Valid()
    ensures Pushed(m, key, value).entries.Keys == m.entries.Keys + {key}
    ensures Pushed(m, key, value).keys == if key in m.entries then m.keys else m.keys + [key]
  {
  }

  /** Every other key keeps its array. */
  lemma PushedLeavesOthers<T>(m: JsMap<seq<T>>, key: string, value: T)
    requires m.Valid()
    ensures forall k :: k in m.entries && k != key ==> Pushed(m, key, value).entries[k] == m.entries[k]
  {
  }

  predicate Distinct(keys: seq<string>) {
    forall i, j :: 0 <= i < j < |keys| ==> keys[i] != keys[j]
  }

  /** The number of values stored under `keys`. */
  function SumLengths<T>(keys: seq<string>, entries: map<string, seq<T>>): nat
    requires forall k :: k in keys ==> k in entries
  {
    if keys == [] then 0
    else SumLengths(keys[..|keys| - 1], entries) + |entries[keys[|keys| - 1]]|
  }

  /** The sum is the first key's length and the sum over the rest. */
  lemma {:induction false} SumLengthsCons<T>(keys: seq<string>, entries: map<string, seq<T>>)
    requires forall k :: k in keys ==> k in entries
    requires keys != []
    ensures SumLengths(keys, entries) == |entries[keys[0]]| + SumLengths(keys[1..], entries)
  {
    if |keys| > 1 {
      SumLengthsCons(keys[..|keys| - 1], entries);
      assert keys[..|keys| - 1][1..] == keys[1..][..|keys| - 2];
    }
  }

  /** No array under a listed key is longer than the sum. */
  lemma {:induction false} SumBounds<T>(keys: seq<string>, entries: map<string, seq<T>>)
    requires forall k :: k in keys ==> k in entries
    ensures forall k :: k in keys ==> |entries[k]| <= SumLengths(keys, entries)
  {
    if keys != [] {
      var prefix := keys[..|keys| - 1];
      SumBounds(prefix, entries);
      assert forall k :: k in keys ==> k in prefix || k == keys[|keys| - 1];
    }
  }

  /** The number of values in the map, over all keys. */
  function TotalValues<T>(m: JsMap<seq<T>>): (r: nat)
    requires m.Valid()
    ensures forall k :: k in m.entries ==> |m.entries[k]| <= r
  {
    SumBounds(m.keys, m.entries);
    SumLengths(m.keys, m.entries)
  }

  lemma {:induction false} SumUnrelated<T>(keys: seq<string>, entries: map<string, seq<T>>, k: string, v: seq<T>)
    requires forall x :: x in keys ==> x in entries
    requires k !in keys
    ensures SumLengths(keys, entries[k := v]) == SumLengths(keys, entries)
  {
    if keys != [] {
      SumUnrelated(keys[..|keys| - 1], entries, k, v);
    }
  }

  lemma {:induction false} SumUpdate<T>(keys: seq<string>, entries: map<string, seq<T>>, k: string, v: seq<T>)
    requires forall x :: x in keys ==> x in entries
    requires Distinct(keys) && k in keys
    ensures SumLengths(keys, entries[k := v]) == SumLengths(keys, entries) - |entries[k]| + |v|
  {
    var prefix := keys[..|keys| - 1];
    if keys[|keys| - 1] == k {
      assert forall i :: 0 <= i < |prefix| ==> prefix[i] != k;
      SumUnrelated(prefix, entries, k, v);
    } else {
      assert k in prefix;
      SumUpdate(prefix, entries, k, v);
    }
  }

  /** A push stores exactly one more value. */
  lemma PushedTotal<T>(m: JsMap<seq<T>>, key: string, value: T)
    requires m.Valid()
    ensures TotalValues(Pushed(m, key, value)) == TotalValues(m) + 1
  {
    var r := Pushed(m, key, value);
    if key in m.entries {
      assert r.keys == m.keys && r.entries == m.entries[key := m.entries[key] + [value]];
      SumUpdate(m.keys, m.entries, key, m.entries[key] + [value]);
    } else {
      assert r.keys == m.keys + [key] && r.entries == m.entries[key := [value]];
      assert r.keys[..|r.keys| - 1] == m.keys;
      SumUnrelated(m.keys, m.entries, key, [value]);
    }
  }

  /** A key populateArrayWithValuesFromMap keeps: it includes the needle and is
      not the empty string, which the `!!key` filter drops. */
  predicate Selected(key: string, needle: string) {
    key != "" && Contains(key, needle)
  }

  /** `x` is stored under one of the selected keys. */
  ghost predicate UnderSelectedKey<T>(keys: seq<string>, entries: map<string, seq<T>>, needle: string, x: T)
    requires forall k :: k in keys ==> k in entries
  {
    exists i :: 0 <= i < |keys| && Selected(keys[i], needle) && x in entries[keys[i]]
  }

  /** The arrays of the selected keys, concatenated in key order. */
  function MatchingValues<T>(keys: seq<string>, entries: map<string, seq<T>>, needle: string): (r: seq<T>)
    requires forall k :: k in keys ==> k in entries
    ensures |r| <= SumLengths(keys, entries)
  {
    if keys == [] then []
    else
      SumLengthsCons(keys, entries);
      (if Selected(keys[0], needle) then entries[keys[0]] else []) + MatchingValues(keys[1..], entries, needle)
  }

  /** Every value of the result is stored under a selected key. */
  lemma {:induction false} MatchingValuesSound<T>(keys: seq<string>, entries: map<string, seq<T>>, needle: string, j: nat)
    requires forall k :: k in keys ==> k in entries
    requires j < |MatchingValues(keys, entries, needle)|
    ensures UnderSelectedKey(keys, entries, needle, MatchingValues(keys, entries, needle)[j])
  {
    var head := if Selected(keys[0], needle) then entries[keys[0]] else [];
    var rest := MatchingValues(keys[1..], entries, needle);
    if j < |head| {
      assert MatchingValues(keys, entries, needle)[j] == head[j];
    } else {
      assert MatchingValues(keys, entries, needle)[j] == rest[j - |head|];
      MatchingValuesSound(keys[1..], entries, needle, j - |head|);
      var i :| 0 <= i < |keys[1..]| && Selected(keys[1..][i], needle) && rest[j - |head|] in entries[keys[1..][i]];
      assert keys[1..][i] == keys[i + 1];
    }
    assert keys[0] in entries;
  }

  /** Every value stored under a selected key is in the result. */
  lemma {:induction false} MatchingValuesComplete<T>(keys: seq<string>, entries: map<string, seq<T>>, needle: string, i: nat, v: T)
    requires forall k :: k in keys ==> k in entries
    requires i < |keys| && Selected(keys[i], needle) && v in entries[keys[i]]
    ensures v in MatchingValues(keys, entries, needle)
  {
    if i > 0 {
      assert keys[1..][i - 1] == keys[i];
      MatchingValuesComplete(keys[1..], entries, needle, i - 1, v);
    }
  }

  /** Both directions together: a value is in the result exactly when it is
      stored under a selected key. */
  lemma MatchingValuesMembers<T>(keys: seq<string>, entries: map<string, seq<T>>, needle: string)
    requires forall k :: k in keys ==> k in entries
    ensures forall j :: 0 <= j < |MatchingValues(keys, entries, needle)| ==>
              UnderSelectedKey(keys, entries, needle, MatchingValues(keys, entries, needle)[j])
    ensures forall i, v :: (0 <= i < |keys| && Selected(keys[i], needle) && v in entries[keys[i]]) ==>
              v in MatchingValues(keys, entries, needle)
  {
    forall j | 0 <= j < |MatchingValues(keys, entries, needle)|
      ensures UnderSelectedKey(keys, entries, needle, MatchingValues(keys, entries, needle)[j])
    {
      MatchingValuesSound(keys, entries, needle, j);
    }
    forall i, v | 0 <= i < |keys| && Selected(keys[i], needle) && v in entries[keys[i]]
      ensures v in MatchingValues(keys, entries, needle)
    {
      MatchingValuesComplete(keys, entries, needle, i, v);
    }
  }

  /** `populateArrayWithValuesFromMap(value, map)`: every value of the result
      is stored under a non-empty key that includes the lower-cased `value`,
      and every value stored under such a key is in the result. Being a
      function, it leaves the map as it is. */
  function PopulateArrayWithValuesFromMap<T>(value: string, m: ArrayMap<T>): (r: seq<T>)
    reads m
    requires m.Valid()
    ensures forall j :: 0 <= j < |r| ==> UnderSelectedKey(m.contents.keys, m.contents.entries, ToLowerAscii(value), r[j])
    ensures forall i, v ::
              (0 <= i < |m.contents.keys| && Selected(m.contents.keys[i], ToLowerAscii(value))
               && v in m.contents.entries[m.contents.keys[i]]) ==> v in r
  {
    MatchingValuesMembers(m.contents.keys, m.contents.entries, ToLowerAscii(value));
    MatchingValues(m.contents.keys, m.contents.entries, ToLowerAscii(value))
  }

  /** The result follows key order: the keys split in two give the two results in that order. */
  lemma {:induction false} MatchingValuesAppend<T>(k1: seq<string>, k2: seq<string>, entries: map<string, seq<T>>, needle: string)
    requires forall k :: k in k1 + k2 ==> k in entries
    ensures MatchingValues(k1 + k2, entries, needle) == MatchingValues(k1, entries, needle) + MatchingValues(k2, entries, needle)
  {
    if k1 != [] {
      assert (k1 + k2)[1..] == k1[1..] + k2;
      MatchingValuesAppend(k1[1..], k2, entries, needle);
    } else {
      assert k1 + k2 == k2;
    }
  }

  /** The empty key never contributes, wherever it stands. */
  lemma EmptyKeyIgnored<T>(k1: seq<string>, k2: seq<string>, entries: map<string, seq<T>>, needle: string)
    requires forall k :: k in k1 ==> k in entries
    requires forall k :: k in k2 ==> k in entries
    requires "" in entries
    ensures MatchingValues(k1 + ([""] + k2), entries, needle) == MatchingValues(k1 + k2, entries, needle)
  {
    MatchingValuesAppend(k1, [""] + k2, entries, needle);
    MatchingValuesAppend([""], k2, entries, needle);
    MatchingValuesAppend(k1, k2, entries, needle);
    assert MatchingValues([""], entries, needle) == [];
  }

  /** Only the search value is lower-cased: a key without lower-case ASCII
      letters is never selected by a value that has an ASCII letter. */
  lemma KeysAreCaseSensitive(key: string, value: string, i: nat)
    requires i < |value| && ('A' <= value[i] <= 'Z' || 'a' <= value[i] <= 'z')
    requires forall j :: 0 <= j < |key| ==> !('a' <= key[j] <= 'z')
    ensures !Selected(key, ToLowerAscii(value))
  {
    var needle := ToLowerAscii(value);
    assert 'a' <= needle[i] <= 'z';
    forall j | 0 <= j && j + |needle| <= |key|
      ensures !OccursAt(key, needle, j)
    {
      assert key[j..j + |needle|][i] == key[j + i];
    }
  }
}
