/** Object helpers (src/object.ts). A plain record is a map from its own
    string keys to values; `pick` and `omit` build a new record and leave
    their input alone. */
module Objects {
  import opened Types
  import Assertions
  import Arrays

  /** The record an object literal denotes: a later entry for the same key
      overwrites an earlier one. */
  function Record(entries: seq<(string, JsValue)>): map<string, JsValue> {
    if |entries| == 0 then map[]
    else Record(entries[..|entries| - 1])[entries[|entries| - 1].0 := entries[|entries| - 1].1]
  }

  /** `keyInObject(val, key)`: `val` is a non-array object and has `key`
      among its own keys. */
  function KeyInObject(v: JsValue, key: string): (r: bool)
    ensures r ==> Assertions.IsObject(v)
  {
    Assertions.IsObject(v) && exists i :: 0 <= i < |v.entries| && v.entries[i].0 == key
  }

  /** On an object, `keyInObject` asks whether the record it denotes has the
      key; on anything else it is false. */
  lemma KeyInObjectRecord(v: JsValue, key: string)
    ensures v.Object? ==> (KeyInObject(v, key) <==> key in Record(v.entries))
    ensures !v.Object? ==> !KeyInObject(v, key)
  {
    if v.Object? {
      RecordKeys(v.entries, key);
    }
  }

  /** The keys of a record are exactly the keys of its entries. */
  lemma {:induction false} RecordKeys(entries: seq<(string, JsValue)>, key: string)
    ensures key in Record(entries) <==> exists i :: 0 <= i < |entries| && entries[i].0 == key
  {
    if |entries| > 0 {
      var init := entries[..|entries| - 1];
      RecordKeys(init, key);
      if key in Record(init) {
        var i :| 0 <= i < |init| && init[i].0 == key;
        assert entries[i].0 == key;
      }
    }
  }

  /** The record `pick(input, keys)` returns: the listed keys the input has,
      with the input's values. */
  function Picked<V>(m: map<string, V>, ks: seq<string>): map<string, V> {
    map k | k in m && k in ks :: m[k]
  }

  /** The record `omit(input, keys)` returns: a copy of the input without the
      listed keys. */
  function Omitted<V>(m: map<string, V>, ks: seq<string>): map<string, V> {
    map k | k in m && k !in ks :: m[k]
  }

  /** `pick(input, keys)`. */
  method Pick<V>(input: map<string, V>, keys: MaybeArray<string>) returns (picked: map<string, V>)
    ensures forall k :: k in picked <==> k in input && k in Arrays.ToArray(keys)
    ensures forall k :: k in picked ==> picked[k] == input[k]
    ensures picked == Picked(input, Arrays.ToArray(keys))
  {
    var ks := Arrays.ToArray(keys);
    picked := map[];
    for i := 0 to |ks|
      invariant forall k :: k in picked <==> k in input && k in ks[..i]
      invariant forall k :: k in picked ==> picked[k] == input[k]
    {
      assert ks[..i + 1] == ks[..i] + [ks[i]];
      var key := ks[i];
      if key in input {
        picked := picked[key := input[key]];
      }
    }
    assert ks[..|ks|] == ks;
  }

  /** `omit(input, keys)`: works on a shallow copy, so `input` is unchanged. */
  method Omit<V>(input: map<string, V>, keys: MaybeArray<string>) returns (partial: map<string, V>)
    ensures forall k :: k in partial <==> k in input && k !in Arrays.ToArray(keys)
    ensures forall k :: k in partial ==> partial[k] == input[k]
    ensures partial == Omitted(input, Arrays.ToArray(keys))
  {
    var ks := Arrays.ToArray(keys);
    partial := input;
    for i := 0 to |ks|
      invariant forall k :: k in partial <==> k in input && k !in ks[..i]
      invariant forall k :: k in partial ==> partial[k] == input[k]
    {
      assert ks[..i + 1] == ks[..i] + [ks[i]];
      var key := ks[i];
      if key in input {
        partial := partial - {key};
      }
    }
    assert ks[..|ks|] == ks;
  }

  /** `pick` and `omit` with the same keys split a record in two: their key
      sets are disjoint and together make up the input. */
  lemma PickOmitPartition<V>(m: map<string, V>, ks: seq<string>)
    ensures Picked(m, ks).Keys !! Omitted(m, ks).Keys
    ensures Picked(m, ks) + Omitted(m, ks) == m
  {
    assert (Picked(m, ks) + Omitted(m, ks)).Keys == m.Keys;
  }

  /** Picking again with the same keys changes nothing, and so does omitting
      again. */
  lemma PickOmitIdempotent<V>(m: map<string, V>, ks: seq<string>)
    ensures Picked(Picked(m, ks), ks) == Picked(m, ks)
    ensures Omitted(Omitted(m, ks), ks) == Omitted(m, ks)
  {
  }

  /** Omitting keys is picking the rest. */
  lemma OmitIsPickOfRest<V>(m: map<string, V>, ks: seq<string>, rest: seq<string>)
    requires forall k :: k in m ==> (k in rest <==> k !in ks)
    ensures Omitted(m, ks) == Picked(m, rest)
  {
  }

  /** A single key behaves like a one-element list, and null or undefined
      like no keys at all. */
  lemma PickKeyShapes<V>(m: map<string, V>, key: string)
    ensures Picked(m, Arrays.ToArray(Single(key))) == Picked(m, [key])
    ensures Omitted(m, Arrays.ToArray(Single(key))) == Omitted(m, [key])
    ensures Picked(m, Arrays.ToArray(Nullish)) == map[]
    ensures Omitted(m, Arrays.ToArray(Nullish)) == m
  {
  }
}
