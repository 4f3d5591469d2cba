/** Configuration lookup: each configurable object keeps the sub-object of the
    global configuration stored under its key, and reads tunables from it with
    a fallback value. */
module Configurable {
  import opened Wrappers
  import opened Json

  /** Conversion of a JSON value to a double: only numbers convert. */
  function AsNumber(j: Json): Option<real>
  {
    if j.Number? then Some(j.num) else None
  }

  /** Conversion of a JSON value to a string: only strings convert. */
  function AsString(j: Json): Option<string>
  {
    if j.String? then Some(j.str) else None
  }

  /** `getOrDefault<T>`: the value under `key` converted to T, or the default
      when the key is absent, holds null, or does not convert. */
  function GetOrDefault<T>(j: Json, key: string, defaultValue: T, convert: Json -> Option<T>): (r: T)
    ensures r == defaultValue || (Contains(j, key) && convert(Member(j, key)) == Some(r))
  {
    if Contains(j, key) && !Member(j, key).Null? then
      match convert(Member(j, key))
      case Some(v) => v
      case None => defaultValue
    else defaultValue
  }

  /** The lookup either falls back to the default or returns exactly the
      converted stored value, and it falls back in precisely the three cases
      of an absent key, a null value and a failed conversion. */
  lemma GetOrDefaultCases<T>(j: Json, key: string, defaultValue: T, convert: Json -> Option<T>)
    ensures !Contains(j, key) ==> GetOrDefault(j, key, defaultValue, convert) == defaultValue
    ensures Contains(j, key) && Member(j, key).Null? ==>
              GetOrDefault(j, key, defaultValue, convert) == defaultValue
    ensures Contains(j, key) && convert(Member(j, key)).None? ==>
              GetOrDefault(j, key, defaultValue, convert) == defaultValue
    ensures Contains(j, key) && !Member(j, key).Null? && convert(Member(j, key)).Some? ==>
              GetOrDefault(j, key, defaultValue, convert) == convert(Member(j, key)).value
  {
  }

  /** Reading a key back after storing a value under it gives the converted
      value, or the default for null and unconvertible values; storing under
      another key does not affect the lookup. */
  lemma GetOrDefaultAfterStore<T>(fields: map<string, Json>, key: string, other: string, v: Json,
                                  defaultValue: T, convert: Json -> Option<T>)
    requires other != key
    ensures GetOrDefault(Object(fields[key := v]), key, defaultValue, convert)
            == if v.Null? || convert(v).None? then defaultValue else convert(v).value
    ensures GetOrDefault(Object(fields[other := v]), key, defaultValue, convert)
            == GetOrDefault(Object(fields), key, defaultValue, convert)
  {
    var j, j' := Object(fields), Object(fields[other := v]);
    assert Contains(j', key) <==> Contains(j, key);
    if Contains(j, key) {
      assert Member(j', key) == Member(j, key);
    }
  }

  /** `confNum`: a number stored under `key` overrides the default. */
  function ConfNum(config: Json, key: string, defaultVal: real := 0.0): (r: real)
    ensures Contains(config, key) && Member(config, key).Number? ==> Member(config, key) == Number(r)
    ensures !(Contains(config, key) && Member(config, key).Number?) ==> r == defaultVal
  {
    GetOrDefault(config, key, defaultVal, AsNumber)
  }

  /** `confStr`: a string stored under `key` overrides the default. */
  function ConfStr(config: Json, key: string, defaultVal: string := ""): (r: string)
    ensures Contains(config, key) && Member(config, key).String? ==> Member(config, key) == String(r)
    ensures !(Contains(config, key) && Member(config, key).String?) ==> r == defaultVal
  {
    GetOrDefault(config, key, defaultVal, AsString)
  }

  /** Without an explicit default, a missing number reads as 0 and a missing
      string as the empty string. */
  lemma DefaultArguments(config: Json, key: string)
    requires !Contains(config, key)
    ensures ConfNum(config, key) == 0.0
    ensures ConfStr(config, key) == ""
  {
  }

  /** A configuration holding a = 100, b = 0, a_str = "100" and b_str = "",
      and neither c nor c_str: stored values win, missing keys fall back. */
  lemma SampleComponent(config: Json)
    requires config == Object(map[
      "a" := Number(100.0), "b" := Number(0.0),
      "a_str" := String("100"), "b_str" := String("")])
    ensures ConfNum(config, "a", 10.0) == 100.0
    ensures ConfNum(config, "b", 10.0) == 0.0
    ensures ConfNum(config, "c", 10.0) == 10.0
    ensures ConfStr(config, "a_str", "10") == "100"
    ensures ConfStr(config, "b_str", "goat") == ""
    ensures ConfStr(config, "c_str", "balloon") == "balloon"
  {
  }

  /** What `global[key]` reads: the value under `key`, or null when absent. */
  function Section(global: Json, key: string): Json
  {
    if Contains(global, key) then Member(global, key) else Null
  }

  /** The process-wide configuration document, as loaded from the file. */
  class ConfigStore {
    var global: Json

    constructor (loaded: Json)
      ensures global == loaded
    {
      global := loaded;
    }

    /** `global[key]` on the mutable document: the value under `key`, or null
        when it is absent, in which case the key is added with a null value
        (a null document first becomes an empty object). */
    method Snapshot(key: string) returns (config: Json)
      requires global.Null? || global.Object?
      modifies this
      ensures config == Section(old(global), key)
      ensures Contains(global, key) && Member(global, key) == config
      ensures forall k :: Contains(old(global), k) ==>
                Contains(global, k) && Member(global, k) == Member(old(global), k)
      ensures forall k :: Contains(global, k) ==> k == key || Contains(old(global), k)
    {
      match global
      case Null =>
        global := Object(map[key := Null]);
        config := Null;
      case Object(m) =>
        if key in m {
          config := m[key];
        } else {
          global := Object(m[key := Null]);
          config := Null;
        }
    }
  }
}
