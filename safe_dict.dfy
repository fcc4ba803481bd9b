/** PixelMEDIA.PixelCore.SafeDict: typed getters with fallback defaults over a
    string-keyed dictionary of untyped values (typically parsed JSON). The
    wrapped map is fixed at construction, so the wrapper is a value. */
module SafeDictModel {
  import opened Wrappers
  import opened Int32
  import opened Values
  import ConversionHelper

  /** `value is T ? (T)value : nothing` for the four types the getters ask for.
      The test is on the exact runtime type: a boxed Int32 is not an Int64. */
  function AsString(v: Value): (r: Option<string>)
    ensures r.Some? <==> v.Str?
    ensures r.Some? ==> v == Str(r.value)
  {
    if v.Str? then Some(v.s) else None
  }

  function AsInt(v: Value): (r: Option<Int32>)
    ensures r.Some? <==> v.Int?
    ensures r.Some? ==> v == Int(r.value)
  {
    if v.Int? then Some(v.i) else None
  }

  function AsLong(v: Value): (r: Option<Int64>)
    ensures r.Some? <==> v.Long?
    ensures r.Some? ==> v == Long(r.value)
  {
    if v.Long? then Some(v.l) else None
  }

  function AsBool(v: Value): (r: Option<bool>)
    ensures r.Some? <==> v.Bool?
    ensures r.Some? ==> v == Bool(r.value)
  {
    if v.Bool? then Some(v.b) else None
  }

  datatype SafeDict = SafeDict(wrapped: map<string, Value>) {

    /** GetValue<T>(key, defaultValue): the stored value when the key is present
        and the value has type T, else the default. `cast` is the type test. */
    function GetValue<T>(key: string, cast: Value -> Option<T>, defaultValue: T): (r: T)
      ensures key in wrapped && cast(wrapped[key]).Some? ==> r == cast(wrapped[key]).value
      ensures key !in wrapped || cast(wrapped[key]).None? ==> r == defaultValue
    {
      if key in wrapped then
        match cast(wrapped[key])
        case Some(v) => v
        case None => defaultValue
      else defaultValue
    }

    /** GetString(key, defaultValue). */
    function GetStringOr(key: string, defaultValue: string): (r: string)
      ensures (key !in wrapped || !wrapped[key].Str?) ==> r == defaultValue
      ensures key in wrapped && wrapped[key].Str? ==> r == wrapped[key].s
    {
      GetValue(key, AsString, defaultValue)
    }

    /** GetString(key): the default is String.Empty. */
    function GetString(key: string): (r: string)
      ensures (key !in wrapped || !wrapped[key].Str?) ==> r == ""
      ensures key in wrapped && wrapped[key].Str? ==> r == wrapped[key].s
    {
      GetStringOr(key, "")
    }

    /** GetLong(key, defaultValue). */
    function GetLongOr(key: string, defaultValue: Int64): (r: Int64)
      ensures (key !in wrapped || !wrapped[key].Long?) ==> r == defaultValue
      ensures key in wrapped && wrapped[key].Long? ==> r == wrapped[key].l
    {
      GetValue(key, AsLong, defaultValue)
    }

    /** GetLong(key): the default is 0. */
    function GetLong(key: string): (r: Int64)
      ensures (key !in wrapped || !wrapped[key].Long?) ==> r == 0
      ensures key in wrapped && wrapped[key].Long? ==> r == wrapped[key].l
    {
      GetLongOr(key, 0)
    }

    /** GetInt(key, defaultValue): returns a long, but only a boxed Int32 is
        accepted; there is no widening from a stored Int64. */
    function GetIntOr(key: string, defaultValue: Int32): (r: Int64)
      ensures (key !in wrapped || !wrapped[key].Int?) ==> r == defaultValue
      ensures key in wrapped && wrapped[key].Int? ==> r == wrapped[key].i
    {
      GetValue(key, AsInt, defaultValue)
    }

    function GetInt(key: string): (r: Int64)
      ensures (key !in wrapped || !wrapped[key].Int?) ==> r == 0
      ensures key in wrapped && wrapped[key].Int? ==> r == wrapped[key].i
    {
      GetIntOr(key, 0)
    }

    /** GetBool(key, defaultValue). */
    function GetBoolOr(key: string, defaultValue: bool): (r: bool)
      ensures (key !in wrapped || !wrapped[key].Bool?) ==> r == defaultValue
      ensures key in wrapped && wrapped[key].Bool? ==> r == wrapped[key].b
    {
      GetValue(key, AsBool, defaultValue)
    }

    /** GetBool(key): the default is false. */
    function GetBool(key: string): (r: bool)
      ensures r <==> key in wrapped && wrapped[key] == Bool(true)
    {
      GetBoolOr(key, false)
    }

    /** GetDict(key): the nested dictionary at key, or an empty wrapper when the
        key is missing or holds something that is not a dictionary
        (`value as JsonDict` is then null and the constructor substitutes an
        empty dictionary). */
    function GetDict(key: string): (r: SafeDict)
      ensures key in wrapped && wrapped[key].Dict? ==> r.wrapped == wrapped[key].entries
      ensures !(key in wrapped && wrapped[key].Dict?) ==> r.wrapped == map[]
    {
      if key in wrapped then New(if wrapped[key].Dict? then Some(wrapped[key].entries) else None)
      else New(Some(map[]))
    }
  }

  /** new SafeDict(dict): a null dictionary becomes an empty one. */
  function New(dict: Option<map<string, Value>>): (r: SafeDict)
    ensures dict.Some? ==> r.wrapped == dict.value
    ensures dict.None? ==> r.wrapped == map[]
  {
    match dict
    case Some(m) => SafeDict(m)
    case None => SafeDict(map[])
  }

  /** SafeDict.FromDict(dict): a wrapper over a copy of dict with each value
      boxed as an object; `box` is that boxing. */
  method FromDict<T>(dict: map<string, T>, box: T -> Value) returns (r: SafeDict)
    ensures r.wrapped.Keys == dict.Keys
    ensures forall k :: k in dict ==> r.wrapped[k] == box(dict[k])
  {
    var json := ConversionHelper.MakeJsonDict(dict, box);
    r := New(Some(json));
  }

  /** A wrapper built from null answers every lookup with the caller's default. */
  lemma NullGivesDefaults<T>(key: string, cast: Value -> Option<T>, d: T)
    ensures New(None).GetValue(key, cast, d) == d
    ensures New(None).GetString(key) == "" && New(None).GetInt(key) == 0
    ensures New(None).GetLong(key) == 0 && !New(None).GetBool(key)
    ensures New(None).GetDict(key).wrapped == map[]
  {
  }

  /** GetValue yields the stored value exactly when the key is present and the
      value has the requested type; a stored null always yields the default. */
  lemma GetValueExact<T>(sd: SafeDict, key: string, cast: Value -> Option<T>, d: T)
    requires forall v :: cast(v).Some? ==> v != Null
    ensures key in sd.wrapped && sd.wrapped[key] == Null ==> sd.GetValue(key, cast, d) == d
    ensures key in sd.wrapped && cast(sd.wrapped[key]).Some? ==> sd.GetValue(key, cast, d) == cast(sd.wrapped[key]).value
  {
    if key in sd.wrapped && sd.wrapped[key] == Null {
      assert cast(Null).None?;
    }
  }

  /** No numeric widening: an Int64 under the key gives GetInt's default, and
      an Int32 gives GetLong's default. */
  lemma NoWidening(sd: SafeDict, key: string, x: Int64, y: Int32, d: Int32, e: Int64)
    ensures key in sd.wrapped && sd.wrapped[key] == Long(x) ==> sd.GetIntOr(key, d) == d && sd.GetInt(key) == 0
    ensures key in sd.wrapped && sd.wrapped[key] == Int(y) ==> sd.GetLongOr(key, e) == e && sd.GetLong(key) == 0
  {
  }

  /** A wrapper returned by GetDict for a missing or non-dictionary value
      answers every lookup with the default. */
  lemma GetDictOfNonDict<T>(sd: SafeDict, key: string, key2: string, cast: Value -> Option<T>, d: T)
    requires key !in sd.wrapped || !sd.wrapped[key].Dict?
    ensures sd.GetDict(key).GetValue(key2, cast, d) == d
    ensures sd.GetDict(key).GetDict(key2).wrapped == map[]
  {
  }

  /** GetDict wraps the nested map itself, so a lookup through it is the nested
      lookup. */
  lemma GetDictThenGetValue<T>(sd: SafeDict, key: string, key2: string, cast: Value -> Option<T>, d: T)
    requires key in sd.wrapped && sd.wrapped[key].Dict?
    ensures sd.GetDict(key).GetValue(key2, cast, d) == SafeDict(sd.wrapped[key].entries).GetValue(key2, cast, d)
    ensures key2 in sd.wrapped[key].entries && cast(sd.wrapped[key].entries[key2]).Some? ==>
              sd.GetDict(key).GetValue(key2, cast, d) == cast(sd.wrapped[key].entries[key2]).value
  {
  }

  /** Example from the source's intent: {"a": "text"} gives GetInt("a", 5) == 5. */
  lemma StringIsNotParsedAsInt()
    ensures SafeDict(map["a" := Str("text")]).GetIntOr("a", 5) == 5
    ensures SafeDict(map["a" := Str("text")]).GetString("a") == "text"
  {
  }
}
