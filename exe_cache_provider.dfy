/** PixelExe.Providers.ExeCacheProvider: the ICacheProvider of console and
    service programs, two in-process dictionaries of objects, one for the
    "session" and one for the "application". */
module ExeCacheProviderModel {
  import opened Wrappers
  import opened Values

  /** The cast `(T)obj`. `unbox(v)` is the T that v holds when its runtime
      type is T; `nullAs` is what null becomes: Some(null) for a reference or
      Nullable type, None for a value type, where unboxing null throws
      NullReferenceException. Any other mismatch is InvalidCastException. */
  function CastTo<T>(v: Value, unbox: Value -> Option<T>, nullAs: Option<T>): (r: Result<T>)
    ensures v == Null && nullAs.Some? ==> r == Ok(nullAs.value)
    ensures v == Null && nullAs.None? ==> r == Err(NullReference)
    ensures v != Null && unbox(v).Some? ==> r == Ok(unbox(v).value)
    ensures v != Null && unbox(v).None? ==> r == Err(InvalidCast)
  {
    if v == Null then
      (if nullAs.Some? then Ok(nullAs.value) else Err(NullReference))
    else if unbox(v).Some? then Ok(unbox(v).value)
    else Err(InvalidCast)
  }

  /** TryGetValue's lookup: the stored object, or null for a missing key. */
  function Lookup(cache: map<string, Value>, key: string): (r: Value)
    ensures key in cache ==> r == cache[key]
    ensures key !in cache ==> r == Null
  {
    if key in cache then cache[key] else Null
  }

  class ExeCacheProvider {
    var sessionCache: map<string, Value>
    var applicationCache: map<string, Value>

    /** Both caches start empty: every key reads back null. */
    constructor ()
      ensures sessionCache == map[] && applicationCache == map[]
      ensures forall key :: GetSessionCacheItem(key) == Null && GetApplicationCacheItem(key) == Null
    {
      sessionCache := map[];
      applicationCache := map[];
    }

    /** GetSessionCacheItem(key): the stored object, null when absent. */
    function GetSessionCacheItem(key: string): (r: Value)
      reads this
      ensures r != Null ==> key in sessionCache && sessionCache[key] == r
      ensures key !in sessionCache ==> r == Null
    {
      Lookup(sessionCache, key)
    }

    /** GetSessionCacheItem<T>(key): the stored object cast to T. */
    function GetSessionCacheItemAs<T>(key: string, unbox: Value -> Option<T>, nullAs: Option<T>): (r: Result<T>)
      reads this
      ensures key !in sessionCache ==> r == CastTo(Null, unbox, nullAs)
      ensures key in sessionCache ==> r == CastTo(sessionCache[key], unbox, nullAs)
    {
      CastTo(GetSessionCacheItem(key), unbox, nullAs)
    }

    /** SetSessionCacheItem(key, value): stores (overwriting) the boxed value
        and returns value; nothing else changes. */
    method SetSessionCacheItem<T>(key: string, value: T, box: T -> Value) returns (r: T)
      modifies this
      ensures r == value
      ensures sessionCache == old(sessionCache)[key := box(value)]
      ensures applicationCache == old(applicationCache)
      ensures GetSessionCacheItem(key) == box(value)
      ensures forall k :: k != key ==> GetSessionCacheItem(k) == old(GetSessionCacheItem(k))
      ensures HasSessionCacheItem(key) <==> box(value) != Null
    {
      sessionCache := sessionCache[key := box(value)];
      r := value;
    }

    /** HasSessionCacheItem(key): the key holds a non-null object. */
    predicate HasSessionCacheItem(key: string)
      reads this
      ensures HasSessionCacheItem(key) <==> key in sessionCache && sessionCache[key] != Null
    {
      GetSessionCacheItem(key) != Null
    }

    /** GetApplicationCacheItem(key): the stored object, null when absent. */
    function GetApplicationCacheItem(key: string): (r: Value)
      reads this
      ensures r != Null ==> key in applicationCache && applicationCache[key] == r
      ensures key !in applicationCache ==> r == Null
    {
      Lookup(applicationCache, key)
    }

    /** GetApplicationCacheItem<T>(key): the stored object cast to T. */
    function GetApplicationCacheItemAs<T>(key: string, unbox: Value -> Option<T>, nullAs: Option<T>): (r: Result<T>)
      reads this
      ensures key !in applicationCache ==> r == CastTo(Null, unbox, nullAs)
      ensures key in applicationCache ==> r == CastTo(applicationCache[key], unbox, nullAs)
    {
      CastTo(GetApplicationCacheItem(key), unbox, nullAs)
    }

    /** SetApplicationCacheItem(key, value): stores (overwriting) the boxed
        value and returns value; nothing else changes. */
    method SetApplicationCacheItem<T>(key: string, value: T, box: T -> Value) returns (r: T)
      modifies this
      ensures r == value
      ensures applicationCache == old(applicationCache)[key := box(value)]
      ensures sessionCache == old(sessionCache)
      ensures GetApplicationCacheItem(key) == box(value)
      ensures forall k :: k != key ==> GetApplicationCacheItem(k) == old(GetApplicationCacheItem(k))
      ensures HasApplicationCacheItem(key) <==> box(value) != Null
    {
      applicationCache := applicationCache[key := box(value)];
      r := value;
    }

    /** HasApplicationCacheItem(key): the key holds a non-null object. */
    predicate HasApplicationCacheItem(key: string)
      reads this
      ensures HasApplicationCacheItem(key) <==> key in applicationCache && applicationCache[key] != Null
    {
      GetApplicationCacheItem(key) != Null
    }
  }

  /** A typed read after a typed write of the same type returns the value
      written, provided unboxing undoes boxing. */
  lemma TypedReadBack<T>(cache: map<string, Value>, key: string, value: T,
                         box: T -> Value, unbox: Value -> Option<T>, nullAs: Option<T>)
    requires box(value) != Null ==> unbox(box(value)) == Some(value)
    requires box(value) == Null ==> nullAs == Some(value)
    ensures CastTo(Lookup(cache[key := box(value)], key), unbox, nullAs) == Ok(value)
  {
  }
}
