/** `RedisCacheImpl`: a Spring `Cache` over the facade.  Values are stored
    serialized, under a key made of the cache key's bytes, with the cache's
    default delay (thirty minutes).  `get`, `put` and the first half of
    `putIfAbsent` address a String key by its UTF-8 bytes and any other key
    by its serialized form; `get(key, type)`, `evict` and the existence
    check of `putIfAbsent` address every key by its `toString()`. */
module Cache {
  import opened Wrappers
  import opened JavaLang
  import opened Hessian
  import opened FacadeSpec
  import opened Facade
  import Store

  /** Thirty minutes, in seconds. */
  const DefaultCacheExpire: Int32 := 30 * 60

  /** `toByte(key)`: a String by its UTF-8 bytes, anything else serialized. */
  function ToByte<T>(c: Codec<T>, key: JValue<T>): (r: Bytes)
    ensures key.JString? ==> r == Wire(key.s)
    ensures !key.JString? ==> r == c.serialize(key)
  {
    if key.JString? then Wire(key.s) else c.serialize(key)
  }

  /** `toString(key)`: a `byte[]` is deserialized first; `toString` of
      null throws, and so do bytes that are not a serialized value. */
  function ToText<T>(c: Codec<T>, key: JValue<T>): (r: Outcome<string>)
    ensures key.JNull? ==> r == Threw(NullPointer)
    ensures key.JString? ==> r == Returned(key.s)
    ensures key.JBytes? && c.deserialize(key.b).None? ==> r == Threw(Undecodable)
    ensures key.JBytes? && c.deserialize(key.b).Some? ==>
              r == (match ToJavaString(c, c.deserialize(key.b).value)
                    case None => Threw(NullPointer)
                    case Some(s) => Returned(s))
  {
    match key
    case JBytes(b) =>
      (match c.deserialize(b)
       case None => Threw(Undecodable)
       case Some(v) => if v.JNull? then Threw(NullPointer) else Returned(ToJavaString(c, v).value))
    case JNull => Threw(NullPointer)
    case JString(s) => Returned(s)
    case JList(_) => Returned(c.describe(key))
    case JObject(_) => Returned(c.describe(key))
  }

  /** What `get(key)` answers over the keyspace `db`: no wrapper for a
      null key, a missing key, a key holding no string, or a failed call; the
      deserialized value otherwise, and the codec's exception for bytes it
      cannot read. */
  function Lookup<T>(c: Codec<T>, db: Store.Db, key: JValue<T>, faults: set<nat>): Outcome<Option<JValue<T>>> {
    if key.JNull? then Returned(None)
    else
      var k := ToByte(c, key);
      if 0 in faults || k !in db.data || !db.data[k].Str? then Returned(None)
      else match c.deserialize(db.data[k].bytes)
        case None => Threw(Undecodable)
        case Some(v) => Returned(Some(v))
  }

  /** Some key other than `k`. */
  function Other(k: Bytes): (o: Bytes)
    ensures o != k
  {
    k + [0]
  }

  /** With a lawful codec, `get` after an uninterrupted `put` finds the
      value that was put, whatever the key and the delay. */
  lemma PutThenGet<T(!new)>(c: Codec<T>, db: Store.Db, key: JValue<T>, value: JValue<T>, seconds: Int32)
    requires Lawful(c) && !key.JNull?
    ensures Lookup(c, SetWithExpiry(db, ToByte(c, key), c.serialize(value), seconds, {}).0, key, {}) == Returned(Some(value))
  {
    var k := ToByte(c, key);
    SetWithExpiryStores(db, k, c.serialize(value), seconds, Other(k));
  }

  /** A `put` leaves every other key of the keyspace as it was. */
  lemma PutKeepsOthers<T>(c: Codec<T>, db: Store.Db, key: JValue<T>, value: JValue<T>, seconds: Int32, o: Bytes)
    requires o != ToByte(c, key)
    ensures var after := SetWithExpiry(db, ToByte(c, key), c.serialize(value), seconds, {}).0;
            (o in after.data <==> o in db.data) && (o in db.data ==> after.data[o] == db.data[o])
  {
    SetWithExpiryStores(db, ToByte(c, key), c.serialize(value), seconds, o);
  }

  /** For a String key, `evict` removes what `put` stored: both address the
      key's UTF-8 bytes. */
  lemma EvictAfterPut<T>(c: Codec<T>, db: Store.Db, s: string, value: JValue<T>, seconds: Int32)
    ensures var stored := SetWithExpiry(db, ToByte(c, JString(s)), c.serialize(value), seconds, {}).0;
            ToText(c, JString(s)) == Returned(s) &&
            Lookup(c, Store.Del(stored, WireAll([s])).0, JString(s), {}) == Returned(None)
  {
    assert WireAll([s]) == [Wire(s)];
  }

  /** For any other key whose `toString()` bytes differ from its serialized
      form, `evict` deletes a different key, so the value that was put is
      still found afterwards. */
  lemma EvictMissesObjectKey<T(!new)>(c: Codec<T>, db: Store.Db, key: JValue<T>, value: JValue<T>, seconds: Int32)
    requires Lawful(c) && (key.JObject? || key.JList?)
    requires Wire(c.describe(key)) != c.serialize(key)
    ensures var stored := SetWithExpiry(db, ToByte(c, key), c.serialize(value), seconds, {}).0;
            ToText(c, key) == Returned(c.describe(key)) &&
            Lookup(c, Store.Del(stored, WireAll([c.describe(key)])).0, key, {}) == Returned(Some(value))
  {
    var k := ToByte(c, key);
    SetWithExpiryStores(db, k, c.serialize(value), seconds, Other(k));
    assert WireAll([c.describe(key)]) == [Wire(c.describe(key))];
  }

  /** One uninterrupted `putIfAbsent(key, value)` over `db`, as written:
      the existence check reads the key's `toString()` bytes, while the
      write and the read-back address `toByte(key)`.  The new keyspace and
      the answer. */
  function PutIfAbsentStep<T>(c: Codec<T>, db: Store.Db, key: JValue<T>, value: JValue<T>, seconds: Int32): (Store.Db, Outcome<Option<JValue<T>>>) {
    match ToText(c, key)
    case Threw(e) => (db, Threw(e))
    case Returned(s) =>
      if Wire(s) in db.data then (db, Lookup(c, db, key, {}))
      else
        var d := SetWithExpiry(db, ToByte(c, key), c.serialize(value), seconds, {}).0;
        (d, Lookup(c, d, key, {}))
  }

  /** `putIfAbsent` as a cache promises it: the existence check addresses
      the same bytes as the write. */
  function PutIfAbsentIntended<T>(c: Codec<T>, db: Store.Db, key: JValue<T>, value: JValue<T>, seconds: Int32): (Store.Db, Outcome<Option<JValue<T>>>) {
    match ToText(c, key)
    case Threw(e) => (db, Threw(e))
    case Returned(_) =>
      if ToByte(c, key) in db.data then (db, Lookup(c, db, key, {}))
      else
        var d := SetWithExpiry(db, ToByte(c, key), c.serialize(value), seconds, {}).0;
        (d, Lookup(c, d, key, {}))
  }

  /** After an uninterrupted `put`, the key is present. */
  lemma PutMakesPresent<T>(c: Codec<T>, db: Store.Db, key: JValue<T>, value: JValue<T>, seconds: Int32)
    ensures ToByte(c, key) in SetWithExpiry(db, ToByte(c, key), c.serialize(value), seconds, {}).0.data
  {
    var k := ToByte(c, key);
    SetWithExpiryStores(db, k, c.serialize(value), seconds, Other(k));
  }

  /** For a String key the two addresses coincide: the first of two
      `putIfAbsent` calls on an absent key stores its value and answers it,
      and the second changes nothing and answers the first value. */
  lemma FirstWriteWins<T(!new)>(c: Codec<T>, db: Store.Db, s: string, v1: JValue<T>, v2: JValue<T>, seconds: Int32)
    requires Lawful(c) && Wire(s) !in db.data
    ensures var (d1, r1) := PutIfAbsentStep(c, db, JString(s), v1, seconds);
            var (d2, r2) := PutIfAbsentStep(c, d1, JString(s), v2, seconds);
            r1 == Returned(Some(v1)) && d2 == d1 && r2 == Returned(Some(v1))
  {
    PutThenGet(c, db, JString(s), v1, seconds);
    PutMakesPresent(c, db, JString(s), v1, seconds);
  }

  /** For a list or object key whose `toString()` bytes differ from its
      serialized form, the existence check never sees what was written: a
      second `putIfAbsent` overwrites the first and answers its own value. */
  lemma ObjectKeyLastWriteWins<T(!new)>(c: Codec<T>, db: Store.Db, key: JValue<T>, v1: JValue<T>, v2: JValue<T>, seconds: Int32)
    requires Lawful(c) && (key.JObject? || key.JList?)
    requires Wire(c.describe(key)) != c.serialize(key) && Wire(c.describe(key)) !in db.data
    ensures var (d1, r1) := PutIfAbsentStep(c, db, key, v1, seconds);
            var (d2, r2) := PutIfAbsentStep(c, d1, key, v2, seconds);
            r1 == Returned(Some(v1)) && r2 == Returned(Some(v2))
  {
    var k := ToByte(c, key);
    var o := Wire(c.describe(key));
    PutThenGet(c, db, key, v1, seconds);
    SetWithExpiryStores(db, k, c.serialize(v1), seconds, o);
    var d1 := SetWithExpiry(db, k, c.serialize(v1), seconds, {}).0;
    PutThenGet(c, d1, key, v2, seconds);
  }

  /** With the existence check on the written bytes, the first value wins
      for every key `toString()` accepts. */
  lemma IntendedFirstWriteWins<T(!new)>(c: Codec<T>, db: Store.Db, key: JValue<T>, v1: JValue<T>, v2: JValue<T>, seconds: Int32)
    requires Lawful(c) && ToText(c, key).Returned? && ToByte(c, key) !in db.data
    ensures var (d1, r1) := PutIfAbsentIntended(c, db, key, v1, seconds);
            var (d2, r2) := PutIfAbsentIntended(c, d1, key, v2, seconds);
            r1 == Returned(Some(v1)) && d2 == d1 && r2 == Returned(Some(v1))
  {
    PutThenGet(c, db, key, v1, seconds);
    PutMakesPresent(c, db, key, v1, seconds);
  }

  /** The two agree on String keys. */
  lemma IntendedAgreesOnStrings<T>(c: Codec<T>, db: Store.Db, s: string, value: JValue<T>, seconds: Int32)
    ensures PutIfAbsentIntended(c, db, JString(s), value, seconds) == PutIfAbsentStep(c, db, JString(s), value, seconds)
  {
  }

  /** The fault set of the `i`-th facade call of one cache operation. */
  function At(faults: seq<set<nat>>, i: nat): set<nat> {
    if i < |faults| then faults[i] else {}
  }

  class RedisCacheImpl<T(==, !new)> {
    var name: JString
    var defaultCacheExpire: Int32
    var redisService: RedisClusterService?<T>
    const codec: Codec<T>

    /** The service, once set, is a valid facade sharing the cache's codec. */
    ghost predicate Valid()
      reads this, redisService
    {
      redisService != null ==> redisService.Valid() && redisService.codec == codec
    }

    constructor (codec: Codec<T>)
      ensures name == None && defaultCacheExpire == DefaultCacheExpire && redisService == null
      ensures this.codec == codec && Valid()
    {
      name := None;
      defaultCacheExpire := DefaultCacheExpire;
      redisService := null;
      this.codec := codec;
    }

    method SetName(name: JString)
      modifies this
      ensures this.name == name && defaultCacheExpire == old(defaultCacheExpire) && redisService == old(redisService)
    {
      this.name := name;
    }

    method SetDefaultCacheExpire(seconds: Int32)
      modifies this
      ensures defaultCacheExpire == seconds && name == old(name) && redisService == old(redisService)
    {
      defaultCacheExpire := seconds;
    }

    method SetRedisService(service: RedisClusterService?<T>)
      requires service != null ==> service.Valid() && service.codec == codec
      modifies this
      ensures redisService == service && name == old(name) && defaultCacheExpire == old(defaultCacheExpire)
      ensures Valid()
    {
      redisService := service;
    }

    /** `afterPropertiesSet()`: refuses a cache with no service. */
    method AfterPropertiesSet() returns (r: Outcome<()>)
      ensures r.Threw? <==> redisService == null
      ensures r.Threw? ==> r.thrown == IllegalArgument
    {
      if redisService == null {
        return Threw(IllegalArgument);
      }
      r := Returned(());
    }

    /** `get(key)`: the value wrapper, or none. */
    method Get(key: JValue<T>, faults: set<nat>) returns (r: Outcome<Option<JValue<T>>>)
      requires Valid()
      ensures key.JNull? ==> r == Returned(None)
      ensures !key.JNull? && redisService == null ==> r == Threw(NullPointer)
      ensures !key.JNull? && redisService != null ==> r == Lookup(codec, redisService.db, key, faults)
    {
      if key.JNull? {
        return Returned(None);
      }
      if redisService == null {
        return Threw(NullPointer);
      }
      var bytes := redisService.GetBytes(Some(ToByte(codec, key)), faults);
      if bytes.None? {
        return Returned(None);
      }
      var v := codec.deserialize(bytes.value);
      if v.None? {
        return Threw(Undecodable);
      }
      r := Returned(Some(v.value));
    }

    /** `get(key, type)`: the typed read of the facade under the key's
        `toString()`. */
    method GetTyped(key: JValue<T>, faults: set<nat>) returns (r: Outcome<JValue<T>>)
      requires Valid()
      ensures ToText(codec, key).Threw? ==> r == Threw(ToText(codec, key).thrown)
      ensures ToText(codec, key).Returned? && redisService == null ==> r == Threw(NullPointer)
      ensures ToText(codec, key).Returned? && redisService != null ==>
                var s := ToText(codec, key).value;
                var db := redisService.db;
                var k := Wire(s);
                r.Returned? &&
                if !IsBlank(Some(s)) && 0 !in faults && k in db.data && db.data[k].Str? &&
                   codec.deserialize(db.data[k].bytes).Some?
                then r.value == codec.deserialize(db.data[k].bytes).value
                else r.value == JNull
    {
      var t := ToText(codec, key);
      if t.Threw? {
        return Threw(t.thrown);
      }
      if redisService == null {
        return Threw(NullPointer);
      }
      var v := redisService.GetTyped(Some(t.value), faults);
      r := Returned(v);
    }

    /** `get(key, valueLoader)`: answers null without calling the loader. */
    method GetWithLoader(key: JValue<T>) returns (r: JValue<T>)
      ensures r == JNull
    {
      r := JNull;
    }

    /** `put(key, value)`: SET of the serialized value with the default
        delay, through the facade's byte-key setter. */
    method Put(key: JValue<T>, value: JValue<T>, faults: set<nat>) returns (r: Outcome<()>)
      requires Valid()
      modifies redisService
      ensures Valid()
      ensures redisService == null ==> r == Threw(NullPointer)
      ensures redisService != null ==>
                r == Returned(()) &&
                redisService.db == SetWithExpiry(old(redisService.db), ToByte(codec, key), codec.serialize(value), defaultCacheExpire, faults).0
    {
      if redisService == null {
        return Threw(NullPointer);
      }
      redisService.SetBytesFor(Some(ToByte(codec, key)), codec.serialize(value), defaultCacheExpire, faults);
      r := Returned(());
    }

    /** `putIfAbsent(key, value)`: EXISTS on the key's `toString()`; when
        it answers true, `get(key)`; otherwise `put` and then `get`.  The
        three facade calls fail as `faults` says. */
    method PutIfAbsent(key: JValue<T>, value: JValue<T>, faults: seq<set<nat>>) returns (r: Outcome<Option<JValue<T>>>)
      requires Valid()
      modifies redisService
      ensures Valid()
      ensures ToText(codec, key).Threw? ==>
                r == Threw(ToText(codec, key).thrown) && (redisService != null ==> redisService.db == old(redisService.db))
      ensures ToText(codec, key).Returned? && redisService == null ==> r == Threw(NullPointer)
      ensures ToText(codec, key).Returned? && redisService != null ==>
                var present := 0 !in At(faults, 0) && Wire(ToText(codec, key).value) in old(redisService.db).data;
                (present ==>
                   redisService.db == old(redisService.db) && r == Lookup(codec, old(redisService.db), key, At(faults, 1))) &&
                (!present ==>
                   redisService.db == SetWithExpiry(old(redisService.db), ToByte(codec, key), codec.serialize(value), defaultCacheExpire, At(faults, 1)).0 &&
                   r == Lookup(codec, redisService.db, key, At(faults, 2)))
      ensures redisService != null && At(faults, 0) == At(faults, 1) == At(faults, 2) == {} ==>
                (redisService.db, r) == PutIfAbsentStep(codec, old(redisService.db), key, value, defaultCacheExpire)
    {
      var t := ToText(codec, key);
      if t.Threw? {
        return Threw(t.thrown);
      }
      if redisService == null {
        return Threw(NullPointer);
      }
      var e := redisService.Exists([t.value], At(faults, 0));
      if e == Returned(true) {
        r := Get(key, At(faults, 1));
        return;
      }
      var p := Put(key, value, At(faults, 1));
      r := Get(key, At(faults, 2));
    }

    /** `evict(key)`: DEL of the key's `toString()`. */
    method Evict(key: JValue<T>, faults: set<nat>) returns (r: Outcome<()>)
      requires Valid()
      modifies redisService
      ensures Valid()
      ensures ToText(codec, key).Threw? ==>
                r == Threw(ToText(codec, key).thrown) && (redisService != null ==> redisService.db == old(redisService.db))
      ensures ToText(codec, key).Returned? && redisService == null ==> r == Threw(NullPointer)
      ensures ToText(codec, key).Returned? && redisService != null ==>
                r == Returned(()) &&
                redisService.db == (if 0 in faults then old(redisService.db)
                                    else Store.Del(old(redisService.db), [Wire(ToText(codec, key).value)]).0)
    {
      var t := ToText(codec, key);
      if t.Threw? {
        return Threw(t.thrown);
      }
      if redisService == null {
        return Threw(NullPointer);
      }
      assert WireAll([t.value]) == [Wire(t.value)];
      var d := redisService.Del([t.value], faults);
      r := Returned(());
    }

    /** `clear()`: only logs that it ignores the request. */
    method Clear() {
    }
  }
}
