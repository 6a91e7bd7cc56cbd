/** `RedisClusterServiceImpl`: the facade over a Redis cluster.  Every method
    guards its arguments, issues one or two commands and turns the reply into
    a Java value; most of them turn an exception of the call into null or
    false.  `db` is the cluster's keyspace; `faults` lists the store calls of
    one invocation (numbered from 0) that raise instead of answering: a lost
    connection, redirections that run out, the keys of one multi-key call
    lying in different slots, or a null value argument. */
module Facade {
  import opened Wrappers
  import opened JavaLang
  import opened Hessian
  import opened FacadeSpec
  import Utf8
  import Store
  import StoreHash
  import StoreList
  import StoreSet
  import StoreZSet
  import JedisUtils

  class RedisClusterService<T(==, !new)> {
    var db: Store.Db
    const codec: Codec<T>

    ghost predicate Valid()
      reads this
    {
      Store.Valid(db)
    }

    constructor (db: Store.Db, codec: Codec<T>)
      requires Store.Valid(db)
      ensures this.db == db && this.codec == codec && Valid()
    {
      this.db := db;
      this.codec := codec;
    }

    // -------------------------------------------------------------------
    // Keys

    /** `del(keys...)`: no keys fails the argument assertion; otherwise the
        reply is whether DEL removed as many keys as were named, which is
        whether all existed and none was named twice; a failed call answers
        false. */
    method Del(keys: seq<string>, faults: set<nat>) returns (r: Outcome<bool>)
      requires Valid()
      modifies this
      ensures Valid()
      ensures keys == [] ==> r == Threw(IllegalArgument) && db == old(db)
      ensures keys != [] && 0 in faults ==> r == Returned(false) && db == old(db)
      ensures keys != [] && 0 !in faults ==>
                db == Store.Del(old(db), WireAll(keys)).0 &&
                (r == Returned(true) <==>
                   (forall k :: k in keys ==> Wire(k) in old(db).data) &&
                   (forall i, j :: 0 <= i < j < |keys| ==> keys[i] != keys[j])) &&
                r.Returned?
    {
      if keys == [] {
        return Threw(IllegalArgument);
      }
      if 0 in faults {
        return Returned(false);
      }
      DelAnswersTrue(db, keys);
      var d := Store.Del(db, WireAll(keys));
      db := d.0;
      r := Returned(d.1 == |keys|);
    }

    /** `exists(keys...)`: no keys fails the argument assertion; otherwise
        whether every named key exists; a failed call answers false. */
    method Exists(keys: seq<string>, faults: set<nat>) returns (r: Outcome<bool>)
      ensures keys == [] ==> r == Threw(IllegalArgument)
      ensures keys != [] && 0 in faults ==> r == Returned(false)
      ensures keys != [] && 0 !in faults ==> r == Returned(forall k :: k in keys ==> Wire(k) in db.data)
    {
      if keys == [] {
        return Threw(IllegalArgument);
      }
      if 0 in faults {
        return Returned(false);
      }
      var n := Store.Exists(db, WireAll(keys));
      assert (forall k :: k in keys ==> Wire(k) in db.data) <==> (forall k :: k in WireAll(keys) ==> k in db.data) by {
        forall k | k in keys ensures Wire(k) in WireAll(keys) {
          var i :| 0 <= i < |keys| && keys[i] == k;
          assert WireAll(keys)[i] == Wire(k);
        }
      }
      r := Returned(n == |keys|);
    }

    /** `mget(keys...)`: the string value of each key in order, null for a
        missing key or one holding another kind of value; a failed call
        answers null. */
    method MGet(keys: seq<string>, faults: set<nat>) returns (r: Outcome<Option<seq<Option<string>>>>)
      ensures keys == [] ==> r == Threw(IllegalArgument)
      ensures keys != [] && 0 in faults ==> r == Returned(None)
      ensures keys != [] && 0 !in faults ==>
                r.Returned? && r.value.Some? && |r.value.value| == |keys| &&
                forall i :: 0 <= i < |keys| ==>
                  var k := Wire(keys[i]);
                  (r.value.value[i].Some? <==> k in db.data && db.data[k].Str?) &&
                  (r.value.value[i].Some? ==> r.value.value[i].value == Text(db.data[k].bytes))
    {
      if keys == [] {
        return Threw(IllegalArgument);
      }
      if 0 in faults {
        return Returned(None);
      }
      var vs := Store.MGet(db, WireAll(keys));
      r := Returned(Some(seq(|vs|, i requires 0 <= i < |vs| => TextOpt(vs[i]))));
    }

    /** `expire(key, seconds)`: exceptions escape; the reply is 1 when the
        key existed. */
    method Expire(key: JString, seconds: Int32, faults: set<nat>) returns (r: Outcome<Option<nat>>)
      requires Valid()
      modifies this
      ensures Valid()
      ensures IsBlank(key) ==> r == Returned(None) && db == old(db)
      ensures !IsBlank(key) && 0 in faults ==> r == Threw(StoreException(Store.ClusterFailure)) && db == old(db)
      ensures !IsBlank(key) && 0 !in faults ==>
                var e := Store.Expire(old(db), Wire(key.value), seconds);
                db == e.0 && r == Returned(Some(if Wire(key.value) in old(db).data then 1 else 0))
    {
      if IsBlank(key) {
        return Returned(None);
      }
      if 0 in faults {
        return Threw(StoreException(Store.ClusterFailure));
      }
      var e := Store.Expire(db, Wire(key.value), seconds);
      db := e.0;
      r := Returned(Some(if e.1 then 1 else 0));
    }

    /** `expireAt(key, unixTime)`: the deadline in seconds is recorded in
        milliseconds. */
    method ExpireAt(key: JString, unixTime: Int64, faults: set<nat>) returns (r: Outcome<Option<nat>>)
      requires Valid()
      modifies this
      ensures Valid()
      ensures IsBlank(key) ==> r == Returned(None) && db == old(db)
      ensures !IsBlank(key) && 0 in faults ==> r == Threw(StoreException(Store.ClusterFailure)) && db == old(db)
      ensures !IsBlank(key) && 0 !in faults ==>
                db == Store.ExpireAt(old(db), Wire(key.value), unixTime * 1000).0 &&
                r == Returned(Some(if Wire(key.value) in old(db).data then 1 else 0))
    {
      if IsBlank(key) {
        return Returned(None);
      }
      if 0 in faults {
        return Threw(StoreException(Store.ClusterFailure));
      }
      var e := Store.ExpireAt(db, Wire(key.value), unixTime * 1000);
      db := e.0;
      r := Returned(Some(if e.1 then 1 else 0));
    }

    /** `pexpireat(key, millisecondsTimestamp)`. */
    method PExpireAt(key: JString, millis: Int64, faults: set<nat>) returns (r: Outcome<Option<nat>>)
      requires Valid()
      modifies this
      ensures Valid()
      ensures IsBlank(key) ==> r == Returned(None) && db == old(db)
      ensures !IsBlank(key) && 0 in faults ==> r == Threw(StoreException(Store.ClusterFailure)) && db == old(db)
      ensures !IsBlank(key) && 0 !in faults ==>
                db == Store.ExpireAt(old(db), Wire(key.value), millis).0 &&
                r == Returned(Some(if Wire(key.value) in old(db).data then 1 else 0))
    {
      if IsBlank(key) {
        return Returned(None);
      }
      if 0 in faults {
        return Threw(StoreException(Store.ClusterFailure));
      }
      var e := Store.ExpireAt(db, Wire(key.value), millis);
      db := e.0;
      r := Returned(Some(if e.1 then 1 else 0));
    }

    /** `persist(key)`: the reply is 1 when an expiry was removed. */
    method Persist(key: JString, faults: set<nat>) returns (r: Outcome<Option<nat>>)
      requires Valid()
      modifies this
      ensures Valid()
      ensures IsBlank(key) ==> r == Returned(None) && db == old(db)
      ensures !IsBlank(key) && 0 in faults ==> r == Threw(StoreException(Store.ClusterFailure)) && db == old(db)
      ensures !IsBlank(key) && 0 !in faults ==>
                db == Store.Persist(old(db), Wire(key.value)).0 &&
                r == Returned(Some(if Wire(key.value) in old(db).ttl then 1 else 0))
    {
      if IsBlank(key) {
        return Returned(None);
      }
      if 0 in faults {
        return Threw(StoreException(Store.ClusterFailure));
      }
      var e := Store.Persist(db, Wire(key.value));
      db := e.0;
      r := Returned(Some(if e.1 then 1 else 0));
    }

    // -------------------------------------------------------------------
    // Strings

    /** `get(key)`. */
    method Get(key: JString, faults: set<nat>) returns (r: JString)
      ensures IsBlank(key) || 0 in faults ==> r.None?
      ensures !IsBlank(key) && 0 !in faults ==>
                var k := Wire(key.value);
                (r.Some? <==> k in db.data && db.data[k].Str?) &&
                (r.Some? ==> r.value == Text(db.data[k].bytes))
      ensures r == GetText(db, key, faults)
    {
      if IsBlank(key) {
        return None;
      }
      var c := Call(Store.Get(db, Wire(key.value)), faults, 0);
      if c.Failure? || c.value.None? {
        return None;
      }
      r := Some(Text(c.value.value));
    }

    /** `get(byte[] key)`: no blank check; a null key fails in the driver. */
    method GetBytes(key: Option<Bytes>, faults: set<nat>) returns (r: Option<Bytes>)
      ensures key.None? || 0 in faults ==> r.None?
      ensures key.Some? && 0 !in faults ==>
                (r.Some? <==> key.value in db.data && db.data[key.value].Str?) &&
                (r.Some? ==> r.value == db.data[key.value].bytes)
    {
      if key.None? {
        return None;
      }
      var c := Call(Store.Get(db, key.value), faults, 0);
      if c.Failure? {
        return None;
      }
      r := c.value;
    }

    /** `getAsLong(key)`: `get`, then `Long.valueOf`; text that is not a
        64-bit decimal gives null. */
    method GetAsLong(key: JString, faults: set<nat>) returns (r: Option<Int64>)
      ensures var t := GetText(db, key, faults);
              r == (if t.None? then None else ParseLong(t.value))
    {
      var t := Get(key, faults);
      if t.None? {
        return None;
      }
      r := ParseLong(t.value);
    }

    /** `getAsInt(key, default)`: `get`, then `Integer.valueOf`; blank text
        or text that is not a 32-bit decimal gives the default. */
    method GetAsIntOr(key: JString, default: Option<Int32>, faults: set<nat>) returns (r: Option<Int32>)
      ensures r == IntOrDefault(GetText(db, key, faults), default)
    {
      var t := Get(key, faults);
      if IsBlank(t) {
        return default;
      }
      var n := ParseInt(t.value);
      if n.None? {
        return default;
      }
      r := n;
    }

    /** `getAsInt(key)`: the default is null. */
    method GetAsInt(key: JString, faults: set<nat>) returns (r: Option<Int32>)
      ensures r == IntOrDefault(GetText(db, key, faults), None)
    {
      r := GetAsIntOr(key, None, faults);
    }

    /** `incrBy(key, increment)`: null for a blank key and a failed call. */
    method IncrBy(key: JString, increment: Int64, faults: set<nat>) returns (r: Option<Int64>)
      requires Valid()
      modifies this
      ensures Valid()
      ensures IsBlank(key) ==> r.None? && db == old(db)
      ensures !IsBlank(key) ==>
                var c := Call(Store.IncrBy(old(db), Wire(key.value), increment), faults, 0);
                db == After(c, old(db)) && r == Reply(c)
    {
      if IsBlank(key) {
        return None;
      }
      var c := Call(Store.IncrBy(db, Wire(key.value), increment), faults, 0);
      if c.Failure? {
        return None;
      }
      db := c.value.0;
      r := Some(c.value.1);
    }

    /** `incr(key)`. */
    method Incr(key: JString, faults: set<nat>) returns (r: Option<Int64>)
      requires Valid()
      modifies this
      ensures Valid()
      ensures IsBlank(key) ==> r.None? && db == old(db)
      ensures !IsBlank(key) ==>
                var c := Call(Store.IncrBy(old(db), Wire(key.value), 1), faults, 0);
                db == After(c, old(db)) && r == Reply(c)
    {
      r := IncrBy(key, 1, faults);
    }

    /** `decrBy(key, decrement)`. */
    method DecrBy(key: JString, decrement: Int64, faults: set<nat>) returns (r: Option<Int64>)
      requires Valid()
      modifies this
      ensures Valid()
      ensures IsBlank(key) ==> r.None? && db == old(db)
      ensures !IsBlank(key) ==>
                var c := Call(Store.DecrBy(old(db), Wire(key.value), decrement), faults, 0);
                db == After(c, old(db)) && r == Reply(c)
    {
      if IsBlank(key) {
        return None;
      }
      var c := Call(Store.DecrBy(db, Wire(key.value), decrement), faults, 0);
      if c.Failure? {
        return None;
      }
      db := c.value.0;
      r := Some(c.value.1);
    }

    /** `decr(key)`. */
    method Decr(key: JString, faults: set<nat>) returns (r: Option<Int64>)
      requires Valid()
      modifies this
      ensures Valid()
      ensures IsBlank(key) ==> r.None? && db == old(db)
      ensures !IsBlank(key) ==>
                var c := Call(Store.DecrBy(old(db), Wire(key.value), 1), faults, 0);
                db == After(c, old(db)) && r == Reply(c)
    {
      r := DecrBy(key, 1, faults);
    }

    /** `incrByleng(key, length)`: the rolling zero-padded counter. */
    method IncrByLeng(key: JString, length: Int32, faults: set<nat>) returns (r: Option<string>)
      requires Valid()
      modifies this
      ensures Valid()
      ensures IsBlank(key) ==> r.None? && db == old(db)
      ensures !IsBlank(key) ==> (db, r) == RollingCounter(old(db), Wire(key.value), length, faults)
    {
      if IsBlank(key) {
        return None;
      }
      var k := Wire(key.value);
      var c := Call(Store.IncrBy(db, k, 1), faults, 0);
      if c.Failure? {
        return None;
      }
      db := c.value.0;
      var l := c.value.1;
      if l >= MaxNum(length) {
        if 1 in faults {
          return None;
        }
        db := Store.Del(db, [k]).0;
      }
      if length <= 0 {
        return None;
      }
      r := Some(ZeroPad(l, length as nat));
    }

    /** `set(key, value)`: SET overwrites any kind of value and clears the
        expiry. */
    method Set(key: JString, value: string, faults: set<nat>)
      requires Valid()
      modifies this
      ensures Valid()
      ensures IsBlank(key) || 0 in faults ==> db == old(db)
      ensures !IsBlank(key) && 0 !in faults ==> db == Store.Set(old(db), Wire(key.value), Wire(value))
    {
      if IsBlank(key) || 0 in faults {
        return;
      }
      db := Store.Set(db, Wire(key.value), Wire(value));
    }

    /** `set(key, value, seconds)`: SET, then EXPIRE when SET answered OK
        and the delay is positive. */
    method SetFor(key: JString, value: string, seconds: Int32, faults: set<nat>)
      requires Valid()
      modifies this
      ensures Valid()
      ensures IsBlank(key) ==> db == old(db)
      ensures !IsBlank(key) ==> db == SetWithExpiry(old(db), Wire(key.value), Wire(value), seconds, faults).0
    {
      if IsBlank(key) {
        return;
      }
      var w := WriteThenExpire(Wire(key.value), Wire(value), seconds, faults);
    }

    /** `set(byte[] key, byte[] value, seconds)`: as above with no blank
        check; a null key fails in the driver. */
    method SetBytesFor(key: Option<Bytes>, value: Bytes, seconds: Int32, faults: set<nat>)
      requires Valid()
      modifies this
      ensures Valid()
      ensures key.None? ==> db == old(db)
      ensures key.Some? ==> db == SetWithExpiry(old(db), key.value, value, seconds, faults).0
    {
      if key.None? {
        return;
      }
      var w := WriteThenExpire(key.value, value, seconds, faults);
    }

    /** The SET-then-EXPIRE sequence the three expiring setters share; the
        flag is `ok` as those methods compute it, `None` for an exception. */
    method WriteThenExpire(k: Bytes, v: Bytes, seconds: Int32, faults: set<nat>) returns (ok: Option<bool>)
      requires Valid()
      modifies this
      ensures Valid()
      ensures (db, ok) == SetWithExpiry(old(db), k, v, seconds, faults)
    {
      if 0 in faults {
        return None;
      }
      db := Store.Set(db, k, v);
      var status := JedisUtils.IsStatusOk(Some(JedisUtils.OkCode));
      if status && seconds > 0 {
        if 1 in faults {
          return None;
        }
        var e := Store.Expire(db, k, seconds);
        db := e.0;
        return Some(e.1);
      }
      ok := Some(status);
    }

    /** `setex(key, value, seconds)`: a delay that is not positive is an
        error reply, swallowed. */
    method SetEx(key: JString, value: string, seconds: Int32, faults: set<nat>)
      requires Valid()
      modifies this
      ensures Valid()
      ensures IsBlank(key) ==> db == old(db)
      ensures !IsBlank(key) ==>
                db == Applied(Call(Store.SetEx(old(db), Wire(key.value), seconds, Wire(value)), faults, 0), old(db))
    {
      if IsBlank(key) {
        return;
      }
      var c := Call(Store.SetEx(db, Wire(key.value), seconds, Wire(value)), faults, 0);
      if c.Success? {
        db := c.value;
      }
    }

    /** `setnx(key, value)`: true exactly when the key was missing and is
        now written. */
    method SetNx(key: JString, value: string, faults: set<nat>) returns (r: bool)
      requires Valid()
      modifies this
      ensures Valid()
      ensures IsBlank(key) || 0 in faults ==> !r && db == old(db)
      ensures !IsBlank(key) && 0 !in faults ==>
                (r <==> Wire(key.value) !in old(db).data) &&
                db == Store.SetNx(old(db), Wire(key.value), Wire(value)).0
      ensures !IsBlank(key) && 0 !in faults && r ==>
                Wire(key.value) in db.data && db.data[Wire(key.value)] == Store.Str(Wire(value)) && Wire(key.value) !in db.ttl
    {
      if IsBlank(key) || 0 in faults {
        return false;
      }
      var s := Store.SetNx(db, Wire(key.value), Wire(value));
      db := s.0;
      r := s.1;
    }

    /** `setnx(key, value, seconds)`: SET NX EX; false for an existing key,
        a delay that is not positive, and a failed call. */
    method SetNxFor(key: JString, value: string, seconds: Int32, faults: set<nat>) returns (r: bool)
      requires Valid()
      modifies this
      ensures Valid()
      ensures IsBlank(key) ==> !r && db == old(db)
      ensures !IsBlank(key) ==>
                var c := Call(Store.SetNxEx(old(db), Wire(key.value), Wire(value), seconds), faults, 0);
                db == After(c, old(db)) &&
                (r <==> 0 !in faults && seconds > 0 && Wire(key.value) !in old(db).data)
    {
      if IsBlank(key) {
        return false;
      }
      var c := Call(Store.SetNxEx(db, Wire(key.value), Wire(value), seconds), faults, 0);
      if c.Failure? {
        return false;
      }
      db := c.value.0;
      r := JedisUtils.IsStatusOk(if c.value.1 then Some(JedisUtils.OkCode) else None);
    }

    /** `getSet(key, value)`: the previous string value. */
    method GetSet(key: JString, value: string, faults: set<nat>) returns (r: Option<string>)
      requires Valid()
      modifies this
      ensures Valid()
      ensures IsBlank(key) ==> r.None? && db == old(db)
      ensures !IsBlank(key) ==>
                var c := Call(Store.GetSet(old(db), Wire(key.value), Wire(value)), faults, 0);
                db == After(c, old(db)) &&
                r == (if c.Success? then TextOpt(c.value.1) else None)
    {
      if IsBlank(key) {
        return None;
      }
      var c := Call(Store.GetSet(db, Wire(key.value), Wire(value)), faults, 0);
      if c.Failure? {
        return None;
      }
      db := c.value.0;
      r := TextOpt(c.value.1);
    }

    /** `get(key, clazz)`: the deserialized value; null for a blank key, a
        missing key, a failed call and bytes that do not deserialize. */
    method GetTyped(key: JString, faults: set<nat>) returns (r: JValue<T>)
      ensures IsBlank(key) || 0 in faults ==> r == JNull
      ensures !IsBlank(key) && 0 !in faults ==>
                var k := Wire(key.value);
                (k in db.data && db.data[k].Str? && codec.deserialize(db.data[k].bytes).Some? ==>
                   r == codec.deserialize(db.data[k].bytes).value) &&
                (k !in db.data || !db.data[k].Str? || codec.deserialize(db.data[k].bytes).None? ==> r == JNull)
    {
      if IsBlank(key) {
        return JNull;
      }
      var c := Call(Store.Get(db, Wire(key.value)), faults, 0);
      if c.Failure? || c.value.None? {
        return JNull;
      }
      var v := codec.deserialize(c.value.value);
      if v.None? {
        return JNull;
      }
      r := v.value;
    }

    /** `getAsList(key, clazz)`: the items of a deserialized list; null for
        anything else. */
    method GetAsList(key: JString, faults: set<nat>) returns (r: Option<seq<JValue<T>>>)
      ensures IsBlank(key) || 0 in faults ==> r.None?
      ensures !IsBlank(key) && 0 !in faults ==>
                var k := Wire(key.value);
                (r.Some? <==> k in db.data && db.data[k].Str? && codec.deserialize(db.data[k].bytes).Some? &&
                              codec.deserialize(db.data[k].bytes).value.JList?) &&
                (r.Some? ==> r.value == codec.deserialize(db.data[k].bytes).value.items)
    {
      if IsBlank(key) {
        return None;
      }
      var c := Call(Store.Get(db, Wire(key.value)), faults, 0);
      if c.Failure? || c.value.None? {
        return None;
      }
      var v := codec.deserialize(c.value.value);
      if v.None? || !v.value.JList? {
        return None;
      }
      r := Some(v.value.items);
    }

    /** `set(key, list, seconds)`: the serialized list, then EXPIRE; the
        reply is the flag, null for a blank key or an exception. */
    method SetList(key: JString, list: seq<JValue<T>>, seconds: Int32, faults: set<nat>) returns (r: Option<bool>)
      requires Valid()
      modifies this
      ensures Valid()
      ensures IsBlank(key) ==> r.None? && db == old(db)
      ensures !IsBlank(key) ==> (db, r) == SetWithExpiry(old(db), Wire(key.value), codec.serialize(JList(list)), seconds, faults)
    {
      if IsBlank(key) {
        return None;
      }
      r := WriteThenExpire(Wire(key.value), codec.serialize(JList(list)), seconds, faults);
    }

    /** `set(key, object, seconds)`. */
    method SetObject(key: JString, value: JValue<T>, seconds: Int32, faults: set<nat>) returns (r: Option<bool>)
      requires Valid()
      modifies this
      ensures Valid()
      ensures IsBlank(key) ==> r.None? && db == old(db)
      ensures !IsBlank(key) ==> (db, r) == SetWithExpiry(old(db), Wire(key.value), codec.serialize(value), seconds, faults)
    {
      if IsBlank(key) {
        return None;
      }
      r := WriteThenExpire(Wire(key.value), codec.serialize(value), seconds, faults);
    }

    // -------------------------------------------------------------------
    // Hashes

    /** `hmset(key, map)`: true when HMSET answered OK; an empty map is an
        error reply, so false. */
    method HMSet(key: JString, m: map<string, string>, faults: set<nat>) returns (r: bool)
      requires Valid()
      modifies this
      ensures Valid()
      ensures IsBlank(key) ==> !r && db == old(db)
      ensures !IsBlank(key) ==>
                var c := Call(StoreHash.HMSet(old(db), Wire(key.value), WireMap(m)), faults, 0);
                db == Applied(c, old(db)) && (r <==> c.Success?)
      ensures !IsBlank(key) && 0 !in faults && r ==> m != map[]
    {
      if IsBlank(key) {
        return false;
      }
      var c := Call(StoreHash.HMSet(db, Wire(key.value), WireMap(m)), faults, 0);
      if c.Failure? {
        return false;
      }
      db := c.value;
      r := JedisUtils.IsStatusOk(Some(JedisUtils.OkCode));
      JedisUtils.StatusOkIsLiteral();
    }

    /** `hmset(key, map, seconds)`: HMSET, then EXPIRE; false on an
        exception. */
    method HMSetFor(key: JString, m: map<string, string>, seconds: Int32, faults: set<nat>) returns (r: bool)
      requires Valid()
      modifies this
      ensures Valid()
      ensures IsBlank(key) ==> !r && db == old(db)
      ensures !IsBlank(key) ==>
                var w := HMSetWithExpiry(old(db), Wire(key.value), WireMap(m), seconds, faults);
                db == w.0 && (r <==> w.1 == Some(true))
    {
      if IsBlank(key) {
        return false;
      }
      var k := Wire(key.value);
      var c := Call(StoreHash.HMSet(db, k, WireMap(m)), faults, 0);
      if c.Failure? {
        return false;
      }
      db := c.value;
      var flag := JedisUtils.IsStatusOk(Some(JedisUtils.OkCode));
      if flag && seconds > 0 {
        if 1 in faults {
          return false;
        }
        var e := Store.Expire(db, k, seconds);
        db := e.0;
        flag := e.1;
      }
      r := flag;
    }

    /** `hmget(key, fields...)`: the blank check comes before the argument
        assertion, which is outside the try block. */
    method HMGet(key: JString, fields: seq<string>, faults: set<nat>) returns (r: Outcome<Option<seq<Option<string>>>>)
      ensures IsBlank(key) ==> r == Returned(None)
      ensures !IsBlank(key) && fields == [] ==> r == Threw(IllegalArgument)
      ensures !IsBlank(key) && fields != [] ==>
                var c := Call(StoreHash.HashAt(db, Wire(key.value)), faults, 0);
                r.Returned? && (r.value.None? <==> c.Failure?) &&
                (r.value.Some? ==>
                   |r.value.value| == |fields| &&
                   forall i :: 0 <= i < |fields| ==>
                     r.value.value[i] == (if Wire(fields[i]) in c.value then Some(Text(c.value[Wire(fields[i])])) else None))
    {
      if IsBlank(key) {
        return Returned(None);
      }
      if fields == [] {
        return Threw(IllegalArgument);
      }
      var c := Call(StoreHash.HMGet(db, Wire(key.value), WireAll(fields)), faults, 0);
      if c.Failure? {
        return Returned(None);
      }
      var vs := c.value;
      r := Returned(Some(seq(|vs|, i requires 0 <= i < |vs| => TextOpt(vs[i]))));
    }

    /** `hget(key, field)`. */
    method HGet(key: JString, field: string, faults: set<nat>) returns (r: Option<string>)
      ensures IsBlank(key) || 0 in faults ==> r.None?
      ensures !IsBlank(key) && 0 !in faults ==>
                var h := StoreHash.HashAt(db, Wire(key.value));
                (r.Some? <==> h.Success? && Wire(field) in h.value) &&
                (r.Some? ==> r.value == Text(h.value[Wire(field)]))
    {
      if IsBlank(key) {
        return None;
      }
      var c := Call(StoreHash.HGet(db, Wire(key.value), Wire(field)), faults, 0);
      if c.Failure? {
        return None;
      }
      r := TextOpt(c.value);
    }

    /** `hget(key, fieldName, clazz)`: null for a blank key or field, a
        missing or empty value, a failed call and bytes that do not
        deserialize. */
    method HGetTyped(key: JString, fieldName: JString, faults: set<nat>) returns (r: JValue<T>)
      ensures IsBlank(key) || IsBlank(fieldName) || 0 in faults ==> r == JNull
      ensures !IsBlank(key) && !IsBlank(fieldName) && 0 !in faults ==>
                var h := StoreHash.HashAt(db, Wire(key.value));
                var f := Wire(fieldName.value);
                if h.Success? && f in h.value && h.value[f] != [] && codec.deserialize(h.value[f]).Some?
                then r == codec.deserialize(h.value[f]).value
                else r == JNull
    {
      if IsBlank(key) || IsBlank(fieldName) {
        return JNull;
      }
      var c := Call(StoreHash.HGet(db, Wire(key.value), Wire(fieldName.value)), faults, 0);
      if c.Failure? || c.value.None? || c.value.value == [] {
        return JNull;
      }
      var v := codec.deserialize(c.value.value);
      if v.None? {
        return JNull;
      }
      r := v.value;
    }

    /** `hgetAll(key)`: the driver decodes each field and value; fields that
        decode to the same string keep one of their values. */
    method HGetAll(key: JString, faults: set<nat>) returns (r: Option<map<string, string>>)
      ensures IsBlank(key) || 0 in faults ==> r.None?
      ensures !IsBlank(key) && 0 !in faults ==>
                var h := StoreHash.HashAt(db, Wire(key.value));
                (r.Some? <==> h.Success?) &&
                (r.Some? ==>
                   r.value.Keys == TextSet(h.value.Keys) &&
                   forall s :: s in r.value ==> exists f :: f in h.value && Text(f) == s && r.value[s] == Text(h.value[f]))
    {
      if IsBlank(key) {
        return None;
      }
      var c := Call(StoreHash.HashAt(db, Wire(key.value)), faults, 0);
      if c.Failure? {
        return None;
      }
      var h := c.value;
      var rest := h.Keys;
      var m: map<string, string> := map[];
      while rest != {}
        invariant rest <= h.Keys
        invariant m.Keys == TextSet(h.Keys - rest)
        invariant forall s :: s in m ==> exists f :: f in h && Text(f) == s && m[s] == Text(h[f])
        decreases rest
      {
        var f :| f in rest;
        m := m[Text(f) := Text(h[f])];
        assert TextSet(h.Keys - (rest - {f})) == TextSet(h.Keys - rest) + {Text(f)};
        rest := rest - {f};
      }
      assert h.Keys - rest == h.Keys;
      r := Some(m);
    }

    /** `hgetAll(key, clazz)`: each value deserialized; a value that does
        not deserialize makes the whole reply null. */
    method HGetAllTyped(key: JString, faults: set<nat>) returns (r: Option<map<string, JValue<T>>>)
      ensures IsBlank(key) || 0 in faults ==> r.None?
      ensures !IsBlank(key) && 0 !in faults ==>
                var h := StoreHash.HashAt(db, Wire(key.value));
                (r.Some? <==> h.Success? && forall f :: f in h.value ==> codec.deserialize(h.value[f]).Some?) &&
                (r.Some? ==>
                   r.value.Keys == TextSet(h.value.Keys) &&
                   forall s :: s in r.value ==> exists f :: f in h.value && Text(f) == s && Some(r.value[s]) == codec.deserialize(h.value[f]))
    {
      if IsBlank(key) {
        return None;
      }
      var c := Call(StoreHash.HashAt(db, Wire(key.value)), faults, 0);
      if c.Failure? {
        return None;
      }
      var h := c.value;
      var rest := h.Keys;
      var m: map<string, JValue<T>> := map[];
      while rest != {}
        invariant rest <= h.Keys
        invariant m.Keys == TextSet(h.Keys - rest)
        invariant forall f :: f in h.Keys - rest ==> codec.deserialize(h[f]).Some?
        invariant forall s :: s in m ==> exists f :: f in h && Text(f) == s && Some(m[s]) == codec.deserialize(h[f])
        decreases rest
      {
        var f :| f in rest;
        var v := codec.deserialize(h[f]);
        if v.None? {
          return None;
        }
        m := m[Text(f) := v.value];
        assert TextSet(h.Keys - (rest - {f})) == TextSet(h.Keys - rest) + {Text(f)};
        rest := rest - {f};
      }
      assert h.Keys - rest == h.Keys;
      r := Some(m);
    }

    /** `hvals(key)`: no guard and no try block, so every failure escapes:
        the driver cannot route a null key to a node and throws for it; the
        values come in the server's field order. */
    method HVals(key: JString, faults: set<nat>) returns (r: Outcome<seq<string>>)
      ensures key.None? ==> r == Threw(StoreException(Store.ClusterFailure))
      ensures key.Some? && 0 in faults ==> r == Threw(StoreException(Store.ClusterFailure))
      ensures key.Some? && 0 !in faults ==>
                var h := StoreHash.HashAt(db, Wire(key.value));
                (h.Failure? ==> r == Threw(StoreException(h.error))) &&
                (h.Success? ==>
                   r.Returned? && |r.value| == |h.value| &&
                   exists fs :: ValuesInFieldOrder(h.value, fs, r.value))
    {
      if key.None? {
        return Threw(StoreException(Store.ClusterFailure));
      }
      var c := Call(StoreHash.HashAt(db, Wire(key.value)), faults, 0);
      if c.Failure? {
        return Threw(StoreException(c.error));
      }
      var h := c.value;
      var rest := h.Keys;
      var vals: seq<string> := [];
      ghost var fs: seq<Bytes> := [];
      while rest != {}
        invariant rest <= h.Keys
        invariant |fs| == |vals|
        invariant forall f :: f in fs <==> f in h && f !in rest
        invariant forall i, j :: 0 <= i < j < |fs| ==> fs[i] != fs[j]
        invariant forall i :: 0 <= i < |fs| ==> fs[i] in h && vals[i] == Text(h[fs[i]])
        decreases rest
      {
        var f :| f in rest;
        vals := vals + [Text(h[f])];
        fs := fs + [f];
        rest := rest - {f};
      }
      StoreSet.DistinctElements(fs);
      assert StoreSet.Elements(fs) == h.Keys;
      assert ValuesInFieldOrder(h, fs, vals);
      r := Returned(vals);
    }

    /** `hset(key, field, value)`. */
    method HSet(key: JString, field: string, value: string, faults: set<nat>)
      requires Valid()
      modifies this
      ensures Valid()
      ensures IsBlank(key) ==> db == old(db)
      ensures !IsBlank(key) ==>
                db == After(Call(StoreHash.HSet(old(db), Wire(key.value), Wire(field), Wire(value)), faults, 0), old(db))
    {
      if IsBlank(key) {
        return;
      }
      var c := Call(StoreHash.HSet(db, Wire(key.value), Wire(field), Wire(value)), faults, 0);
      if c.Success? {
        db := c.value.0;
      }
    }

    /** `hset(key, fieldName, value)`: the serialized value; a null field
        name fails in the driver. */
    method HSetTyped(key: JString, fieldName: JString, value: JValue<T>, faults: set<nat>)
      requires Valid()
      modifies this
      ensures Valid()
      ensures IsBlank(key) || fieldName.None? ==> db == old(db)
      ensures !IsBlank(key) && fieldName.Some? ==>
                db == After(Call(StoreHash.HSet(old(db), Wire(key.value), Wire(fieldName.value), codec.serialize(value)), faults, 0), old(db))
    {
      if IsBlank(key) {
        return;
      }
      var f := JedisUtils.ToBytes(fieldName);
      if f.None? {
        return;
      }
      var c := Call(StoreHash.HSet(db, Wire(key.value), f.value, codec.serialize(value)), faults, 0);
      if c.Success? {
        db := c.value.0;
      }
    }

    /** `hsetnx(key, field, value)`: true exactly when the field was new. */
    method HSetNx(key: JString, field: string, value: string, faults: set<nat>) returns (r: bool)
      requires Valid()
      modifies this
      ensures Valid()
      ensures IsBlank(key) ==> !r && db == old(db)
      ensures !IsBlank(key) ==>
                var c := Call(StoreHash.HSetNx(old(db), Wire(key.value), Wire(field), Wire(value)), faults, 0);
                db == After(c, old(db)) && r == (c.Success? && c.value.1)
    {
      if IsBlank(key) {
        return false;
      }
      var c := Call(StoreHash.HSetNx(db, Wire(key.value), Wire(field), Wire(value)), faults, 0);
      if c.Failure? {
        return false;
      }
      db := c.value.0;
      r := c.value.1;
    }

    /** `hincrBy(key, field, increment)`. */
    method HIncrBy(key: JString, field: string, increment: Int64, faults: set<nat>) returns (r: Option<Int64>)
      requires Valid()
      modifies this
      ensures Valid()
      ensures IsBlank(key) ==> r.None? && db == old(db)
      ensures !IsBlank(key) ==>
                var c := Call(StoreHash.HIncrBy(old(db), Wire(key.value), Wire(field), increment), faults, 0);
                db == After(c, old(db)) && r == Reply(c)
    {
      if IsBlank(key) {
        return None;
      }
      var c := Call(StoreHash.HIncrBy(db, Wire(key.value), Wire(field), increment), faults, 0);
      if c.Failure? {
        return None;
      }
      db := c.value.0;
      r := Some(c.value.1);
    }

    /** `hdel(key, fields...)`: the argument assertion is inside the try
        block, so no fields gives null. */
    method HDel(key: JString, fields: seq<string>, faults: set<nat>) returns (r: Option<nat>)
      requires Valid()
      modifies this
      ensures Valid()
      ensures IsBlank(key) || fields == [] ==> r.None? && db == old(db)
      ensures !IsBlank(key) && fields != [] ==>
                var c := Call(StoreHash.HDel(old(db), Wire(key.value), WireAll(fields)), faults, 0);
                db == After(c, old(db)) && r == Reply(c)
    {
      if IsBlank(key) || fields == [] {
        return None;
      }
      var c := Call(StoreHash.HDel(db, Wire(key.value), WireAll(fields)), faults, 0);
      if c.Failure? {
        return None;
      }
      db := c.value.0;
      r := Some(c.value.1);
    }

    /** `hexists(key, field)`. */
    method HExists(key: JString, field: string, faults: set<nat>) returns (r: Option<bool>)
      ensures IsBlank(key) || 0 in faults ==> r.None?
      ensures !IsBlank(key) && 0 !in faults ==>
                var h := StoreHash.HashAt(db, Wire(key.value));
                (r.Some? <==> h.Success?) && (r.Some? ==> (r.value <==> Wire(field) in h.value))
    {
      if IsBlank(key) {
        return None;
      }
      r := Read(Call(StoreHash.HExists(db, Wire(key.value), Wire(field)), faults, 0));
    }

    /** `hkeys(key)`: the decoded field names. */
    method HKeys(key: JString, faults: set<nat>) returns (r: Option<set<string>>)
      ensures IsBlank(key) || 0 in faults ==> r.None?
      ensures !IsBlank(key) && 0 !in faults ==>
                var h := StoreHash.HashAt(db, Wire(key.value));
                (r.Some? <==> h.Success?) &&
                (r.Some? ==> forall s :: s in r.value <==> exists f :: f in h.value && Text(f) == s)
    {
      if IsBlank(key) {
        return None;
      }
      var c := Call(StoreHash.HKeys(db, Wire(key.value)), faults, 0);
      if c.Failure? {
        return None;
      }
      r := Some(TextSet(c.value));
    }

    /** `hlen(key)`. */
    method HLen(key: JString, faults: set<nat>) returns (r: Option<nat>)
      ensures IsBlank(key) || 0 in faults ==> r.None?
      ensures !IsBlank(key) && 0 !in faults ==>
                var h := StoreHash.HashAt(db, Wire(key.value));
                (r.Some? <==> h.Success?) && (r.Some? ==> r.value == |h.value|)
    {
      if IsBlank(key) {
        return None;
      }
      r := Read(Call(StoreHash.HLen(db, Wire(key.value)), faults, 0));
    }

    // -------------------------------------------------------------------
    // Lists

    /** `lpush(key, values...)`: the argument assertion is inside the try
        block; the reply is the new length. */
    method LPush(key: JString, values: seq<string>, faults: set<nat>) returns (r: Option<nat>)
      requires Valid()
      modifies this
      ensures Valid()
      ensures IsBlank(key) || values == [] ==> r.None? && db == old(db)
      ensures !IsBlank(key) && values != [] ==>
                var c := Call(StoreList.LPush(old(db), Wire(key.value), WireAll(values)), faults, 0);
                db == After(c, old(db)) && r == Reply(c)
    {
      if IsBlank(key) || values == [] {
        return None;
      }
      var c := Call(StoreList.LPush(db, Wire(key.value), WireAll(values)), faults, 0);
      if c.Failure? {
        return None;
      }
      db := c.value.0;
      r := Some(c.value.1);
    }

    /** `lpush(byte[] key, byte[]... values)`: a null or empty key gives
        null. */
    method LPushBytes(key: Option<Bytes>, values: seq<Bytes>, faults: set<nat>) returns (r: Option<nat>)
      requires Valid()
      modifies this
      ensures Valid()
      ensures key.None? || key == Some([]) || values == [] ==> r.None? && db == old(db)
      ensures key.Some? && key.value != [] && values != [] ==>
                var c := Call(StoreList.LPush(old(db), key.value, values), faults, 0);
                db == After(c, old(db)) && r == Reply(c)
    {
      if key.None? || key.value == [] || values == [] {
        return None;
      }
      var c := Call(StoreList.LPush(db, key.value, values), faults, 0);
      if c.Failure? {
        return None;
      }
      db := c.value.0;
      r := Some(c.value.1);
    }

    /** `rpush(byte[] key, byte[]... values)`. */
    method RPushBytes(key: Option<Bytes>, values: seq<Bytes>, faults: set<nat>) returns (r: Option<nat>)
      requires Valid()
      modifies this
      ensures Valid()
      ensures key.None? || key == Some([]) || values == [] ==> r.None? && db == old(db)
      ensures key.Some? && key.value != [] && values != [] ==>
                var c := Call(StoreList.RPush(old(db), key.value, values), faults, 0);
                db == After(c, old(db)) && r == Reply(c)
    {
      if key.None? || key.value == [] || values == [] {
        return None;
      }
      var c := Call(StoreList.RPush(db, key.value, values), faults, 0);
      if c.Failure? {
        return None;
      }
      db := c.value.0;
      r := Some(c.value.1);
    }

    /** `brpop(timeout, key)`: the tail of a non-empty list; an empty list
        gives null, as when the wait times out; a negative timeout is an
        error reply, swallowed as null. */
    method BRPop(timeout: Int32, key: JString, faults: set<nat>) returns (r: Option<string>)
      requires Valid()
      modifies this
      ensures Valid()
      ensures IsBlank(key) ==> r.None? && db == old(db)
      ensures !IsBlank(key) ==>
                var c := Call(StoreList.BRPop(old(db), Wire(key.value), timeout), faults, 0);
                db == After(c, old(db)) && r == (if c.Success? then TextOpt(c.value.1) else None)
    {
      if IsBlank(key) {
        return None;
      }
      var c := Call(StoreList.BRPop(db, Wire(key.value), timeout), faults, 0);
      if c.Failure? {
        return None;
      }
      db := c.value.0;
      r := TextOpt(c.value.1);
    }

    /** `rpoplpush(srcKey, dstKey)`: only null keys are refused. */
    method RPopLPush(srcKey: JString, dstKey: JString, faults: set<nat>) returns (r: Option<string>)
      requires Valid()
      modifies this
      ensures Valid()
      ensures srcKey.None? || dstKey.None? ==> r.None? && db == old(db)
      ensures srcKey.Some? && dstKey.Some? ==>
                var c := Call(StoreList.RPopLPush(old(db), Wire(srcKey.value), Wire(dstKey.value)), faults, 0);
                db == After(c, old(db)) && r == (if c.Success? then TextOpt(c.value.1) else None)
    {
      if srcKey.None? || dstKey.None? {
        return None;
      }
      var c := Call(StoreList.RPopLPush(db, Wire(srcKey.value), Wire(dstKey.value)), faults, 0);
      if c.Failure? {
        return None;
      }
      db := c.value.0;
      r := TextOpt(c.value.1);
    }

    /** `brpoplpush(source, destination, timeout)`: no guard; a null key
        fails in the driver, and that failure and a negative timeout are
        swallowed as null. */
    method BRPopLPush(source: JString, destination: JString, timeout: Int32, faults: set<nat>) returns (r: Option<string>)
      requires Valid()
      modifies this
      ensures Valid()
      ensures source.None? || destination.None? ==> r.None? && db == old(db)
      ensures source.Some? && destination.Some? ==>
                var c := Call(StoreList.BRPopLPush(old(db), Wire(source.value), Wire(destination.value), timeout), faults, 0);
                db == After(c, old(db)) && r == (if c.Success? then TextOpt(c.value.1) else None)
    {
      if source.None? || destination.None? {
        return None;
      }
      var c := Call(StoreList.BRPopLPush(db, Wire(source.value), Wire(destination.value), timeout), faults, 0);
      if c.Failure? {
        return None;
      }
      db := c.value.0;
      r := TextOpt(c.value.1);
    }

    /** `llen(key)`. */
    method LLen(key: JString, faults: set<nat>) returns (r: Option<nat>)
      ensures IsBlank(key) || 0 in faults ==> r.None?
      ensures !IsBlank(key) && 0 !in faults ==>
                var l := StoreList.ListAt(db, Wire(key.value));
                (r.Some? <==> l.Success?) && (r.Some? ==> r.value == |l.value|)
    {
      if IsBlank(key) {
        return None;
      }
      r := Read(Call(StoreList.LLen(db, Wire(key.value)), faults, 0));
    }

    /** `lindex(key, index)`: a negative index counts from the tail. */
    method LIndex(key: JString, index: Int64, faults: set<nat>) returns (r: Option<string>)
      ensures IsBlank(key) || 0 in faults ==> r.None?
      ensures !IsBlank(key) && 0 !in faults ==>
                var l := StoreList.ListAt(db, Wire(key.value));
                (r.Some? <==> l.Success? && StoreList.ResolveIndex(|l.value|, index).Some?) &&
                (r.Some? ==> r.value == Text(l.value[StoreList.ResolveIndex(|l.value|, index).value]))
    {
      if IsBlank(key) {
        return None;
      }
      var c := Call(StoreList.LIndex(db, Wire(key.value), index), faults, 0);
      if c.Failure? {
        return None;
      }
      r := TextOpt(c.value);
    }

    /** `lrange(key, start, end)`. */
    method LRange(key: JString, start: Int32, end: Int32, faults: set<nat>) returns (r: Option<seq<string>>)
      ensures IsBlank(key) || 0 in faults ==> r.None?
      ensures !IsBlank(key) && 0 !in faults ==>
                var l := StoreList.ListAt(db, Wire(key.value));
                (r.Some? <==> l.Success?) &&
                (r.Some? ==> r.value == TextAll(StoreList.Slice(l.value, start, end)))
    {
      if IsBlank(key) {
        return None;
      }
      var c := Call(StoreList.LRange(db, Wire(key.value), start, end), faults, 0);
      if c.Failure? {
        return None;
      }
      r := Some(TextAll(c.value));
    }

    /** `lrangeAll(key)`: `lrange(key, 0, -1)`, the whole list. */
    method LRangeAll(key: JString, faults: set<nat>) returns (r: Option<seq<string>>)
      ensures IsBlank(key) || 0 in faults ==> r.None?
      ensures !IsBlank(key) && 0 !in faults ==>
                var l := StoreList.ListAt(db, Wire(key.value));
                (r.Some? <==> l.Success?) && (r.Some? ==> r.value == TextAll(l.value))
    {
      r := LRange(key, 0, -1, faults);
      if !IsBlank(key) && 0 !in faults && r.Some? {
        StoreList.RangeAll(|StoreList.ListAt(db, Wire(key.value)).value|);
      }
    }

    /** `lrange(byte[] key, start, end)`. */
    method LRangeBytes(key: Option<Bytes>, start: Int32, end: Int32, faults: set<nat>) returns (r: Option<seq<Bytes>>)
      ensures key.None? || key == Some([]) || 0 in faults ==> r.None?
      ensures key.Some? && key.value != [] && 0 !in faults ==>
                var l := StoreList.ListAt(db, key.value);
                (r.Some? <==> l.Success?) && (r.Some? ==> r.value == StoreList.Slice(l.value, start, end))
    {
      if key.None? || key.value == [] {
        return None;
      }
      r := Read(Call(StoreList.LRange(db, key.value, start, end), faults, 0));
    }

    /** `ltrim(key, start, end)`. */
    method LTrim(key: JString, start: Int32, end: Int32, faults: set<nat>)
      requires Valid()
      modifies this
      ensures Valid()
      ensures IsBlank(key) ==> db == old(db)
      ensures !IsBlank(key) ==>
                db == Applied(Call(StoreList.LTrim(old(db), Wire(key.value), start, end), faults, 0), old(db))
    {
      if IsBlank(key) {
        return;
      }
      var c := Call(StoreList.LTrim(db, Wire(key.value), start, end), faults, 0);
      if c.Success? {
        db := c.value;
      }
    }

    /** `ltrimFromLeft(key, size)`: LTRIM 0 .. size-1, the end computed in
        32-bit arithmetic; the list left behind is `TrimFromLeft`. */
    method LTrimFromLeft(key: JString, size: Int32, faults: set<nat>)
      requires Valid()
      modifies this
      ensures Valid()
      ensures IsBlank(key) ==> db == old(db)
      ensures !IsBlank(key) ==>
                db == Applied(Call(StoreList.LTrim(old(db), Wire(key.value), 0, TrimEnd(size)), faults, 0), old(db))
      ensures !IsBlank(key) && 0 !in faults && StoreList.ListAt(old(db), Wire(key.value)).Success? ==>
                StoreList.ListAt(db, Wire(key.value)) ==
                  Success(TrimFromLeft(StoreList.ListAt(old(db), Wire(key.value)).value, size))
    {
      if IsBlank(key) {
        return;
      }
      var c := Call(StoreList.LTrim(db, Wire(key.value), 0, TrimEnd(size)), faults, 0);
      if c.Success? {
        db := c.value;
      }
    }

    /** `lremFirst(key, value)`: removes the first occurrence; true exactly
        when there was one; false for a blank key, null on a failure. */
    method LRemFirst(key: JString, value: string, faults: set<nat>) returns (r: Option<bool>)
      requires Valid()
      modifies this
      ensures Valid()
      ensures IsBlank(key) ==> r == Some(false) && db == old(db)
      ensures !IsBlank(key) ==>
                var c := Call(StoreList.LRem(old(db), Wire(key.value), 1, Wire(value)), faults, 0);
                db == After(c, old(db)) && (r.None? <==> c.Failure?)
      ensures !IsBlank(key) && r.Some? ==>
                r.value == (Wire(value) in StoreList.ListAt(old(db), Wire(key.value)).value)
      ensures !IsBlank(key) && r.Some? ==>
                var l := StoreList.ListAt(old(db), Wire(key.value)).value;
                StoreList.ListAt(db, Wire(key.value)) == Success(StoreList.RemoveFirst(l, Wire(value), 1))
    {
      if IsBlank(key) {
        return Some(false);
      }
      var c := Call(StoreList.LRem(db, Wire(key.value), 1, Wire(value)), faults, 0);
      if c.Failure? {
        return None;
      }
      StoreList.LRemReply(db, Wire(key.value), Wire(value));
      db := c.value.0;
      r := Some(c.value.1 == 1);
    }

    /** `lremAll(key, value)`: removes every occurrence; true exactly when
        there was one. */
    method LRemAll(key: JString, value: string, faults: set<nat>) returns (r: Option<bool>)
      requires Valid()
      modifies this
      ensures Valid()
      ensures IsBlank(key) ==> r == Some(false) && db == old(db)
      ensures !IsBlank(key) ==>
                var c := Call(StoreList.LRem(old(db), Wire(key.value), 0, Wire(value)), faults, 0);
                db == After(c, old(db)) && (r.None? <==> c.Failure?)
      ensures !IsBlank(key) && r.Some? ==>
                r.value == (Wire(value) in StoreList.ListAt(old(db), Wire(key.value)).value)
      ensures !IsBlank(key) && r.Some? ==>
                var l := StoreList.ListAt(old(db), Wire(key.value)).value;
                StoreList.ListAt(db, Wire(key.value)) == Success(StoreList.RemoveAll(l, Wire(value)))
    {
      if IsBlank(key) {
        return Some(false);
      }
      var c := Call(StoreList.LRem(db, Wire(key.value), 0, Wire(value)), faults, 0);
      if c.Failure? {
        return None;
      }
      var l := StoreList.ListAt(db, Wire(key.value)).value;
      StoreList.LRemReply(db, Wire(key.value), Wire(value));
      assert Wire(value) in l <==> StoreList.Count(l, Wire(value)) > 0;
      db := c.value.0;
      r := Some(c.value.1 > 0);
    }

    /** `lset(key, index, value)`: true on OK; an index out of range or a
        missing key is an error reply, so null. */
    method LSet(key: JString, index: Int64, value: string, faults: set<nat>) returns (r: Option<bool>)
      requires Valid()
      modifies this
      ensures Valid()
      ensures IsBlank(key) ==> r.None? && db == old(db)
      ensures !IsBlank(key) ==>
                var c := Call(StoreList.LSet(old(db), Wire(key.value), index, Wire(value)), faults, 0);
                db == Applied(c, old(db)) && (r == Some(true) <==> c.Success?) && (r.None? <==> c.Failure?)
      ensures !IsBlank(key) && 0 !in faults ==>
                var k := Wire(key.value);
                (r == Some(true) <==>
                   k in old(db).data && old(db).data[k].List? &&
                   StoreList.ResolveIndex(|old(db).data[k].items|, index as int).Some?)
    {
      if IsBlank(key) {
        return None;
      }
      var c := Call(StoreList.LSet(db, Wire(key.value), index, Wire(value)), faults, 0);
      if c.Failure? {
        return None;
      }
      db := c.value;
      r := Some(JedisUtils.IsStatusOk(Some(JedisUtils.OkCode)));
      JedisUtils.StatusOkIsLiteral();
    }

    /** `lpop(key)`: no try block, so failures escape. */
    method LPop(key: JString, faults: set<nat>) returns (r: Outcome<Option<string>>)
      requires Valid()
      modifies this
      ensures Valid()
      ensures IsBlank(key) ==> r == Returned(None) && db == old(db)
      ensures !IsBlank(key) ==>
                var c := Call(StoreList.LPop(old(db), Wire(key.value)), faults, 0);
                db == After(c, old(db)) &&
                (c.Failure? ==> r == Threw(StoreException(c.error))) &&
                (c.Success? ==> r == Returned(TextOpt(c.value.1)))
    {
      if IsBlank(key) {
        return Returned(None);
      }
      var c := Call(StoreList.LPop(db, Wire(key.value)), faults, 0);
      if c.Failure? {
        return Threw(StoreException(c.error));
      }
      db := c.value.0;
      r := Returned(TextOpt(c.value.1));
    }

    /** `lpop(byte[] key)`. */
    method LPopBytes(key: Option<Bytes>, faults: set<nat>) returns (r: Outcome<Option<Bytes>>)
      requires Valid()
      modifies this
      ensures Valid()
      ensures key.None? || key == Some([]) ==> r == Returned(None) && db == old(db)
      ensures key.Some? && key.value != [] ==>
                var c := Call(StoreList.LPop(old(db), key.value), faults, 0);
                db == After(c, old(db)) &&
                (c.Failure? ==> r == Threw(StoreException(c.error))) &&
                (c.Success? ==> r == Returned(c.value.1))
    {
      if key.None? || key.value == [] {
        return Returned(None);
      }
      var c := Call(StoreList.LPop(db, key.value), faults, 0);
      if c.Failure? {
        return Threw(StoreException(c.error));
      }
      db := c.value.0;
      r := Returned(c.value.1);
    }

    /** `rpop(key)`. */
    method RPop(key: JString, faults: set<nat>) returns (r: Option<string>)
      requires Valid()
      modifies this
      ensures Valid()
      ensures IsBlank(key) ==> r.None? && db == old(db)
      ensures !IsBlank(key) ==>
                var c := Call(StoreList.RPop(old(db), Wire(key.value)), faults, 0);
                db == After(c, old(db)) && r == (if c.Success? then TextOpt(c.value.1) else None)
    {
      if IsBlank(key) {
        return None;
      }
      var c := Call(StoreList.RPop(db, Wire(key.value)), faults, 0);
      if c.Failure? {
        return None;
      }
      db := c.value.0;
      r := TextOpt(c.value.1);
    }

    /** `rpop(byte[] key)`. */
    method RPopBytes(key: Option<Bytes>, faults: set<nat>) returns (r: Option<Bytes>)
      requires Valid()
      modifies this
      ensures Valid()
      ensures key.None? || key == Some([]) ==> r.None? && db == old(db)
      ensures key.Some? && key.value != [] ==>
                var c := Call(StoreList.RPop(old(db), key.value), faults, 0);
                db == After(c, old(db)) && r == (if c.Success? then c.value.1 else None)
    {
      if key.None? || key.value == [] {
        return None;
      }
      var c := Call(StoreList.RPop(db, key.value), faults, 0);
      if c.Failure? {
        return None;
      }
      db := c.value.0;
      r := c.value.1;
    }

    // -------------------------------------------------------------------
    // Sets

    /** `sadd(key, members...)`: the argument assertion comes first and is
        outside the try block; true exactly when every member was new and
        none was named twice. */
    method SAdd(key: JString, members: seq<string>, faults: set<nat>) returns (r: Outcome<Option<bool>>)
      requires Valid()
      modifies this
      ensures Valid()
      ensures members == [] ==> r == Threw(IllegalArgument) && db == old(db)
      ensures members != [] && IsBlank(key) ==> r == Returned(Some(false)) && db == old(db)
      ensures members != [] && !IsBlank(key) ==>
                var c := Call(StoreSet.SAdd(old(db), Wire(key.value), WireAll(members)), faults, 0);
                db == After(c, old(db)) && r.Returned? && (r.value.None? <==> c.Failure?) &&
                (r.value.Some? ==>
                   (r.value.value <==>
                      (forall i, j :: 0 <= i < j < |members| ==> members[i] != members[j]) &&
                      (forall m :: m in members ==> Wire(m) !in StoreSet.SetAt(old(db), Wire(key.value)).value)))
    {
      if members == [] {
        return Threw(IllegalArgument);
      }
      if IsBlank(key) {
        return Returned(Some(false));
      }
      var ms := WireAll(members);
      var c := Call(StoreSet.SAdd(db, Wire(key.value), ms), faults, 0);
      if c.Failure? {
        return Returned(None);
      }
      StoreSet.SAddCountsAllNew(db, Wire(key.value), ms);
      WireAllDistinct(members);
      assert (forall m :: m in members ==> Wire(m) !in StoreSet.SetAt(db, Wire(key.value)).value) <==>
             (forall m :: m in ms ==> m !in StoreSet.SetAt(db, Wire(key.value)).value) by {
        forall m | m in members ensures Wire(m) in ms {
          var i :| 0 <= i < |members| && members[i] == m;
          assert ms[i] == Wire(m);
        }
      }
      db := c.value.0;
      r := Returned(Some(c.value.1 == |members|));
    }

    /** `sadd(key, member)`: true exactly when the member was new; a blank
        key gives null. */
    method SAddOne(key: JString, member: string, faults: set<nat>) returns (r: Option<bool>)
      requires Valid()
      modifies this
      ensures Valid()
      ensures IsBlank(key) ==> r.None? && db == old(db)
      ensures !IsBlank(key) ==>
                var c := Call(StoreSet.SAdd(old(db), Wire(key.value), [Wire(member)]), faults, 0);
                db == After(c, old(db)) && (r.None? <==> c.Failure?) &&
                (r.Some? ==> (r.value <==> Wire(member) !in StoreSet.SetAt(old(db), Wire(key.value)).value))
    {
      if IsBlank(key) {
        return None;
      }
      var c := Call(StoreSet.SAdd(db, Wire(key.value), [Wire(member)]), faults, 0);
      if c.Failure? {
        return None;
      }
      StoreSet.SAddCountsAllNew(db, Wire(key.value), [Wire(member)]);
      db := c.value.0;
      r := Some(c.value.1 == 1);
    }

    /** `smembers(key)`: the decoded members. */
    method SMembers(key: JString, faults: set<nat>) returns (r: Option<set<string>>)
      ensures IsBlank(key) || 0 in faults ==> r.None?
      ensures !IsBlank(key) && 0 !in faults ==>
                var s := StoreSet.SetAt(db, Wire(key.value));
                (r.Some? <==> s.Success?) &&
                (r.Some? ==> forall x :: x in r.value <==> exists b :: b in s.value && Text(b) == x)
    {
      if IsBlank(key) {
        return None;
      }
      var c := Call(StoreSet.SetAt(db, Wire(key.value)), faults, 0);
      if c.Failure? {
        return None;
      }
      r := Some(TextSet(c.value));
    }

    // -------------------------------------------------------------------
    // Sorted sets

    /** `zadd(key, score, member)`: true exactly when the member is new;
        false for a blank key, null on a failure. */
    method ZAdd(key: JString, score: int, member: string, faults: set<nat>) returns (r: Option<bool>)
      requires Valid()
      modifies this
      ensures Valid()
      ensures IsBlank(key) ==> r == Some(false) && db == old(db)
      ensures !IsBlank(key) ==>
                var c := Call(StoreZSet.ZAdd(old(db), Wire(key.value), score, Wire(member)), faults, 0);
                db == After(c, old(db)) && r == Reply(c)
    {
      if IsBlank(key) {
        return Some(false);
      }
      r := ZAddBytes(Wire(key.value), score, Wire(member), faults);
    }

    /** `zadd(key, score, Object member)`: the serialized member. */
    method ZAddTyped(key: JString, score: int, member: JValue<T>, faults: set<nat>) returns (r: Option<bool>)
      requires Valid()
      modifies this
      ensures Valid()
      ensures IsBlank(key) ==> r == Some(false) && db == old(db)
      ensures !IsBlank(key) ==>
                var c := Call(StoreZSet.ZAdd(old(db), Wire(key.value), score, codec.serialize(member)), faults, 0);
                db == After(c, old(db)) && r == Reply(c)
    {
      if IsBlank(key) {
        return Some(false);
      }
      r := ZAddBytes(Wire(key.value), score, codec.serialize(member), faults);
    }

    method ZAddBytes(k: Bytes, score: int, m: Bytes, faults: set<nat>) returns (r: Option<bool>)
      requires Valid()
      modifies this
      ensures Valid()
      ensures var c := Call(StoreZSet.ZAdd(old(db), k, score, m), faults, 0);
              db == After(c, old(db)) && r == Reply(c)
    {
      var c := Call(StoreZSet.ZAdd(db, k, score, m), faults, 0);
      if c.Failure? {
        return None;
      }
      StoreZSet.ZAddValid(db, k, score, m);
      db := c.value.0;
      r := Some(c.value.1);
    }

    /** `zrank(key, member)`. */
    method ZRank(key: JString, member: string, faults: set<nat>) returns (r: Option<nat>)
      ensures IsBlank(key) || 0 in faults ==> r.None?
      ensures !IsBlank(key) && 0 !in faults ==>
                var z := StoreZSet.ZSetAt(db, Wire(key.value));
                r == (if z.Success? then StoreZSet.IndexOf(z.value, Wire(member)) else None)
    {
      if IsBlank(key) {
        return None;
      }
      var c := Call(StoreZSet.ZRank(db, Wire(key.value), Wire(member)), faults, 0);
      if c.Failure? {
        return None;
      }
      r := c.value;
    }

    /** `zrevrank(key, member)`: the rank counted from the highest score. */
    method ZRevRank(key: JString, member: string, faults: set<nat>) returns (r: Option<nat>)
      ensures IsBlank(key) || 0 in faults ==> r.None?
      ensures !IsBlank(key) && 0 !in faults ==>
                var z := StoreZSet.ZSetAt(db, Wire(key.value));
                (r.Some? <==> z.Success? && StoreZSet.IndexOf(z.value, Wire(member)).Some?) &&
                (r.Some? ==> r.value == |z.value| - 1 - StoreZSet.IndexOf(z.value, Wire(member)).value)
    {
      if IsBlank(key) {
        return None;
      }
      var c := Call(StoreZSet.ZRevRank(db, Wire(key.value), Wire(member)), faults, 0);
      if c.Failure? {
        return None;
      }
      r := c.value;
    }

    /** `zrange(key, start, end)`: the decoded members of the slice, in
        order, a repeated string kept once. */
    method ZRange(key: JString, start: Int32, end: Int32, faults: set<nat>) returns (r: Option<seq<string>>)
      ensures IsBlank(key) || 0 in faults ==> r.None?
      ensures !IsBlank(key) && 0 !in faults ==>
                var c := StoreZSet.ZRange(db, Wire(key.value), start, end);
                (r.Some? <==> c.Success?) && (r.Some? ==> r.value == LinkedSet(TextAll(c.value)))
    {
      if IsBlank(key) {
        return None;
      }
      var c := Call(StoreZSet.ZRange(db, Wire(key.value), start, end), faults, 0);
      if c.Failure? {
        return None;
      }
      r := Some(LinkedSet(TextAll(c.value)));
    }

    /** `zrange(key, start, end, clazz)`: each member deserialized in
        order into a `LinkedHashSet`, nulls skipped; a member that does not
        deserialize makes the reply null. */
    method ZRangeTyped(key: JString, start: Int32, end: Int32, faults: set<nat>) returns (r: Option<seq<JValue<T>>>)
      ensures IsBlank(key) || 0 in faults ==> r.None?
      ensures !IsBlank(key) && 0 !in faults ==>
                var c := StoreZSet.ZRange(db, Wire(key.value), start, end);
                (r.Some? <==> c.Success? && Decoded(codec, c.value).Some?) &&
                (r.Some? ==> r.value == LinkedSet(Decoded(codec, c.value).value))
    {
      if IsBlank(key) {
        return None;
      }
      var c := Call(StoreZSet.ZRange(db, Wire(key.value), start, end), faults, 0);
      if c.Failure? {
        return None;
      }
      r := DecodeMembers(c.value);
    }

    /** The decoding loop of the typed ZRANGE: members deserialized in
        order into a `LinkedHashSet`, nulls skipped, none on a member that
        does not deserialize. */
    method DecodeMembers(ms: seq<Bytes>) returns (r: Option<seq<JValue<T>>>)
      ensures r.Some? <==> Decoded(codec, ms).Some?
      ensures r.Some? ==> r.value == LinkedSet(Decoded(codec, ms).value)
    {
      var members: seq<JValue<T>> := [];
      ghost var seen: seq<JValue<T>> := [];
      var i := 0;
      while i < |ms|
        invariant 0 <= i <= |ms|
        invariant Decoded(codec, ms[..i]) == Some(seen)
        invariant members == LinkedSet(seen)
      {
        DecodedStep(codec, ms, i);
        var v := codec.deserialize(ms[i]);
        if v.None? {
          DecodedNoneStays(codec, ms, i + 1);
          return None;
        }
        if !v.value.JNull? {
          LinkedSetStep(seen, v.value);
          if v.value !in members {
            members := members + [v.value];
          }
          seen := seen + [v.value];
        }
        i := i + 1;
      }
      assert ms[..i] == ms;
      r := Some(members);
    }

    /** `zrangeWithScores(key, start, end)`. */
    method ZRangeWithScores(key: JString, start: Int32, end: Int32, faults: set<nat>) returns (r: Option<seq<Store.ZItem>>)
      ensures IsBlank(key) || 0 in faults ==> r.None?
      ensures !IsBlank(key) && 0 !in faults ==>
                var z := StoreZSet.ZSetAt(db, Wire(key.value));
                (r.Some? <==> z.Success?) &&
                (r.Some? ==> var b := StoreList.RangeBounds(|z.value|, start, end); r.value == z.value[b.0..b.1])
    {
      if IsBlank(key) {
        return None;
      }
      r := Read(Call(StoreZSet.ZRangeWithScores(db, Wire(key.value), start, end), faults, 0));
    }

    /** `zrevrange(key, start, end)`. */
    method ZRevRange(key: JString, start: Int32, end: Int32, faults: set<nat>) returns (r: Option<seq<string>>)
      ensures IsBlank(key) || 0 in faults ==> r.None?
      ensures !IsBlank(key) && 0 !in faults ==>
                var c := StoreZSet.ZRevRange(db, Wire(key.value), start, end);
                (r.Some? <==> c.Success?) && (r.Some? ==> r.value == LinkedSet(TextAll(c.value)))
    {
      if IsBlank(key) {
        return None;
      }
      var c := Call(StoreZSet.ZRevRange(db, Wire(key.value), start, end), faults, 0);
      if c.Failure? {
        return None;
      }
      r := Some(LinkedSet(TextAll(c.value)));
    }

    /** `zrevrangeWithScores(key, start, end)`. */
    method ZRevRangeWithScores(key: JString, start: Int32, end: Int32, faults: set<nat>) returns (r: Option<seq<Store.ZItem>>)
      ensures IsBlank(key) || 0 in faults ==> r.None?
      ensures !IsBlank(key) && 0 !in faults ==>
                var z := StoreZSet.ZSetAt(db, Wire(key.value));
                (r.Some? <==> z.Success?) &&
                (r.Some? ==> var rz := StoreList.Reverse(z.value); var b := StoreList.RangeBounds(|rz|, start, end);
                             r.value == rz[b.0..b.1])
    {
      if IsBlank(key) {
        return None;
      }
      r := Read(Call(StoreZSet.ZRevRangeWithScores(db, Wire(key.value), start, end), faults, 0));
    }

    /** `zrem(key, member)`: true exactly when the member was there. */
    method ZRem(key: JString, member: string, faults: set<nat>) returns (r: Option<bool>)
      requires Valid()
      modifies this
      ensures Valid()
      ensures IsBlank(key) ==> r == Some(false) && db == old(db)
      ensures !IsBlank(key) ==>
                var c := Call(StoreZSet.ZRem(old(db), Wire(key.value), Wire(member)), faults, 0);
                db == After(c, old(db)) && r == Reply(c)
    {
      if IsBlank(key) {
        return Some(false);
      }
      var k := Wire(key.value);
      var c := Call(StoreZSet.ZRem(db, k, Wire(member)), faults, 0);
      if c.Failure? {
        return None;
      }
      StoreZSet.ZRemValid(db, k, Wire(member));
      db := c.value.0;
      r := Some(c.value.1);
    }

    /** `zremByRank(key, start, end)`: the number of members removed. */
    method ZRemByRank(key: JString, start: Int64, end: Int64, faults: set<nat>) returns (r: Option<nat>)
      requires Valid()
      modifies this
      ensures Valid()
      ensures IsBlank(key) ==> r.None? && db == old(db)
      ensures !IsBlank(key) ==>
                var c := Call(StoreZSet.ZRemRangeByRank(old(db), Wire(key.value), start, end), faults, 0);
                db == After(c, old(db)) && r == Reply(c)
    {
      if IsBlank(key) {
        return None;
      }
      var k := Wire(key.value);
      var c := Call(StoreZSet.ZRemRangeByRank(db, k, start, end), faults, 0);
      if c.Failure? {
        return None;
      }
      StoreZSet.ZRemRangeByRankValid(db, k, start, end);
      db := c.value.0;
      r := Some(c.value.1);
    }

    /** `zcard(key)`. */
    method ZCard(key: JString, faults: set<nat>) returns (r: Option<nat>)
      ensures IsBlank(key) || 0 in faults ==> r.None?
      ensures !IsBlank(key) && 0 !in faults ==>
                var z := StoreZSet.ZSetAt(db, Wire(key.value));
                (r.Some? <==> z.Success?) && (r.Some? ==> r.value == |z.value|)
    {
      if IsBlank(key) {
        return None;
      }
      r := Read(Call(StoreZSet.ZCard(db, Wire(key.value)), faults, 0));
    }
  }
}
