/** The Redis server as the facade sees it: a keyspace of typed entries plus
    the expiry attached to some keys.  Every command is a function from the
    keyspace to its reply and the new keyspace, or to the error reply the
    driver turns into an exception.  This module holds the keyspace, the
    generic key commands and the string commands; the other entry kinds have
    their own modules. */
module Store {
  import opened Wrappers
  import opened JavaLang
  import Utf8

  type Bytes = Utf8.Bytes

  /** A sorted-set member and its (integral) score. */
  datatype ZItem = ZItem(member: Bytes, score: int)

  datatype Entry =
    | Str(bytes: Bytes)
    | Hash(fields: map<Bytes, Bytes>)
    | List(items: seq<Bytes>)
    | Members(members: set<Bytes>)
    | Sorted(zitems: seq<ZItem>)

  /** The deadline recorded for a key: relative seconds, or an absolute
      Unix time in milliseconds. */
  datatype Expiry = ExpireIn(seconds: int) | ExpireAtMillis(millis: int)

  datatype Db = Db(data: map<Bytes, Entry>, ttl: map<Bytes, Expiry>)

  /** Error replies, plus the failure of the cluster connection itself. */
  datatype StoreError =
    | WrongType        // WRONGTYPE Operation against a key holding the wrong kind of value
    | NotInteger       // value is not an integer or out of range
    | Overflow         // increment or decrement would overflow
    | InvalidExpire    // invalid expire time
    | NoSuchKey        // no such key
    | IndexOutOfRange  // index out of range
    | WrongArity       // wrong number of arguments
    | NegativeTimeout  // timeout is negative
    | ClusterFailure   // connection, redirection or cross-slot failure

  const EmptyDb := Db(map[], map[])

  // ---------------------------------------------------------------------
  // The shape Redis keeps

  /** Byte strings in lexicographic order, a proper prefix first. */
  predicate BytesLess(a: Bytes, b: Bytes) {
    if a == [] then b != []
    else if b == [] then false
    else a[0] < b[0] || (a[0] == b[0] && BytesLess(a[1..], b[1..]))
  }

  /** Sorted-set order: by score, then by member. */
  predicate ItemLess(x: ZItem, y: ZItem) {
    x.score < y.score || (x.score == y.score && BytesLess(x.member, y.member))
  }

  predicate SortedItems(items: seq<ZItem>) {
    forall i, j :: 0 <= i < j < |items| ==> ItemLess(items[i], items[j])
  }

  predicate DistinctMembers(items: seq<ZItem>) {
    forall i, j :: 0 <= i < j < |items| ==> items[i].member != items[j].member
  }

  /** Redis never keeps an empty collection, and a sorted set is ordered
      and holds each member once. */
  predicate WellFormed(e: Entry) {
    match e
    case Str(_) => true
    case Hash(m) => m != map[]
    case List(l) => l != []
    case Members(s) => s != {}
    case Sorted(z) => z != [] && SortedItems(z) && DistinctMembers(z)
  }

  /** Only existing keys carry an expiry; every entry is well formed. */
  predicate Valid(db: Db) {
    db.ttl.Keys <= db.data.Keys && forall k :: k in db.data ==> WellFormed(db.data[k])
  }

  // ---------------------------------------------------------------------
  // Keyspace updates shared by the commands

  /** Every key outside `changed` keeps its value and its expiry. */
  ghost predicate OthersKept(before: Db, after: Db, changed: set<Bytes>) {
    (forall o :: o !in changed ==> (o in after.data <==> o in before.data) && (o in after.ttl <==> o in before.ttl))
    && (forall o :: o !in changed && o in before.data ==> after.data[o] == before.data[o])
    && (forall o :: o !in changed && o in before.ttl ==> after.ttl[o] == before.ttl[o])
  }

  /** `k` keeps its expiry for as long as it exists: an in-place update of a
      collection or a counter does not touch the deadline. */
  ghost predicate ExpiryKept(before: Db, after: Db, k: Bytes) {
    k in after.data ==> (k in after.ttl <==> k in before.ttl) && (k in after.ttl ==> after.ttl[k] == before.ttl[k])
  }

  /** Only the value of `k` changed. */
  ghost predicate OnlyValueOf(before: Db, after: Db, k: Bytes) {
    OthersKept(before, after, {k}) && ExpiryKept(before, after, k)
  }

  function Remove(db: Db, k: Bytes): (r: Db)
    ensures k !in r.data && k !in r.ttl
    ensures OnlyValueOf(db, r, k)
    ensures Valid(db) ==> Valid(r)
  {
    Db(db.data - {k}, db.ttl - {k})
  }

  /** Replace the value of `k`, keeping its expiry (as an in-place update of a
      collection or a counter does). */
  function Update(db: Db, k: Bytes, e: Entry): (r: Db)
    ensures r.data == db.data[k := e] && r.ttl == db.ttl
    ensures OnlyValueOf(db, r, k)
    ensures Valid(db) && WellFormed(e) ==> Valid(r)
  {
    Db(db.data[k := e], db.ttl)
  }

  /** Bind `k` to a new value and drop any expiry, as SET does. */
  function Overwrite(db: Db, k: Bytes, e: Entry): (r: Db)
    ensures r.data == db.data[k := e] && r.ttl == db.ttl - {k}
    ensures OthersKept(db, r, {k})
    ensures Valid(db) && WellFormed(e) ==> Valid(r)
  {
    Db(db.data[k := e], db.ttl - {k})
  }

  /** The text Redis writes for an integer value. */
  function IntBytes(n: int): Bytes {
    Utf8.Encode(Show(n))
  }

  /** Redis's reading of a stored value as a 64-bit integer. */
  function StoredInt(b: Bytes): Option<Int64> {
    ParseRedisInt(Utf8.Decode(b))
  }

  lemma StoredIntOfIntBytes(n: Int64)
    ensures StoredInt(IntBytes(n)) == Some(n)
  {
    Utf8.DecodeEncode(Show(n));
    ParseRedisIntShow(n);
  }

  // ---------------------------------------------------------------------
  // Keys

  /** DEL: the keys are removed one after the other; the reply counts the
      removals that found a key. */
  function Del(db: Db, keys: seq<Bytes>): (r: (Db, nat))
    ensures Valid(db) ==> Valid(r.0)
    ensures forall k :: k in r.0.data <==> k in db.data && k !in keys
    ensures forall k :: k in r.0.data ==> r.0.data[k] == db.data[k]
    ensures forall k :: k in r.0.ttl <==> k in db.ttl && k !in keys
    ensures forall k :: k in r.0.ttl ==> r.0.ttl[k] == db.ttl[k]
    decreases |keys|
  {
    if keys == [] then (db, 0)
    else
      var k := keys[0];
      var next := Remove(db, k);
      var rest := Del(next, keys[1..]);
      (rest.0, rest.1 + (if k in db.data then 1 else 0))
  }

  /** The distinct keys of `keys` that exist. */
  function ExistingKeys(db: Db, keys: seq<Bytes>): set<Bytes> {
    set k | k in keys && k in db.data
  }

  /** DEL counts each existing key once, however often it is named. */
  lemma {:induction false} DelCount(db: Db, keys: seq<Bytes>)
    ensures Del(db, keys).1 == |ExistingKeys(db, keys)|
    decreases |keys|
  {
    if keys != [] {
      var k := keys[0];
      var next := Remove(db, k);
      DelCount(next, keys[1..]);
      var rest := ExistingKeys(next, keys[1..]);
      if k in db.data {
        assert ExistingKeys(db, keys) == rest + {k};
        assert k !in rest;
      } else {
        assert ExistingKeys(db, keys) == rest;
      }
    }
  }

  /** Keys that do not exist are ignored. */
  lemma DelMissing(db: Db, keys: seq<Bytes>)
    requires forall k :: k in keys ==> k !in db.data
    requires Valid(db)
    ensures Del(db, keys) == (db, 0)
  {
    DelCount(db, keys);
    assert ExistingKeys(db, keys) == {};
    var r := Del(db, keys).0;
    assert r.data == db.data;
    assert r.ttl == db.ttl;
  }

  /** EXISTS: counts the named keys that exist, repetitions included. */
  function Exists(db: Db, keys: seq<Bytes>): (n: nat)
    ensures n <= |keys|
    ensures n == |keys| <==> forall k :: k in keys ==> k in db.data
  {
    if keys == [] then 0
    else (if keys[0] in db.data then 1 else 0) + Exists(db, keys[1..])
  }

  /** MGET: the string value of each key in order, nil for a missing key or
      one that holds another kind of value. */
  function MGet(db: Db, keys: seq<Bytes>): (r: seq<Option<Bytes>>)
    ensures |r| == |keys|
    ensures forall i :: 0 <= i < |keys| ==>
              r[i] == (if keys[i] in db.data && db.data[keys[i]].Str? then Some(db.data[keys[i]].bytes) else None)
  {
    seq(|keys|, i requires 0 <= i < |keys| =>
      if keys[i] in db.data && db.data[keys[i]].Str? then Some(db.data[keys[i]].bytes) else None)
  }

  /** EXPIRE: a positive delay is recorded; zero or a negative delay deletes
      the key at once.  The reply says whether the key existed. */
  function Expire(db: Db, k: Bytes, seconds: int): (r: (Db, bool))
    ensures Valid(db) ==> Valid(r.0)
    ensures r.1 <==> k in db.data
    ensures k !in db.data ==> r.0 == db
    ensures k in db.data && seconds > 0 ==> r.0.data == db.data && r.0.ttl == db.ttl[k := ExpireIn(seconds)]
    ensures k in db.data && seconds <= 0 ==> k !in r.0.data && k !in r.0.ttl
    ensures OthersKept(db, r.0, {k})
  {
    if k !in db.data then (db, false)
    else if seconds <= 0 then (Remove(db, k), true)
    else (Db(db.data, db.ttl[k := ExpireIn(seconds)]), true)
  }

  /** EXPIREAT / PEXPIREAT: the absolute deadline is recorded on an existing
      key (the clock is not modelled, so a past deadline is recorded too). */
  function ExpireAt(db: Db, k: Bytes, millis: int): (r: (Db, bool))
    ensures Valid(db) ==> Valid(r.0)
    ensures r.1 <==> k in db.data
    ensures r.0.data == db.data
    ensures r.1 ==> r.0.ttl == db.ttl[k := ExpireAtMillis(millis)]
    ensures !r.1 ==> r.0 == db
    ensures OthersKept(db, r.0, {k})
  {
    if k !in db.data then (db, false)
    else (Db(db.data, db.ttl[k := ExpireAtMillis(millis)]), true)
  }

  /** PERSIST: removes the expiry; the reply says whether there was one. */
  function Persist(db: Db, k: Bytes): (r: (Db, bool))
    ensures Valid(db) ==> Valid(r.0)
    ensures r.1 <==> k in db.ttl
    ensures r.0.data == db.data && r.0.ttl == db.ttl - {k}
  {
    (Db(db.data, db.ttl - {k}), k in db.ttl)
  }

  // ---------------------------------------------------------------------
  // Strings

  /** GET: nil for a missing key, an error for a non-string value. */
  function Get(db: Db, k: Bytes): (r: Result<Option<Bytes>, StoreError>)
    ensures r == Failure(WrongType) <==> k in db.data && !db.data[k].Str?
    ensures r == Success(None) <==> k !in db.data
    ensures k in db.data && db.data[k].Str? ==> r == Success(Some(db.data[k].bytes))
  {
    if k !in db.data then Success(None)
    else match db.data[k]
      case Str(v) => Success(Some(v))
      case _ => Failure(WrongType)
  }

  /** SET: overwrites whatever `k` held and drops its expiry. */
  function Set(db: Db, k: Bytes, v: Bytes): (r: Db)
    ensures Valid(db) ==> Valid(r)
    ensures r.data == db.data[k := Str(v)] && k !in r.ttl
    ensures OthersKept(db, r, {k})
  {
    Overwrite(db, k, Str(v))
  }

  /** SETNX: writes only a missing key; the reply says whether it wrote. */
  function SetNx(db: Db, k: Bytes, v: Bytes): (r: (Db, bool))
    ensures Valid(db) ==> Valid(r.0)
    ensures r.1 <==> k !in db.data
    ensures !r.1 ==> r.0 == db
    ensures r.1 ==> r.0.data == db.data[k := Str(v)] && k !in r.0.ttl && OthersKept(db, r.0, {k})
  {
    if k in db.data then (db, false) else (Set(db, k, v), true)
  }

  /** SET key value NX EX seconds: the delay is checked first; then a missing
      key is written with that expiry (reply OK, here `true`) and an existing
      key is left alone (reply nil, here `false`). */
  function SetNxEx(db: Db, k: Bytes, v: Bytes, seconds: int): (r: Result<(Db, bool), StoreError>)
    ensures seconds <= 0 <==> r == Failure(InvalidExpire)
    ensures r.Success? ==> (r.value.1 <==> k !in db.data)
    ensures r.Success? && !r.value.1 ==> r.value.0 == db
    ensures r.Success? && r.value.1 ==>
              r.value.0.data == db.data[k := Str(v)] && r.value.0.ttl == db.ttl[k := ExpireIn(seconds)]
    ensures Valid(db) && r.Success? ==> Valid(r.value.0)
  {
    if seconds <= 0 then Failure(InvalidExpire)
    else if k in db.data then Success((db, false))
    else Success((Db(db.data[k := Str(v)], db.ttl[k := ExpireIn(seconds)]), true))
  }

  /** SETEX: SET with an expiry; a delay that is not positive is an error. */
  function SetEx(db: Db, k: Bytes, seconds: int, v: Bytes): (r: Result<Db, StoreError>)
    ensures seconds <= 0 <==> r.Failure?
    ensures r.Failure? ==> r.error == InvalidExpire
    ensures r.Success? ==> r.value.data == db.data[k := Str(v)] && r.value.ttl == db.ttl[k := ExpireIn(seconds)]
    ensures Valid(db) && r.Success? ==> Valid(r.value)
  {
    if seconds <= 0 then Failure(InvalidExpire)
    else Success(Db(db.data[k := Str(v)], db.ttl[k := ExpireIn(seconds)]))
  }

  /** GETSET: SET that replies with the previous string value. */
  function GetSet(db: Db, k: Bytes, v: Bytes): (r: Result<(Db, Option<Bytes>), StoreError>)
    ensures r.Failure? <==> Get(db, k).Failure?
    ensures r.Success? ==> r.value == (Set(db, k, v), Get(db, k).value)
    ensures Valid(db) && r.Success? ==> Valid(r.value.0)
  {
    match Get(db, k)
    case Failure(e) => Failure(e)
    case Success(previous) => Success((Set(db, k, v), previous))
  }

  /** INCRBY: a missing key counts as 0; the value must be the canonical text
      of a 64-bit integer and the sum must stay in range; the key keeps its
      expiry. */
  function IncrBy(db: Db, k: Bytes, n: Int64): (r: Result<(Db, Int64), StoreError>)
    ensures Valid(db) && r.Success? ==> Valid(r.value.0)
    ensures k in db.data && !db.data[k].Str? ==> r == Failure(WrongType)
    ensures r.Success? ==> r.value.0 == Update(db, k, Str(IntBytes(r.value.1)))
    ensures r.Success? ==> (k !in db.data && r.value.1 == n) ||
                           (k in db.data && db.data[k].Str? && StoredInt(db.data[k].bytes) == Some(r.value.1 - n))
  {
    var current: Option<Int64> :=
      if k !in db.data then Some(0)
      else match db.data[k]
        case Str(v) => StoredInt(v)
        case _ => None;
    if k in db.data && !db.data[k].Str? then Failure(WrongType)
    else if current.None? then Failure(NotInteger)
    else
      var sum := current.value + n;
      if sum < LongMin || sum > LongMax then Failure(Overflow)
      else Success((Update(db, k, Str(IntBytes(sum))), sum))
  }

  /** DECRBY: INCRBY by the negation, except that the negation of the
      smallest 64-bit value is itself an error. */
  function DecrBy(db: Db, k: Bytes, n: Int64): (r: Result<(Db, Int64), StoreError>)
    ensures n == LongMin ==> r == Failure(Overflow)
    ensures k in db.data && !db.data[k].Str? ==> r.Failure?
    ensures n != LongMin && k in db.data && !db.data[k].Str? ==> r == Failure(WrongType)
    ensures r.Success? ==> r.value.0 == Update(db, k, Str(IntBytes(r.value.1)))
    ensures r.Success? ==> (k !in db.data && r.value.1 == -(n as int)) ||
                           (k in db.data && db.data[k].Str? && StoredInt(db.data[k].bytes) == Some(r.value.1 + n))
    ensures Valid(db) && r.Success? ==> Valid(r.value.0)
  {
    if n == LongMin then Failure(Overflow) else IncrBy(db, k, -(n as int))
  }

  // ---------------------------------------------------------------------
  // What the string commands promise

  /** SET overwrites regardless of the previous kind, clears the expiry and
      touches no other key. */
  lemma SetThenGet(db: Db, k: Bytes, v: Bytes, other: Bytes)
    requires other != k
    ensures Get(Set(db, k, v), k) == Success(Some(v))
    ensures k !in Set(db, k, v).ttl
    ensures other in Set(db, k, v).data <==> other in db.data
    ensures other in db.data ==> Set(db, k, v).data[other] == db.data[other]
    ensures other in db.ttl <==> other in Set(db, k, v).ttl
  {
  }

  /** A missing key starts from 0, and INCRBY stores the text of the value it
      replies with, which reads back as that value. */
  lemma IncrByFromMissing(db: Db, k: Bytes, n: Int64)
    requires k !in db.data
    ensures IncrBy(db, k, n).Success? && IncrBy(db, k, n).value.1 == n
    ensures Get(IncrBy(db, k, n).value.0, k) == Success(Some(IntBytes(n)))
    ensures StoredInt(IntBytes(n)) == Some(n)
  {
    StoredIntOfIntBytes(n);
  }

  /** Two increments add up, as long as nothing overflows. */
  lemma IncrByTwice(db: Db, k: Bytes, a: Int64, b: Int64)
    requires IncrBy(db, k, a).Success?
    requires LongMin <= IncrBy(db, k, a).value.1 + b <= LongMax
    ensures IncrBy(IncrBy(db, k, a).value.0, k, b).Success?
    ensures IncrBy(IncrBy(db, k, a).value.0, k, b).value.1 == IncrBy(db, k, a).value.1 + b
  {
    StoredIntOfIntBytes(IncrBy(db, k, a).value.1);
  }

  /** A key holding the text of `m`, whoever wrote it, is incremented to
      `m + n`. */
  lemma IncrByAdds(db: Db, k: Bytes, m: Int64, n: Int64)
    requires k in db.data && db.data[k] == Str(IntBytes(m))
    requires LongMin <= m + n <= LongMax
    ensures IncrBy(db, k, n) == Success((Update(db, k, Str(IntBytes(m + n))), m + n))
  {
    StoredIntOfIntBytes(m);
  }

  /** DECRBY subtracts: a key holding the text of `m` goes to `m - n`, and a
      missing key to `-n`. */
  lemma DecrBySubtracts(db: Db, k: Bytes, m: Int64, n: Int64)
    requires n != LongMin && LongMin <= m - n <= LongMax
    ensures k in db.data && db.data[k] == Str(IntBytes(m)) ==>
              DecrBy(db, k, n) == Success((Update(db, k, Str(IntBytes(m - n))), m - n))
    ensures k !in db.data ==> DecrBy(db, k, n) == Success((Update(db, k, Str(IntBytes(-(n as int)))), -(n as int)))
  {
    if k in db.data && db.data[k] == Str(IntBytes(m)) {
      DecrByStored(db, k, m, n);
    } else if k !in db.data {
      DecrByFromMissing(db, k, n);
    }
  }

  /** DECRBY on a key holding the text of `m`. */
  lemma DecrByStored(db: Db, k: Bytes, m: Int64, n: Int64)
    requires k in db.data && db.data[k] == Str(IntBytes(m))
    requires n != LongMin && LongMin <= m - n <= LongMax
    ensures DecrBy(db, k, n) == Success((Update(db, k, Str(IntBytes(m - n))), m - n))
  {
    var neg: Int64 := -(n as int);
    IncrByAdds(db, k, m, neg);
    assert DecrBy(db, k, n) == IncrBy(db, k, neg);
  }

  /** DECRBY on a missing key starts from 0. */
  lemma DecrByFromMissing(db: Db, k: Bytes, n: Int64)
    requires k !in db.data && n != LongMin
    ensures DecrBy(db, k, n) == Success((Update(db, k, Str(IntBytes(-(n as int)))), -(n as int)))
  {
    var neg: Int64 := -(n as int);
    IncrByFromMissing(db, k, neg);
    assert DecrBy(db, k, n) == IncrBy(db, k, neg);
  }

  /** SETEX and SET NX EX leave a readable value with the given delay. */
  lemma SetExThenGet(db: Db, k: Bytes, v: Bytes, seconds: int)
    requires seconds > 0
    ensures Get(SetEx(db, k, seconds, v).value, k) == Success(Some(v))
    ensures SetEx(db, k, seconds, v).value.ttl[k] == ExpireIn(seconds)
    ensures k !in db.data ==> SetNxEx(db, k, v, seconds).value.0 == SetEx(db, k, seconds, v).value
  {
  }

  /** EXPIRE with a positive delay records it on an existing key; with a
      delay of zero or less the key is gone, as after DEL. */
  lemma ExpireThenPersist(db: Db, k: Bytes, seconds: int)
    requires k in db.data
    ensures seconds > 0 ==> Persist(Expire(db, k, seconds).0, k) == (Db(db.data, db.ttl - {k}), true)
    ensures seconds <= 0 ==> Expire(db, k, seconds).0 == Del(db, [k]).0
  {
    if seconds > 0 {
      var e := Expire(db, k, seconds).0;
      assert e.ttl - {k} == db.ttl - {k};
    } else {
      assert [k][1..] == [];
      assert Del(db, [k]).0 == Del(Remove(db, k), []).0;
    }
  }

  /** Only the canonical text of an integer counts: a letter, a leading zero
      or a `+` sign is rejected. */
  lemma IncrByRejectsText(db: Db, k: Bytes, n: Int64, text: string)
    requires text == "a" || text == "007" || text == "+5"
    requires k in db.data && db.data[k] == Str(Utf8.Encode(text))
    ensures IncrBy(db, k, n) == Failure(NotInteger)
  {
    Utf8.DecodeEncode(text);
    ParseExamples();
  }

  /** A sum beyond the 64-bit range is rejected. */
  lemma IncrByRejectsOverflow(db: Db, k: Bytes, m: Int64, n: Int64)
    requires k in db.data && db.data[k] == Str(IntBytes(m))
    requires m + n > LongMax || m + n < LongMin
    ensures IncrBy(db, k, n) == Failure(Overflow)
  {
    StoredIntOfIntBytes(m);
  }

  /** When EXISTS finds every key of a repetition-free list, DEL of the same
      keys removes them all and its count equals the number of keys. */
  lemma ExistsThenDel(db: Db, keys: seq<Bytes>)
    requires Exists(db, keys) == |keys|
    requires forall i, j :: 0 <= i < j < |keys| ==> keys[i] != keys[j]
    ensures Del(db, keys).1 == |keys|
  {
    DelCount(db, keys);
    assert ExistingKeys(db, keys) == set k | k in keys;
    DistinctCardinality(keys);
  }

  lemma {:induction false} DistinctCardinality(keys: seq<Bytes>)
    requires forall i, j :: 0 <= i < j < |keys| ==> keys[i] != keys[j]
    ensures |set k | k in keys| == |keys|
  {
    if keys != [] {
      DistinctCardinality(keys[1..]);
      assert (set k | k in keys) == (set k | k in keys[1..]) + {keys[0]};
      assert keys[0] !in keys[1..];
    }
  }
}
