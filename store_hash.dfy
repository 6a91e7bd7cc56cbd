/** Hash commands: a key bound to a map from field to value. */
module StoreHash {
  import opened Wrappers
  import opened JavaLang
  import opened Store

  /** The hash at `k`; a missing key reads as the empty hash. */
  function HashAt(db: Db, k: Bytes): (r: Result<map<Bytes, Bytes>, StoreError>)
    ensures r.Failure? <==> k in db.data && !db.data[k].Hash?
    ensures r.Failure? ==> r.error == WrongType
    ensures k !in db.data ==> r == Success(map[])
  {
    if k !in db.data then Success(map[])
    else match db.data[k]
      case Hash(m) => Success(m)
      case _ => Failure(WrongType)
  }

  /** Store a hash back, deleting the key when it became empty. */
  function PutHash(db: Db, k: Bytes, m: map<Bytes, Bytes>): (r: Db)
    ensures Valid(db) ==> Valid(r)
    ensures HashAt(r, k) == Success(m)
    ensures OnlyValueOf(db, r, k)
  {
    if m == map[] then Remove(db, k) else Update(db, k, Hash(m))
  }

  /** HSET: the reply says whether the field is new. */
  function HSet(db: Db, k: Bytes, f: Bytes, v: Bytes): (r: Result<(Db, bool), StoreError>)
    ensures r.Failure? <==> HashAt(db, k).Failure?
    ensures r.Success? ==> HashAt(r.value.0, k) == Success(HashAt(db, k).value[f := v])
    ensures r.Success? ==> (r.value.1 <==> f !in HashAt(db, k).value)
    ensures r.Success? ==> OnlyValueOf(db, r.value.0, k)
    ensures Valid(db) && r.Success? ==> Valid(r.value.0)
  {
    match HashAt(db, k)
    case Failure(e) => Failure(e)
    case Success(m) => Success((PutHash(db, k, m[f := v]), f !in m))
  }

  /** HSETNX: writes only a missing field. */
  function HSetNx(db: Db, k: Bytes, f: Bytes, v: Bytes): (r: Result<(Db, bool), StoreError>)
    ensures r.Failure? <==> HashAt(db, k).Failure?
    ensures r.Success? ==> (r.value.1 <==> f !in HashAt(db, k).value)
    ensures r.Success? && !r.value.1 ==> r.value.0 == db
    ensures r.Success? && r.value.1 ==> HashAt(r.value.0, k) == Success(HashAt(db, k).value[f := v])
    ensures r.Success? ==> OnlyValueOf(db, r.value.0, k)
    ensures Valid(db) && r.Success? ==> Valid(r.value.0)
  {
    match HashAt(db, k)
    case Failure(e) => Failure(e)
    case Success(m) => if f in m then Success((db, false)) else Success((PutHash(db, k, m[f := v]), true))
  }

  /** HMSET: every given field is set, fields not given are kept; with no
      field at all the command is malformed. */
  function HMSet(db: Db, k: Bytes, fields: map<Bytes, Bytes>): (r: Result<Db, StoreError>)
    ensures fields == map[] ==> r == Failure(WrongArity)
    ensures fields != map[] ==> (r.Failure? <==> HashAt(db, k).Failure?)
    ensures r.Success? ==> HashAt(r.value, k) == Success(HashAt(db, k).value + fields)
    ensures r.Success? ==> OnlyValueOf(db, r.value, k)
    ensures Valid(db) && r.Success? ==> Valid(r.value)
  {
    if fields == map[] then Failure(WrongArity)
    else match HashAt(db, k)
      case Failure(e) => Failure(e)
      case Success(m) => Success(PutHash(db, k, m + fields))
  }

  /** HMGET: the values in the order asked, nil for a missing field. */
  function HMGet(db: Db, k: Bytes, fields: seq<Bytes>): (r: Result<seq<Option<Bytes>>, StoreError>)
    ensures r.Failure? <==> HashAt(db, k).Failure?
    ensures r.Success? ==> |r.value| == |fields|
    ensures r.Success? ==> forall i :: 0 <= i < |fields| ==>
              r.value[i] == (if fields[i] in HashAt(db, k).value then Some(HashAt(db, k).value[fields[i]]) else None)
  {
    match HashAt(db, k)
    case Failure(e) => Failure(e)
    case Success(m) =>
      Success(seq(|fields|, i requires 0 <= i < |fields| => if fields[i] in m then Some(m[fields[i]]) else None))
  }

  /** HGET: nil for a missing field or key. */
  function HGet(db: Db, k: Bytes, f: Bytes): (r: Result<Option<Bytes>, StoreError>)
    ensures r.Failure? <==> HashAt(db, k).Failure?
    ensures r.Success? ==> (r.value.Some? <==> f in HashAt(db, k).value)
    ensures r.Success? && r.value.Some? ==> r.value.value == HashAt(db, k).value[f]
  {
    match HashAt(db, k)
    case Failure(e) => Failure(e)
    case Success(m) => Success(if f in m then Some(m[f]) else None)
  }

  /** HINCRBY: a missing key is an empty hash and a missing field counts as
      0; the field must hold a 64-bit integer and the sum must stay in
      range. */
  function HIncrBy(db: Db, k: Bytes, f: Bytes, n: Int64): (r: Result<(Db, Int64), StoreError>)
    ensures HashAt(db, k).Failure? ==> r == Failure(WrongType)
    ensures r.Success? ==> HashAt(r.value.0, k) == Success(HashAt(db, k).value[f := IntBytes(r.value.1)])
    ensures r.Success? ==> var m := HashAt(db, k).value;
                           (f !in m && r.value.1 == n) || (f in m && StoredInt(m[f]) == Some(r.value.1 - n))
    ensures r.Success? ==> OnlyValueOf(db, r.value.0, k)
    ensures Valid(db) && r.Success? ==> Valid(r.value.0)
  {
    match HashAt(db, k)
    case Failure(e) => Failure(e)
    case Success(m) =>
      var current: Option<Int64> := if f in m then StoredInt(m[f]) else Some(0);
      if current.None? then Failure(NotInteger)
      else
        var sum := current.value + n;
        if sum < LongMin || sum > LongMax then Failure(Overflow)
        else Success((PutHash(db, k, m[f := IntBytes(sum)]), sum))
  }

  /** `m` without the listed fields. */
  function Without(m: map<Bytes, Bytes>, fields: seq<Bytes>): (r: map<Bytes, Bytes>)
    ensures forall f :: f in r <==> f in m && f !in fields
    ensures forall f :: f in r ==> r[f] == m[f]
  {
    map f | f in m && f !in fields :: m[f]
  }

  /** HDEL: removes the listed fields, counting those that existed; the key
      goes when its hash becomes empty. */
  function HDel(db: Db, k: Bytes, fields: seq<Bytes>): (r: Result<(Db, nat), StoreError>)
    ensures fields == [] ==> r == Failure(WrongArity)
    ensures fields != [] ==> (r.Failure? <==> HashAt(db, k).Failure?)
    ensures r.Success? ==> HashAt(r.value.0, k) == Success(Without(HashAt(db, k).value, fields))
    ensures r.Success? ==> r.value.1 == |set f | f in fields && f in HashAt(db, k).value|
    ensures r.Success? ==> OnlyValueOf(db, r.value.0, k)
    ensures Valid(db) && r.Success? ==> Valid(r.value.0)
  {
    if fields == [] then Failure(WrongArity)
    else match HashAt(db, k)
      case Failure(e) => Failure(e)
      case Success(m) => Success((PutHash(db, k, Without(m, fields)), |set f | f in fields && f in m|))
  }

  /** HEXISTS. */
  function HExists(db: Db, k: Bytes, f: Bytes): (r: Result<bool, StoreError>)
    ensures r.Failure? <==> HashAt(db, k).Failure?
    ensures r.Success? ==> (r.value <==> f in HashAt(db, k).value)
  {
    match HashAt(db, k)
    case Failure(e) => Failure(e)
    case Success(m) => Success(f in m)
  }

  /** HKEYS. */
  function HKeys(db: Db, k: Bytes): (r: Result<set<Bytes>, StoreError>)
    ensures r.Failure? <==> HashAt(db, k).Failure?
    ensures r.Success? ==> r.value == HashAt(db, k).value.Keys
  {
    match HashAt(db, k)
    case Failure(e) => Failure(e)
    case Success(m) => Success(m.Keys)
  }

  /** HLEN. */
  function HLen(db: Db, k: Bytes): (r: Result<nat, StoreError>)
    ensures r.Failure? <==> HashAt(db, k).Failure?
    ensures r.Success? ==> r.value == |HashAt(db, k).value|
  {
    match HashAt(db, k)
    case Failure(e) => Failure(e)
    case Success(m) => Success(|m|)
  }

  // ---------------------------------------------------------------------

  /** HINCRBY on a missing key creates a one-field hash holding the
      increment; on a missing field of an existing hash it adds that field. */
  lemma HIncrByStartsAtZero(db: Db, k: Bytes, f: Bytes, n: Int64)
    requires HashAt(db, k).Success? && f !in HashAt(db, k).value
    ensures HIncrBy(db, k, f, n).Success? && HIncrBy(db, k, f, n).value.1 == n
    ensures k !in db.data ==> HashAt(HIncrBy(db, k, f, n).value.0, k) == Success(map[f := IntBytes(n)])
  {
  }

  /** A field holding the text of `m`, whoever wrote it, is incremented to
      `m + n`; the other fields stay as they were. */
  lemma HIncrByAdds(db: Db, k: Bytes, f: Bytes, m: Int64, n: Int64)
    requires HashAt(db, k).Success? && f in HashAt(db, k).value && HashAt(db, k).value[f] == IntBytes(m)
    requires LongMin <= m + n <= LongMax
    ensures HIncrBy(db, k, f, n).Success? && HIncrBy(db, k, f, n).value.1 == m + n
    ensures HashAt(HIncrBy(db, k, f, n).value.0, k) == Success(HashAt(db, k).value[f := IntBytes(m + n)])
  {
    StoredIntOfIntBytes(m);
  }

  /** Successive HINCRBYs on one field add up. */
  lemma HIncrByTwice(db: Db, k: Bytes, f: Bytes, a: Int64, b: Int64)
    requires HIncrBy(db, k, f, a).Success?
    requires LongMin <= HIncrBy(db, k, f, a).value.1 + b <= LongMax
    ensures HIncrBy(HIncrBy(db, k, f, a).value.0, k, f, b).Success?
    ensures HIncrBy(HIncrBy(db, k, f, a).value.0, k, f, b).value.1 == HIncrBy(db, k, f, a).value.1 + b
  {
    StoredIntOfIntBytes(HIncrBy(db, k, f, a).value.1);
  }

  /** HMGET on a missing key behaves as on an empty hash: nil for each field. */
  lemma HMGetMissingKey(db: Db, k: Bytes, fields: seq<Bytes>)
    requires k !in db.data
    ensures HMGet(db, k, fields).Success? && |HMGet(db, k, fields).value| == |fields|
    ensures forall i :: 0 <= i < |fields| ==> HMGet(db, k, fields).value[i] == None
  {
  }

  /** Deleting every field of a hash deletes the key, and its expiry. */
  lemma HDelAll(db: Db, k: Bytes, fields: seq<Bytes>)
    requires HashAt(db, k).Success? && fields != []
    requires forall f :: f in HashAt(db, k).value ==> f in fields
    ensures HDel(db, k, fields).Success?
    ensures k !in HDel(db, k, fields).value.0.data && k !in HDel(db, k, fields).value.0.ttl
  {
    assert Without(HashAt(db, k).value, fields) == map[];
  }
}
