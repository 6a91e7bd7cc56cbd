/** What the facade's methods share: how a failing store call surfaces, the
    wire form of strings, and the compound operations that issue more than
    one command (SET followed by EXPIRE, the rolling counter) or that pass
    computed arguments on (trimming a list from the left, collecting typed
    sorted-set members). */
module FacadeSpec {
  import opened Wrappers
  import opened JavaLang
  import opened Hessian
  import Utf8
  import Store
  import StoreList
  import StoreSet
  import StoreHash
  import JedisUtils

  /** What escapes a method: the failed argument assertion, a
      NullPointerException (a method called on null), the codec's exception
      on bytes that are not a serialized value, or an exception of the store
      call, the driver's refusal to route a null key among them. */
  datatype Thrown = IllegalArgument | NullPointer | Undecodable | StoreException(error: Store.StoreError)

  /** The result of a facade method that lets exceptions through. */
  datatype Outcome<+R> = Returned(value: R) | Threw(thrown: Thrown)

  /** The bytes the driver sends for a string argument. */
  function Wire(s: string): Bytes {
    Utf8.Encode(s)
  }

  /** The string the driver makes of reply bytes. */
  function Text(b: Bytes): string {
    Utf8.Decode(b)
  }

  /** Store call number `i` of one facade invocation: the command's own
      reply, or a cluster failure when `i` is one of the calls that fail. */
  function Call<R>(r: Result<R, Store.StoreError>, faults: set<nat>, i: nat): Result<R, Store.StoreError> {
    if i in faults then Failure(Store.ClusterFailure) else r
  }

  /** The keyspace after a command that either succeeds or fails as a whole. */
  function After<R>(c: Result<(Store.Db, R), Store.StoreError>, db: Store.Db): Store.Db {
    if c.Success? then c.value.0 else db
  }

  function Applied(c: Result<Store.Db, Store.StoreError>, db: Store.Db): Store.Db {
    if c.Success? then c.value else db
  }

  /** The reply of such a command, `None` when it failed. */
  function Reply<R>(c: Result<(Store.Db, R), Store.StoreError>): Option<R> {
    if c.Success? then Some(c.value.1) else None
  }

  function Read<R>(c: Result<R, Store.StoreError>): Option<R> {
    if c.Success? then Some(c.value) else None
  }

  /** An exception the method lets through. */
  function Raise<R>(c: Result<R, Store.StoreError>): Outcome<R> {
    if c.Success? then Returned(c.value) else Threw(StoreException(c.error))
  }

  function WireAll(ss: seq<string>): (r: seq<Bytes>)
    ensures |r| == |ss| && forall i :: 0 <= i < |ss| ==> r[i] == Wire(ss[i])
  {
    seq(|ss|, i requires 0 <= i < |ss| => Wire(ss[i]))
  }

  function TextAll(bs: seq<Bytes>): (r: seq<string>)
    ensures |r| == |bs| && forall i :: 0 <= i < |bs| ==> r[i] == Text(bs[i])
  {
    seq(|bs|, i requires 0 <= i < |bs| => Text(bs[i]))
  }

  function TextOpt(b: Option<Bytes>): Option<string> {
    if b.Some? then Some(Text(b.value)) else None
  }

  function TextSet(bs: set<Bytes>): set<string> {
    set b | b in bs :: Text(b)
  }

  /** The field map a `Map<String, String>` becomes on the wire; distinct
      strings never share an encoding, so no field is lost. */
  function WireMap(m: map<string, string>): (r: map<Bytes, Bytes>)
    ensures |r| == |m| && r.Keys == set f | f in m :: Wire(f)
    ensures forall f :: f in m ==> r[Wire(f)] == Wire(m[f])
  {
    WireInjective();
    var r := map f | f in m :: Wire(f) := Wire(m[f]);
    MapSize(m, r);
    r
  }

  /** Distinct strings have distinct encodings. */
  lemma WireInjective()
    ensures forall a, b :: Wire(a) == Wire(b) ==> a == b
  {
    forall a, b | Wire(a) == Wire(b) ensures a == b {
      Utf8.EncodeInjective(a, b);
    }
  }

  lemma MapSize(m: map<string, string>, r: map<Bytes, Bytes>)
    requires forall a, b :: Wire(a) == Wire(b) ==> a == b
    requires r.Keys == set f | f in m :: Wire(f)
    ensures |r| == |m|
  {
    var ks := m.Keys;
    var ws := set f | f in ks :: Wire(f);
    assert |ws| == |ks| by { ImageSize(ks); }
    assert r.Keys == ws;
  }

  lemma {:induction false} ImageSize(ks: set<string>)
    requires forall a, b :: Wire(a) == Wire(b) ==> a == b
    ensures |set f | f in ks :: Wire(f)| == |ks|
    decreases |ks|
  {
    if ks != {} {
      var x :| x in ks;
      var rest := ks - {x};
      ImageSize(rest);
      var image := set f | f in rest :: Wire(f);
      assert Wire(x) !in image;
      assert (set f | f in ks :: Wire(f)) == image + {Wire(x)};
    }
  }

  /** Distinct strings make distinct wire keys and back. */
  lemma WireAllDistinct(ss: seq<string>)
    ensures (forall i, j :: 0 <= i < j < |ss| ==> ss[i] != ss[j]) <==>
            (forall i, j :: 0 <= i < j < |ss| ==> WireAll(ss)[i] != WireAll(ss)[j])
  {
    var ws := WireAll(ss);
    if forall i, j :: 0 <= i < j < |ss| ==> ss[i] != ss[j] {
      forall i, j | 0 <= i < j < |ss| ensures ws[i] != ws[j] {
        if ws[i] == ws[j] {
          Utf8.EncodeInjective(ss[i], ss[j]);
        }
      }
    }
  }

  // ---------------------------------------------------------------------
  // Reading and deleting keys

  /** `get(key)`: null for a blank key, a missing key, a key that holds
      another kind of value and a failed call. */
  function GetText(db: Store.Db, key: JString, faults: set<nat>): (r: JString)
    ensures IsBlank(key) || 0 in faults ==> r.None?
    ensures !IsBlank(key) && 0 !in faults ==>
              var k := Wire(key.value);
              (r.Some? <==> k in db.data && db.data[k].Str?) &&
              (r.Some? ==> r.value == Text(db.data[k].bytes))
  {
    if IsBlank(key) then None
    else
      var c := Call(Store.Get(db, Wire(key.value)), faults, 0);
      if c.Success? && c.value.Some? then Some(Text(c.value.value)) else None
  }

  /** What `set(key, value)` wrote, `get(key)` reads back. */
  lemma GetTextAfterSet(db: Store.Db, key: string, value: string)
    requires !IsBlank(Some(key))
    ensures GetText(Store.Set(db, Wire(key), Wire(value)), Some(key), {}) == Some(value)
  {
    Utf8.DecodeEncode(value);
  }

  /** `del(keys...)` answers true exactly when every key existed and none was
      named twice, since DEL counts each removed key once. */
  lemma DelAnswersTrue(db: Store.Db, keys: seq<string>)
    ensures Store.Del(db, WireAll(keys)).1 == |keys| <==>
              (forall k :: k in keys ==> Wire(k) in db.data) &&
              (forall i, j :: 0 <= i < j < |keys| ==> keys[i] != keys[j])
  {
    var ks := WireAll(keys);
    Store.DelCount(db, ks);
    WireAllDistinct(keys);
    DelCountsAll(db, ks);
    assert (forall k :: k in keys ==> Wire(k) in db.data) <==> (forall k :: k in ks ==> k in db.data) by {
      forall k | k in keys ensures Wire(k) in ks {
        var i :| 0 <= i < |keys| && keys[i] == k;
        assert ks[i] == Wire(k);
      }
    }
  }

  /** The keys found are as many as the keys named exactly when all exist
      and none repeats. */
  lemma DelCountsAll(db: Store.Db, ks: seq<Bytes>)
    ensures |Store.ExistingKeys(db, ks)| == |ks| <==>
              (forall k :: k in ks ==> k in db.data) && (forall i, j :: 0 <= i < j < |ks| ==> ks[i] != ks[j])
  {
    var existing := Store.ExistingKeys(db, ks);
    var named := StoreSet.Elements(ks);
    assert existing <= named;
    StoreSet.SubsetNoLarger(existing, named);
    StoreSet.ElementsSize(ks);
    if (forall k :: k in ks ==> k in db.data) && (forall i, j :: 0 <= i < j < |ks| ==> ks[i] != ks[j]) {
      assert existing == named;
      StoreSet.DistinctElements(ks);
    }
    if |existing| == |ks| {
      if i, j :| 0 <= i < j < |ks| && ks[i] == ks[j] {
        StoreSet.RepeatedElements(ks, i, j);
      }
      if existing < named {
        StoreSet.SubsetSmaller(existing, named);
      }
      assert existing == named;
      forall k | k in ks ensures k in db.data {
        assert k in named;
      }
    }
  }

  // ---------------------------------------------------------------------
  // SET followed by EXPIRE

  /** A write (call 0) followed by EXPIRE (call 1) when the write answered
      OK and the delay is positive.  The flag is the status check, replaced
      by EXPIRE's reply when EXPIRE ran; `None` is an exception of either
      call. */
  function ThenExpire(db: Store.Db, written: Result<Store.Db, Store.StoreError>, k: Bytes, seconds: Int32, faults: set<nat>): (Store.Db, Option<bool>) {
    if written.Failure? then (db, None)
    else
      var ok := JedisUtils.IsStatusOk(Some(JedisUtils.OkCode));
      if ok && seconds > 0 then
        if 1 in faults then (written.value, None)
        else
          var e := Store.Expire(written.value, k, seconds);
          (e.0, Some(e.1))
      else (written.value, Some(ok))
  }

  /** SET followed by EXPIRE. */
  function SetWithExpiry(db: Store.Db, k: Bytes, v: Bytes, seconds: Int32, faults: set<nat>): (Store.Db, Option<bool>) {
    ThenExpire(db, Call(Success(Store.Set(db, k, v)), faults, 0), k, seconds, faults)
  }

  /** HMSET followed by EXPIRE. */
  function HMSetWithExpiry(db: Store.Db, k: Bytes, fields: map<Bytes, Bytes>, seconds: Int32, faults: set<nat>): (Store.Db, Option<bool>) {
    ThenExpire(db, Call(StoreHash.HMSet(db, k, fields), faults, 0), k, seconds, faults)
  }

  /** Without failures, HMSET of a non-empty map on a hash or a missing key
      merges the fields, the key carries the delay exactly when it is
      positive, and the flag is true. */
  lemma HMSetWithExpiryStores(db: Store.Db, k: Bytes, fields: map<Bytes, Bytes>, seconds: Int32)
    requires fields != map[] && StoreHash.HashAt(db, k).Success?
    ensures var r := HMSetWithExpiry(db, k, fields, seconds, {});
            r.1 == Some(true) &&
            StoreHash.HashAt(r.0, k) == Success(StoreHash.HashAt(db, k).value + fields) &&
            (seconds > 0 ==> k in r.0.ttl && r.0.ttl[k] == Store.ExpireIn(seconds)) &&
            (seconds <= 0 ==> (k in r.0.ttl <==> k in db.ttl))
  {
    JedisUtils.StatusOkIsLiteral();
    var m := StoreHash.HashAt(db, k).value;
    assert (m + fields).Keys != {} by {
      var f :| f in fields;
      assert f in m + fields;
    }
  }

  /** Without failures the value is stored, the key carries the delay
      exactly when it is positive, the flag is true and no other key
      changes. */
  lemma SetWithExpiryStores(db: Store.Db, k: Bytes, v: Bytes, seconds: Int32, o: Bytes)
    requires o != k
    ensures var r := SetWithExpiry(db, k, v, seconds, {});
            r.1 == Some(true) &&
            Store.Get(r.0, k) == Success(Some(v)) &&
            (k in r.0.ttl <==> seconds > 0) &&
            (seconds > 0 ==> r.0.ttl[k] == Store.ExpireIn(seconds)) &&
            (o in r.0.data <==> o in db.data) && (o in db.data ==> r.0.data[o] == db.data[o]) &&
            (o in r.0.ttl <==> o in db.ttl) && (o in db.ttl ==> r.0.ttl[o] == db.ttl[o])
  {
    JedisUtils.StatusOkIsLiteral();
  }

  /** When SET fails nothing changes; when only EXPIRE fails the value is
      stored with no expiry at all, since SET cleared the old one. */
  lemma SetWithExpiryPartial(db: Store.Db, k: Bytes, v: Bytes, seconds: Int32, faults: set<nat>)
    ensures 0 in faults ==> SetWithExpiry(db, k, v, seconds, faults) == (db, None)
    ensures 0 !in faults && 1 in faults && seconds > 0 ==>
              var r := SetWithExpiry(db, k, v, seconds, faults);
              r.1 == None && Store.Get(r.0, k) == Success(Some(v)) && k !in r.0.ttl
  {
    JedisUtils.StatusOkIsLiteral();
  }

  // ---------------------------------------------------------------------
  // The rolling counter

  /** `(long) (Math.pow(10, length) - 1)` in double arithmetic: exact up to
      15 digits; from 16 to 18 digits the subtraction is lost to rounding;
      from 19 digits the conversion saturates; below one digit the power is
      a fraction and the difference truncates to 0, or rounds to -1 once the
      fraction is below half the spacing of doubles under 1. */
  function MaxNum(length: int): int {
    if length <= -17 then -1
    else if length <= 0 then 0
    else if length <= 15 then Pow10(length) - 1
    else if length <= 18 then Pow10(length)
    else LongMax
  }

  /** `incrByleng`: INCR, then DEL once the counter reached `MaxNum`, then
      the value zero-padded to `length` digits.  A non-positive length makes
      the format string invalid, so the reply is null after the store calls
      have been made. */
  function RollingCounter(db: Store.Db, k: Bytes, length: Int32, faults: set<nat>): (Store.Db, Option<string>) {
    var c := Call(Store.IncrBy(db, k, 1), faults, 0);
    if c.Failure? then (db, None)
    else
      var counted := c.value.0;
      var l := c.value.1;
      if l >= MaxNum(length) && 1 in faults then (counted, None)
      else
        var next := if l >= MaxNum(length) then Store.Del(counted, [k]).0 else counted;
        (next, if length <= 0 then None else Some(ZeroPad(l, length)))
  }

  /** The counter a key holds: 0 when missing. */
  predicate HoldsCounter(db: Store.Db, k: Bytes, n: int) {
    if n == 0 then k !in db.data || db.data[k] == Store.Str(Store.IntBytes(0))
    else k in db.data && db.data[k] == Store.Str(Store.IntBytes(n))
  }

  lemma IncrementCounter(db: Store.Db, k: Bytes, n: Int64)
    requires HoldsCounter(db, k, n) && n < LongMax
    ensures Store.IncrBy(db, k, 1).Success? && Store.IncrBy(db, k, 1).value.1 == n + 1
  {
    if k in db.data {
      Store.StoredIntOfIntBytes(n);
    }
  }

  /** Below the maximum, each call answers the next value in exactly
      `length` digits. */
  lemma RollingCounterDigits(db: Store.Db, k: Bytes, length: Int32, n: Int64)
    requires 1 <= length <= 15 && 0 <= n < MaxNum(length)
    requires HoldsCounter(db, k, n)
    ensures var r := RollingCounter(db, k, length, {}).1;
            r.Some? && |r.value| == length as int && AllDigits(r.value) && DigitsValue(r.value) == n + 1
  {
    assert MaxNum(length) < LongMax by { Pow10Small(length as nat); }
    IncrementCounter(db, k, n);
    RollingCounterReply(db, k, length, Store.IncrBy(db, k, 1).value.0, n + 1);
    ZeroPadFixedWidth(n + 1, length as nat);
  }

  /** Below the maximum the key keeps the new value. */
  lemma RollingCounterKeeps(db: Store.Db, k: Bytes, length: Int32, n: Int64)
    requires 1 <= length <= 15 && 0 <= n && n + 1 < MaxNum(length)
    requires HoldsCounter(db, k, n)
    ensures HoldsCounter(RollingCounter(db, k, length, {}).0, k, n + 1)
  {
    assert MaxNum(length) < LongMax by { Pow10Small(length as nat); }
    IncrementCounter(db, k, n);
    var counted := Store.IncrBy(db, k, 1).value.0;
    assert counted == Store.Update(db, k, Store.Str(Store.IntBytes(n + 1)));
    RollingCounterReply(db, k, length, counted, n + 1);
  }

  /** The call that reaches the maximum deletes the key. */
  lemma RollingCounterResets(db: Store.Db, k: Bytes, length: Int32, n: Int64)
    requires 1 <= length <= 15 && 0 <= n && n + 1 == MaxNum(length)
    requires HoldsCounter(db, k, n)
    ensures k !in RollingCounter(db, k, length, {}).0.data
  {
    assert MaxNum(length) < LongMax by { Pow10Small(length as nat); }
    IncrementCounter(db, k, n);
    var counted := Store.IncrBy(db, k, 1).value.0;
    RollingCounterReply(db, k, length, counted, n + 1);
    DelOne(counted, k);
  }

  lemma DelOne(db: Store.Db, k: Bytes)
    ensures k !in Store.Del(db, [k]).0.data
  {
    assert k in [k];
  }

  /** The replies and keyspace of a call whose INCR answered `l`. */
  lemma RollingCounterReply(db: Store.Db, k: Bytes, length: Int32, counted: Store.Db, l: Int64)
    requires length >= 1
    requires Store.IncrBy(db, k, 1) == Success((counted, l))
    ensures RollingCounter(db, k, length, {}) ==
              (if l >= MaxNum(length) then Store.Del(counted, [k]).0 else counted, Some(ZeroPad(l, length as nat)))
  {
  }

  lemma Pow10Small(k: nat)
    requires k <= 15
    ensures Pow10(k) <= 1_000_000_000_000_000
  {
    Pow10Monotone(k, 15);
    assert Pow10(15) == 1_000_000_000_000_000;
  }

  /** After the maximum the counter starts over: the next reply is 1. */
  lemma RollingCounterWraps(db: Store.Db, k: Bytes, length: Int32)
    requires 1 <= length <= 15
    requires k !in db.data
    ensures RollingCounter(db, k, length, {}).1 == Some(ZeroPad(1, length as nat))
  {
    Pow10Monotone(1, length as nat);
  }

  lemma {:induction false} Pow10Monotone(a: nat, b: nat)
    requires a <= b
    ensures Pow10(a) <= Pow10(b)
    decreases b
  {
    if a < b {
      Pow10Monotone(a, b - 1);
    }
  }

  // ---------------------------------------------------------------------
  // Trimming a list from the left

  /** `size - 1` in 32-bit arithmetic. */
  function TrimEnd(size: Int32): Int32 {
    if size == IntMin then IntMax else size - 1
  }

  /** What `ltrimFromLeft(key, size)` leaves of a list: LTRIM 0 .. size-1. */
  function TrimFromLeft(l: seq<Bytes>, size: Int32): seq<Bytes> {
    StoreList.Slice(l, 0, TrimEnd(size))
  }

  /** A positive size keeps the first `size` elements, or all of a shorter
      list. */
  lemma TrimFromLeftPositive(l: seq<Bytes>, size: Int32)
    requires size >= 1
    ensures TrimFromLeft(l, size) == l[..if size < |l| then size as int else |l|]
  {
    StoreList.RangePrefix(|l|, size);
  }

  /** As written, a size of 0 keeps the whole list: LTRIM 0 -1 selects
      everything. */
  lemma TrimFromLeftZeroKeepsAll(l: seq<Bytes>)
    ensures TrimFromLeft(l, 0) == l
    ensures l != [] ==> TrimFromLeft(l, 0) != KeepFirst(l, 0)
  {
    StoreList.RangeAll(|l|);
  }

  /** The evidently intended trim: the first `size` elements, none when the
      size is not positive. */
  function KeepFirst(l: seq<Bytes>, size: int): (r: seq<Bytes>)
    ensures |r| == if size <= 0 then 0 else if size < |l| then size else |l|
    ensures r == l[..|r|]
  {
    if size <= 0 then [] else if size < |l| then l[..size] else l
  }

  /** The intended trim agrees with the written one wherever the size is
      positive, and keeps at most `size` elements everywhere. */
  lemma KeepFirstAgrees(l: seq<Bytes>, size: Int32)
    ensures size >= 1 ==> KeepFirst(l, size) == TrimFromLeft(l, size)
    ensures |KeepFirst(l, size)| <= if size < 0 then 0 else size as int
  {
    if size >= 1 {
      TrimFromLeftPositive(l, size);
    }
  }

  // ---------------------------------------------------------------------
  // Reading integers

  /** `getAsInt(key, default)` on the text that `get` returned: the default
      for a blank or null text and for one `Integer.valueOf` rejects. */
  function IntOrDefault(text: JString, default: Option<Int32>): (r: Option<Int32>)
    ensures !IsBlank(text) && ParseInt(text.value).Some? ==> r == ParseInt(text.value)
    ensures IsBlank(text) || ParseInt(text.value).None? ==> r == default
  {
    if IsBlank(text) then default
    else match ParseInt(text.value)
      case None => default
      case Some(n) => Some(n)
  }

  /** Every 32-bit value written as text reads back, whatever the default. */
  lemma IntOrDefaultShow(n: Int32, default: Option<Int32>)
    ensures IntOrDefault(Some(Show(n)), default) == Some(n)
  {
    ParseIntShow(n);
  }

  // ---------------------------------------------------------------------
  // Typed sorted-set members

  /** The members that deserialize to something other than null, in order;
      `None` when one of them does not deserialize. */
  function Decoded<T>(c: Codec<T>, ms: seq<Bytes>): (r: Option<seq<JValue<T>>>)
    ensures r.Some? ==> |r.value| <= |ms| && forall v :: v in r.value ==> !v.JNull?
  {
    if ms == [] then Some([])
    else match Decoded(c, ms[..|ms| - 1])
      case None => None
      case Some(vs) =>
        match c.deserialize(ms[|ms| - 1])
        case None => None
        case Some(v) => if v.JNull? then Some(vs) else Some(vs + [v])
  }

  /** `vals` are the values of `h` listed once per field, in the order of
      the fields `fs`. */
  ghost predicate ValuesInFieldOrder(h: map<Bytes, Bytes>, fs: seq<Bytes>, vals: seq<string>) {
    |fs| == |vals| &&
    (forall f :: f in fs <==> f in h) &&
    (forall i, j :: 0 <= i < j < |fs| ==> fs[i] != fs[j]) &&
    (forall i :: 0 <= i < |fs| ==> fs[i] in h && vals[i] == Text(h[fs[i]]))
  }

  /** One more member: `Decoded` of a longer prefix, from the shorter one. */
  lemma DecodedStep<T>(c: Codec<T>, ms: seq<Bytes>, i: nat)
    requires i < |ms|
    ensures Decoded(c, ms[..i + 1]) ==
              if Decoded(c, ms[..i]).None? || c.deserialize(ms[i]).None? then None
              else if c.deserialize(ms[i]).value.JNull? then Decoded(c, ms[..i])
              else Some(Decoded(c, ms[..i]).value + [c.deserialize(ms[i]).value])
  {
    assert ms[..i + 1][..i] == ms[..i];
  }

  /** A member that does not decode spoils every longer prefix. */
  lemma {:induction false} DecodedNoneStays<T>(c: Codec<T>, ms: seq<Bytes>, i: nat)
    requires i <= |ms| && Decoded(c, ms[..i]).None?
    ensures Decoded(c, ms).None?
    decreases |ms| - i
  {
    if i < |ms| {
      DecodedStep(c, ms, i);
      DecodedNoneStays(c, ms, i + 1);
    } else {
      assert ms[..i] == ms;
    }
  }

  lemma LinkedSetStep<X(!new)>(xs: seq<X>, x: X)
    ensures LinkedSet(xs + [x]) == if x in LinkedSet(xs) then LinkedSet(xs) else LinkedSet(xs) + [x]
  {
    assert (xs + [x])[..|xs|] == xs;
  }

  function NonNull<T>(vs: seq<JValue<T>>): seq<JValue<T>> {
    if vs == [] then []
    else
      var p := NonNull(vs[..|vs| - 1]);
      if vs[|vs| - 1].JNull? then p else p + [vs[|vs| - 1]]
  }

  function Serialized<T>(c: Codec<T>, vs: seq<JValue<T>>): (r: seq<Bytes>)
    ensures |r| == |vs| && forall i :: 0 <= i < |vs| ==> r[i] == c.serialize(vs[i])
  {
    seq(|vs|, i requires 0 <= i < |vs| => c.serialize(vs[i]))
  }

  /** With a lawful codec, members written by the typed ZADD come back as
      the values written, nulls left out. */
  lemma {:induction false} DecodedSerialized<T(!new)>(c: Codec<T>, vs: seq<JValue<T>>)
    requires Lawful(c)
    ensures Decoded(c, Serialized(c, vs)) == Some(NonNull(vs))
  {
    if vs != [] {
      var init := vs[..|vs| - 1];
      DecodedSerialized(c, init);
      assert Serialized(c, vs)[..|vs| - 1] == Serialized(c, init);
    }
  }
}
