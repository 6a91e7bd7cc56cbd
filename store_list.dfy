/** List commands: a key bound to a non-empty sequence, head first. */
module StoreList {
  import opened Wrappers
  import opened JavaLang
  import opened Store

  /** The list at `k`; a missing key reads as the empty list. */
  function ListAt(db: Db, k: Bytes): (r: Result<seq<Bytes>, StoreError>)
    ensures r.Failure? <==> k in db.data && !db.data[k].List?
    ensures r.Failure? ==> r.error == WrongType
    ensures k !in db.data ==> r == Success([])
  {
    if k !in db.data then Success([])
    else match db.data[k]
      case List(l) => Success(l)
      case _ => Failure(WrongType)
  }

  /** Store a list back, deleting the key when it became empty. */
  function PutList(db: Db, k: Bytes, l: seq<Bytes>): (r: Db)
    ensures Valid(db) ==> Valid(r)
    ensures ListAt(r, k) == Success(l)
    ensures l == [] ==> k !in r.data && k !in r.ttl
    ensures OnlyValueOf(db, r, k)
  {
    if l == [] then Remove(db, k) else Update(db, k, List(l))
  }

  /** Store two lists under two distinct keys, in that order. */
  function PutTwo(db: Db, a: Bytes, la: seq<Bytes>, b: Bytes, lb: seq<Bytes>): (r: Db)
    requires a != b
    ensures Valid(db) ==> Valid(r)
    ensures ListAt(r, a) == Success(la) && ListAt(r, b) == Success(lb)
    ensures OthersKept(db, r, {a, b}) && ExpiryKept(db, r, a) && ExpiryKept(db, r, b)
  {
    PutList(PutList(db, a, la), b, lb)
  }

  function Reverse<X>(s: seq<X>): (r: seq<X>)
    ensures |r| == |s|
    ensures forall i :: 0 <= i < |s| ==> r[i] == s[|s| - 1 - i]
  {
    if s == [] then [] else Reverse(s[1..]) + [s[0]]
  }

  /** LPUSH: each value in turn becomes the new head; the reply is the new
      length. */
  function LPush(db: Db, k: Bytes, values: seq<Bytes>): (r: Result<(Db, nat), StoreError>)
    ensures values == [] ==> r == Failure(WrongArity)
    ensures values != [] ==> (r.Failure? <==> ListAt(db, k).Failure?)
    ensures r.Success? ==> ListAt(r.value.0, k) == Success(Reverse(values) + ListAt(db, k).value)
    ensures r.Success? ==> r.value.1 == |values| + |ListAt(db, k).value|
    ensures r.Success? ==> OnlyValueOf(db, r.value.0, k)
    ensures Valid(db) && r.Success? ==> Valid(r.value.0)
  {
    if values == [] then Failure(WrongArity)
    else match ListAt(db, k)
      case Failure(e) => Failure(e)
      case Success(l) => Success((PutList(db, k, Reverse(values) + l), |values| + |l|))
  }

  /** RPUSH: the values are appended in order. */
  function RPush(db: Db, k: Bytes, values: seq<Bytes>): (r: Result<(Db, nat), StoreError>)
    ensures values == [] ==> r == Failure(WrongArity)
    ensures values != [] ==> (r.Failure? <==> ListAt(db, k).Failure?)
    ensures r.Success? ==> ListAt(r.value.0, k) == Success(ListAt(db, k).value + values)
    ensures r.Success? ==> r.value.1 == |values| + |ListAt(db, k).value|
    ensures r.Success? ==> OnlyValueOf(db, r.value.0, k)
    ensures Valid(db) && r.Success? ==> Valid(r.value.0)
  {
    if values == [] then Failure(WrongArity)
    else match ListAt(db, k)
      case Failure(e) => Failure(e)
      case Success(l) => Success((PutList(db, k, l + values), |values| + |l|))
  }

  /** LPOP: removes and replies with the head; nil for a missing key. */
  function LPop(db: Db, k: Bytes): (r: Result<(Db, Option<Bytes>), StoreError>)
    ensures r.Failure? <==> ListAt(db, k).Failure?
    ensures r.Success? && ListAt(db, k).value == [] ==> r.value == (db, None)
    ensures r.Success? && ListAt(db, k).value != [] ==>
              r.value.1 == Some(ListAt(db, k).value[0]) && ListAt(r.value.0, k) == Success(ListAt(db, k).value[1..])
    ensures r.Success? ==> OnlyValueOf(db, r.value.0, k)
    ensures Valid(db) && r.Success? ==> Valid(r.value.0)
  {
    match ListAt(db, k)
    case Failure(e) => Failure(e)
    case Success(l) => if l == [] then Success((db, None)) else Success((PutList(db, k, l[1..]), Some(l[0])))
  }

  /** RPOP: removes and replies with the tail. */
  function RPop(db: Db, k: Bytes): (r: Result<(Db, Option<Bytes>), StoreError>)
    ensures r.Failure? <==> ListAt(db, k).Failure?
    ensures r.Success? && ListAt(db, k).value == [] ==> r.value == (db, None)
    ensures r.Success? && ListAt(db, k).value != [] ==>
              var l := ListAt(db, k).value;
              r.value.1 == Some(l[|l| - 1]) && ListAt(r.value.0, k) == Success(l[..|l| - 1])
    ensures r.Success? ==> OnlyValueOf(db, r.value.0, k)
    ensures Valid(db) && r.Success? ==> Valid(r.value.0)
  {
    match ListAt(db, k)
    case Failure(e) => Failure(e)
    case Success(l) =>
      if l == [] then Success((db, None)) else Success((PutList(db, k, l[..|l| - 1]), Some(l[|l| - 1])))
  }

  /** RPOPLPUSH: pops the tail of `src` and pushes it onto the head of `dst`
      in one step.  A missing source replies nil and changes nothing; the
      destination's kind is checked before anything moves.  The push comes
      before the emptied source is deleted, so with one key the list only
      rotates and keeps its expiry. */
  function RPopLPush(db: Db, src: Bytes, dst: Bytes): (r: Result<(Db, Option<Bytes>), StoreError>)
    ensures ListAt(db, src).Failure? ==> r == Failure(WrongType)
    ensures ListAt(db, src).Success? && ListAt(db, src).value == [] ==> r == Success((db, None))
    ensures ListAt(db, src).Success? && ListAt(db, src).value != [] ==> (r.Failure? <==> ListAt(db, dst).Failure?)
    ensures src != dst && r.Success? && ListAt(db, src).value != [] ==>
              var l := ListAt(db, src).value;
              r.value.1 == Some(l[|l| - 1]) &&
              ListAt(r.value.0, src) == Success(l[..|l| - 1]) &&
              ListAt(r.value.0, dst) == Success([l[|l| - 1]] + ListAt(db, dst).value)
    ensures r.Success? ==> OthersKept(db, r.value.0, {src, dst}) && ExpiryKept(db, r.value.0, src) && ExpiryKept(db, r.value.0, dst)
    ensures Valid(db) && r.Success? ==> Valid(r.value.0)
  {
    match ListAt(db, src)
    case Failure(e) => Failure(e)
    case Success(l) =>
      if l == [] then Success((db, None))
      else match ListAt(db, dst)
        case Failure(e) => Failure(e)
        case Success(_) =>
          var v := l[|l| - 1];
          if src == dst then Success((PutList(db, src, [v] + l[..|l| - 1]), Some(v)))
          else Success((PutTwo(db, src, l[..|l| - 1], dst, [v] + ListAt(db, dst).value), Some(v)))
  }

  /** BRPOP on one key: the timeout is checked first; a non-empty list is
      popped at once.  On an empty list the server would wait, which the
      model leaves out: it replies nil as when the wait times out. */
  function BRPop(db: Db, k: Bytes, timeout: int): (r: Result<(Db, Option<Bytes>), StoreError>)
    ensures timeout < 0 ==> r == Failure(NegativeTimeout)
    ensures timeout >= 0 ==> r == RPop(db, k)
  {
    if timeout < 0 then Failure(NegativeTimeout) else RPop(db, k)
  }

  /** BRPOPLPUSH: the same timeout check in front of RPOPLPUSH. */
  function BRPopLPush(db: Db, src: Bytes, dst: Bytes, timeout: int): (r: Result<(Db, Option<Bytes>), StoreError>)
    ensures timeout < 0 ==> r == Failure(NegativeTimeout)
    ensures timeout >= 0 ==> r == RPopLPush(db, src, dst)
  {
    if timeout < 0 then Failure(NegativeTimeout) else RPopLPush(db, src, dst)
  }

  /** LLEN. */
  function LLen(db: Db, k: Bytes): (r: Result<nat, StoreError>)
    ensures r.Failure? <==> ListAt(db, k).Failure?
    ensures r.Success? ==> r.value == |ListAt(db, k).value|
  {
    match ListAt(db, k)
    case Failure(e) => Failure(e)
    case Success(l) => Success(|l|)
  }

  /** A list index, a negative one counting from the tail, resolved against
      length `len`; `None` when it falls outside. */
  function ResolveIndex(len: nat, index: int): (r: Option<nat>)
    ensures r.Some? ==> r.value < len
    ensures r.Some? ==> r.value == (if index < 0 then len + index else index)
    ensures r.None? <==> !(-(len as int) <= index < len)
  {
    var i := if index < 0 then len + index else index;
    if 0 <= i < len then Some(i) else None
  }

  /** LINDEX: nil for an index outside the list. */
  function LIndex(db: Db, k: Bytes, index: int): (r: Result<Option<Bytes>, StoreError>)
    ensures r.Failure? <==> ListAt(db, k).Failure?
    ensures r.Success? ==> (r.value.Some? <==> -|ListAt(db, k).value| <= index < |ListAt(db, k).value|)
    ensures r.Success? && r.value.Some? ==>
              var l := ListAt(db, k).value;
              r.value.value == l[if index < 0 then |l| + index else index]
  {
    match ListAt(db, k)
    case Failure(e) => Failure(e)
    case Success(l) =>
      match ResolveIndex(|l|, index)
      case None => Success(None)
      case Some(i) => Success(Some(l[i]))
  }

  /** LSET: an index outside the list and a missing key are errors. */
  function LSet(db: Db, k: Bytes, index: int, v: Bytes): (r: Result<Db, StoreError>)
    ensures k !in db.data ==> r == Failure(NoSuchKey)
    ensures k in db.data && !db.data[k].List? ==> r == Failure(WrongType)
    ensures k in db.data && ListAt(db, k).Success? ==>
              (r.Success? <==> ResolveIndex(|ListAt(db, k).value|, index).Some?) &&
              (r.Failure? ==> r.error == IndexOutOfRange)
    ensures r.Success? ==> ListAt(db, k).Success? && ResolveIndex(|ListAt(db, k).value|, index).Some?
    ensures r.Success? ==>
              ListAt(r.value, k) == Success(ListAt(db, k).value[ResolveIndex(|ListAt(db, k).value|, index).value := v])
    ensures r.Success? ==> OnlyValueOf(db, r.value, k)
    ensures Valid(db) && r.Success? ==> Valid(r.value)
  {
    if k !in db.data then Failure(NoSuchKey)
    else match ListAt(db, k)
      case Failure(e) => Failure(e)
      case Success(l) =>
        match ResolveIndex(|l|, index)
        case None => Failure(IndexOutOfRange)
        case Some(i) => Success(PutList(db, k, l[i := v]))
  }

  /** The slice `[lo, hi)` that a `start`/`stop` pair selects from a sequence
      of length `len` (LRANGE, LTRIM, ZRANGE and ZREMRANGEBYRANK share it):
      negative indices count from the end, a start before the beginning is
      clamped, a stop past the end is clamped, and a start past the stop or
      the end selects nothing. */
  function RangeBounds(len: nat, start: int, stop: int): (r: (nat, nat))
    ensures r.0 <= r.1 <= len
    ensures forall i :: 0 <= i < len ==>
              (r.0 <= i < r.1 <==> Selects(len, start, stop, i))
  {
    var s := if start < 0 then len + start else start;
    var e := if stop < 0 then len + stop else stop;
    var s' := if s < 0 then 0 else s;
    if s' > e || s' >= len then (0, 0)
    else (s', if e >= len then len else e + 1)
  }

  /** A range end, a negative one counting from the tail; unlike an index
      it may fall outside the sequence. */
  function ResolveEnd(len: nat, index: int): int {
    if index < 0 then len + index else index
  }

  /** Position `i` lies between the resolved start and stop, both included. */
  predicate Selects(len: nat, start: int, stop: int, i: int) {
    ResolveEnd(len, start) <= i <= ResolveEnd(len, stop)
  }

  /** The whole range `0 .. -1` selects everything. */
  lemma RangeAll(len: nat)
    ensures RangeBounds(len, 0, -1) == (0, len)
  {
  }

  /** `0 .. n-1` with `n >= 1` selects the first `n` elements, or all when
      there are fewer. */
  lemma RangePrefix(len: nat, n: int)
    requires n >= 1
    ensures len > 0 ==> RangeBounds(len, 0, n - 1) == (0, if n < len then n else len)
  {
  }

  function Slice(l: seq<Bytes>, start: int, stop: int): seq<Bytes> {
    var b := RangeBounds(|l|, start, stop);
    l[b.0..b.1]
  }

  /** LRANGE. */
  function LRange(db: Db, k: Bytes, start: int, stop: int): (r: Result<seq<Bytes>, StoreError>)
    ensures r.Failure? <==> ListAt(db, k).Failure?
    ensures r.Success? ==> r.value == Slice(ListAt(db, k).value, start, stop)
  {
    match ListAt(db, k)
    case Failure(e) => Failure(e)
    case Success(l) => Success(Slice(l, start, stop))
  }

  /** LTRIM: keeps only the selected slice; an empty slice deletes the key. */
  function LTrim(db: Db, k: Bytes, start: int, stop: int): (r: Result<Db, StoreError>)
    ensures r.Failure? <==> ListAt(db, k).Failure?
    ensures r.Success? ==> ListAt(r.value, k) == Success(Slice(ListAt(db, k).value, start, stop))
    ensures r.Success? ==> OnlyValueOf(db, r.value, k)
    ensures Valid(db) && r.Success? ==> Valid(r.value)
  {
    match ListAt(db, k)
    case Failure(e) => Failure(e)
    case Success(l) => if l == [] then Success(db) else Success(PutList(db, k, Slice(l, start, stop)))
  }

  /** `l` without its first `n` occurrences of `v`. */
  function RemoveFirst(l: seq<Bytes>, v: Bytes, n: nat): (r: seq<Bytes>)
    ensures |r| <= |l|
    ensures forall x :: x in r ==> x in l
    ensures forall x :: x != v ==> multiset(r)[x] == multiset(l)[x]
  {
    if l == [] then []
    else
      assert l == [l[0]] + l[1..];
      if l[0] == v && n > 0 then RemoveFirst(l[1..], v, n - 1)
      else [l[0]] + RemoveFirst(l[1..], v, n)
  }

  /** `l` without any occurrence of `v`. */
  function RemoveAll(l: seq<Bytes>, v: Bytes): (r: seq<Bytes>)
    ensures |r| <= |l| && v !in r
    ensures forall x :: x != v ==> multiset(r)[x] == multiset(l)[x]
  {
    if l == [] then []
    else
      assert l == [l[0]] + l[1..];
      if l[0] == v then RemoveAll(l[1..], v)
      else [l[0]] + RemoveAll(l[1..], v)
  }

  function Count(l: seq<Bytes>, v: Bytes): nat {
    multiset(l)[v]
  }

  /** Removing the first `n` occurrences removes `min(n, count)` elements,
      all of them `v`. */
  lemma {:induction false} RemoveFirstCount(l: seq<Bytes>, v: Bytes, n: nat)
    ensures Count(RemoveFirst(l, v, n), v) == (if n < Count(l, v) then Count(l, v) - n else 0)
    ensures |l| - |RemoveFirst(l, v, n)| == (if n < Count(l, v) then n else Count(l, v))
  {
    if l != [] {
      assert l == [l[0]] + l[1..];
      RemoveFirstCount(l[1..], v, if l[0] == v && n > 0 then n - 1 else n);
    }
  }

  lemma {:induction false} RemoveAllCount(l: seq<Bytes>, v: Bytes)
    ensures |l| - |RemoveAll(l, v)| == Count(l, v)
  {
    if l != [] {
      assert l == [l[0]] + l[1..];
      RemoveAllCount(l[1..], v);
    }
  }

  /** LREM with a count of zero or more: a positive count removes that many
      occurrences from the head, zero removes them all; the reply is the
      number removed. */
  function LRem(db: Db, k: Bytes, count: nat, v: Bytes): (r: Result<(Db, nat), StoreError>)
    ensures r.Failure? <==> ListAt(db, k).Failure?
    ensures r.Success? ==> ListAt(r.value.0, k).Success?
    ensures r.Success? ==> r.value.1 == |ListAt(db, k).value| - |ListAt(r.value.0, k).value|
    ensures r.Success? ==>
              var l := ListAt(db, k).value;
              ListAt(r.value.0, k) == Success(if count == 0 then RemoveAll(l, v) else RemoveFirst(l, v, count))
    ensures r.Success? ==> OnlyValueOf(db, r.value.0, k)
    ensures Valid(db) && r.Success? ==> Valid(r.value.0)
  {
    match ListAt(db, k)
    case Failure(e) => Failure(e)
    case Success(l) =>
      var kept := if count == 0 then RemoveAll(l, v) else RemoveFirst(l, v, count);
      Success((PutList(db, k, kept), |l| - |kept|))
  }

  /** Removing one occurrence takes out exactly the first one and keeps the
      order of the rest. */
  lemma {:induction false} RemoveFirstOne(l: seq<Bytes>, v: Bytes, i: nat)
    requires i < |l| && l[i] == v && v !in l[..i]
    ensures RemoveFirst(l, v, 1) == l[..i] + l[i + 1..]
  {
    if i > 0 {
      assert l[0] != v by { assert l[0] == l[..i][0]; }
      assert l[1..][..i - 1] == l[..i][1..];
      RemoveFirstOne(l[1..], v, i - 1);
      assert l[..i] == [l[0]] + l[1..][..i - 1];
      assert l[i + 1..] == l[1..][i..];
    } else {
      RemoveFirstNone(l[1..], v, 0);
    }
  }

  /** Without an occurrence nothing is removed. */
  lemma {:induction false} RemoveFirstNone(l: seq<Bytes>, v: Bytes, n: nat)
    requires v !in l || n == 0
    ensures RemoveFirst(l, v, n) == l
  {
    if l != [] {
      RemoveFirstNone(l[1..], v, n);
      assert l == [l[0]] + l[1..];
    }
  }

  /** Removing every occurrence is a filter: it distributes over
      concatenation and keeps every other element in place. */
  lemma {:induction false} RemoveAllAppend(a: seq<Bytes>, b: seq<Bytes>, v: Bytes)
    ensures RemoveAll(a + b, v) == RemoveAll(a, v) + RemoveAll(b, v)
  {
    if a != [] {
      assert (a + b)[1..] == a[1..] + b;
      RemoveAllAppend(a[1..], b, v);
    } else {
      assert a + b == b;
    }
  }

  lemma RemoveAllSingle(x: Bytes, v: Bytes)
    ensures RemoveAll([x], v) == (if x == v then [] else [x])
  {
    assert [x][1..] == [];
  }

  /** LREM's reply: with count 1 it is 1 exactly when `v` occurs; with count
      0 it is the number of occurrences. */
  lemma LRemReply(db: Db, k: Bytes, v: Bytes)
    requires ListAt(db, k).Success?
    ensures LRem(db, k, 1, v).value.1 == (if v in ListAt(db, k).value then 1 else 0)
    ensures LRem(db, k, 0, v).value.1 == Count(ListAt(db, k).value, v)
  {
    var l := ListAt(db, k).value;
    RemoveFirstCount(l, v, 1);
    RemoveAllCount(l, v);
    assert v in l <==> Count(l, v) > 0;
  }

  // ---------------------------------------------------------------------

  /** Pushing several values at once equals pushing them one by one, left
      to right. */
  lemma {:induction false} LPushOneByOne(db: Db, k: Bytes, values: seq<Bytes>)
    requires |values| >= 2 && LPush(db, k, values).Success?
    ensures LPush(db, k, values[..1]).Success?
    ensures LPush(LPush(db, k, values[..1]).value.0, k, values[1..]) == LPush(db, k, values)
  {
    var l := ListAt(db, k).value;
    var v := values[0];
    assert values[..1] == [v];
    assert Reverse([v]) == [v];
    var first := LPush(db, k, [v]).value.0;
    assert ListAt(first, k) == Success([v] + l);
    var both := Reverse(values) + l;
    assert Reverse(values) == Reverse(values[1..]) + [v];
    assert Reverse(values[1..]) + ([v] + l) == both;
    var twice := LPush(first, k, values[1..]).value.0;
    var once := LPush(db, k, values).value.0;
    OnlyValueOfChain(db, first, twice, k);
    SameListWrite(db, twice, once, k, both);
  }

  /** Two in-place updates of `k` are one. */
  lemma OnlyValueOfChain(a: Db, b: Db, c: Db, k: Bytes)
    requires OnlyValueOf(a, b, k) && OnlyValueOf(b, c, k) && k in b.data
    ensures OnlyValueOf(a, c, k)
  {
  }

  /** Two in-place updates of `k` that leave the same non-empty list agree. */
  lemma SameListWrite(db: Db, a: Db, b: Db, k: Bytes, l: seq<Bytes>)
    requires OnlyValueOf(db, a, k) && OnlyValueOf(db, b, k)
    requires l != [] && ListAt(a, k) == Success(l) && ListAt(b, k) == Success(l)
    ensures a == b
  {
    assert a.data == b.data;
    assert a.ttl == b.ttl;
  }

  /** LPUSH a b c onto an empty list gives c b a. */
  lemma LPushExample(db: Db, k: Bytes, a: Bytes, b: Bytes, c: Bytes)
    requires k !in db.data
    ensures ListAt(LPush(db, k, [a, b, c]).value.0, k) == Success([c, b, a])
  {
    var r := Reverse([a, b, c]);
    assert r[0] == c && r[1] == b && r[2] == a;
    assert r == [c, b, a];
    assert r + [] == r;
  }

  /** Source a b c and destination x y z become a b and c x y z, and c is
      the reply. */
  lemma RPopLPushExample(db: Db, src: Bytes, dst: Bytes, a: Bytes, b: Bytes, c: Bytes, x: Bytes, y: Bytes, z: Bytes)
    requires src != dst
    requires src in db.data && db.data[src] == List([a, b, c])
    requires dst in db.data && db.data[dst] == List([x, y, z])
    ensures RPopLPush(db, src, dst).Success?
    ensures RPopLPush(db, src, dst).value.1 == Some(c)
    ensures ListAt(RPopLPush(db, src, dst).value.0, src) == Success([a, b])
    ensures ListAt(RPopLPush(db, src, dst).value.0, dst) == Success([c, x, y, z])
  {
    assert [a, b, c][..2] == [a, b];
    var popped := PutList(db, src, [a, b]);
    assert ListAt(popped, dst) == Success([x, y, z]);
    assert [c] + [x, y, z] == [c, x, y, z];
  }

  /** With the same key as source and destination the list rotates: the
      tail becomes the head. */
  lemma RPopLPushRotates(db: Db, k: Bytes)
    requires ListAt(db, k).Success? && ListAt(db, k).value != []
    ensures RPopLPush(db, k, k).Success?
    ensures var l := ListAt(db, k).value;
            RPopLPush(db, k, k).value.1 == Some(l[|l| - 1]) &&
            ListAt(RPopLPush(db, k, k).value.0, k) == Success([l[|l| - 1]] + l[..|l| - 1])
  {
  }

  /** A missing source replies nil and changes nothing. */
  lemma RPopLPushMissingSource(db: Db, src: Bytes, dst: Bytes)
    requires src !in db.data
    ensures RPopLPush(db, src, dst) == Success((db, None))
  {
  }
}
