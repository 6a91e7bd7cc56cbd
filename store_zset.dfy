/** Sorted-set commands: a key bound to members ordered by score, then by
    member bytes, each member once.  Scores are integers here. */
module StoreZSet {
  import opened Wrappers
  import opened Store
  import StoreList

  // ---------------------------------------------------------------------
  // The order

  lemma {:induction false} BytesLessIrreflexive(a: Bytes)
    ensures !BytesLess(a, a)
  {
    if a != [] {
      BytesLessIrreflexive(a[1..]);
    }
  }

  lemma {:induction false} BytesLessTransitive(a: Bytes, b: Bytes, c: Bytes)
    requires BytesLess(a, b) && BytesLess(b, c)
    ensures BytesLess(a, c)
  {
    if a != [] && b != [] && c != [] && a[0] == b[0] && b[0] == c[0] {
      BytesLessTransitive(a[1..], b[1..], c[1..]);
    }
  }

  lemma {:induction false} BytesLessTotal(a: Bytes, b: Bytes)
    requires a != b
    ensures BytesLess(a, b) || BytesLess(b, a)
  {
    if a != [] && b != [] && a[0] == b[0] {
      assert a == [a[0]] + a[1..] && b == [b[0]] + b[1..];
      BytesLessTotal(a[1..], b[1..]);
    }
  }

  lemma ItemLessTransitive(x: ZItem, y: ZItem, z: ZItem)
    requires ItemLess(x, y) && ItemLess(y, z)
    ensures ItemLess(x, z)
  {
    if x.score == y.score == z.score {
      BytesLessTransitive(x.member, y.member, z.member);
    }
  }

  lemma ItemLessIrreflexive(x: ZItem)
    ensures !ItemLess(x, x)
  {
    BytesLessIrreflexive(x.member);
  }

  // ---------------------------------------------------------------------
  // Sorted sequences of items

  function MembersOf(items: seq<ZItem>): (r: seq<Bytes>)
    ensures |r| == |items|
    ensures forall i :: 0 <= i < |items| ==> r[i] == items[i].member
  {
    if items == [] then [] else [items[0].member] + MembersOf(items[1..])
  }

  /** `items` without the entry for member `m`. */
  function RemoveMember(items: seq<ZItem>, m: Bytes): (r: seq<ZItem>)
    ensures forall y :: y in r <==> y in items && y.member != m
    ensures |r| <= |items|
  {
    if items == [] then []
    else if items[0].member == m then RemoveMember(items[1..], m)
    else [items[0]] + RemoveMember(items[1..], m)
  }

  lemma {:induction false} RemoveMemberKeepsShape(items: seq<ZItem>, m: Bytes)
    requires SortedItems(items) && DistinctMembers(items)
    ensures SortedItems(RemoveMember(items, m)) && DistinctMembers(RemoveMember(items, m))
    ensures (exists i :: 0 <= i < |items| && items[i].member == m) ==> |RemoveMember(items, m)| == |items| - 1
    ensures (forall i :: 0 <= i < |items| ==> items[i].member != m) ==> RemoveMember(items, m) == items
  {
    if items != [] {
      RemoveMemberKeepsShape(items[1..], m);
      var rest := RemoveMember(items[1..], m);
      if items[0].member != m {
        var r := [items[0]] + rest;
        forall i, j | 0 <= i < j < |r| ensures ItemLess(r[i], r[j]) && r[i].member != r[j].member {
          if i == 0 {
            assert r[j] in items[1..];
          }
        }
        if exists i :: 0 <= i < |items| && items[i].member == m {
          var i :| 0 <= i < |items| && items[i].member == m;
          assert items[1..][i - 1].member == m;
        }
      } else {
        assert forall y :: y in items[1..] ==> y.member != m;
        RemoveMemberNone(items[1..], m);
      }
    }
  }

  lemma {:induction false} RemoveMemberNone(items: seq<ZItem>, m: Bytes)
    requires forall y :: y in items ==> y.member != m
    ensures RemoveMember(items, m) == items
  {
    if items != [] {
      RemoveMemberNone(items[1..], m);
    }
  }

  /** `x` inserted at its place in the order. */
  function Insert(items: seq<ZItem>, x: ZItem): (r: seq<ZItem>)
    ensures |r| == |items| + 1
    ensures forall y :: y in r <==> y in items || y == x
  {
    if items == [] || ItemLess(x, items[0]) then [x] + items
    else [items[0]] + Insert(items[1..], x)
  }

  lemma {:induction false} InsertKeepsShape(items: seq<ZItem>, x: ZItem)
    requires SortedItems(items) && DistinctMembers(items)
    requires forall y :: y in items ==> y.member != x.member
    ensures SortedItems(Insert(items, x)) && DistinctMembers(Insert(items, x))
  {
    if items != [] {
      if ItemLess(x, items[0]) {
        var r := [x] + items;
        forall j | 0 < j < |r| ensures ItemLess(x, r[j]) {
          if j > 1 {
            ItemLessTransitive(x, items[0], r[j]);
          }
        }
        assert forall j :: 0 < j < |r| ==> r[j] in items;
      } else {
        BytesLessTotal(x.member, items[0].member);
        assert ItemLess(items[0], x);
        InsertKeepsShape(items[1..], x);
        var rest := Insert(items[1..], x);
        var r := [items[0]] + rest;
        forall i, j | 0 <= i < j < |r| ensures ItemLess(r[i], r[j]) && r[i].member != r[j].member {
          if i == 0 {
            assert r[j] in items[1..] || r[j] == x;
          }
        }
      }
    }
  }

  /** The position of member `m`, if it is there. */
  function IndexOf(items: seq<ZItem>, m: Bytes): (r: Option<nat>)
    ensures r.Some? ==> r.value < |items| && items[r.value].member == m
    ensures r.None? <==> forall i :: 0 <= i < |items| ==> items[i].member != m
  {
    if items == [] then None
    else if items[0].member == m then Some(0)
    else match IndexOf(items[1..], m)
      case None => None
      case Some(i) => Some(i + 1)
  }

  // ---------------------------------------------------------------------
  // Commands

  /** The sorted set at `k`; a missing key reads as the empty one. */
  function ZSetAt(db: Db, k: Bytes): (r: Result<seq<ZItem>, StoreError>)
    ensures r.Failure? <==> k in db.data && !db.data[k].Sorted?
    ensures r.Failure? ==> r.error == WrongType
    ensures k !in db.data ==> r == Success([])
    ensures Valid(db) && r.Success? ==> SortedItems(r.value) && DistinctMembers(r.value)
  {
    if k !in db.data then Success([])
    else match db.data[k]
      case Sorted(z) => Success(z)
      case _ => Failure(WrongType)
  }

  function PutZSet(db: Db, k: Bytes, z: seq<ZItem>): (r: Db)
    ensures ZSetAt(r, k) == Success(z)
    ensures OnlyValueOf(db, r, k)
    ensures Valid(db) && SortedItems(z) && DistinctMembers(z) ==> Valid(r)
  {
    if z == [] then Remove(db, k) else Update(db, k, Sorted(z))
  }

  /** ZADD of one member: a new member is inserted at its place; an existing
      one is moved to the place its new score gives it.  The reply says
      whether the member is new. */
  function ZAdd(db: Db, k: Bytes, score: int, m: Bytes): (r: Result<(Db, bool), StoreError>)
    ensures r.Failure? <==> ZSetAt(db, k).Failure?
    ensures r.Success? ==> (r.value.1 <==> IndexOf(ZSetAt(db, k).value, m).None?)
    ensures r.Success? ==> ZSetAt(r.value.0, k) == Success(Insert(RemoveMember(ZSetAt(db, k).value, m), ZItem(m, score)))
    ensures r.Success? ==> OnlyValueOf(db, r.value.0, k)
  {
    match ZSetAt(db, k)
    case Failure(e) => Failure(e)
    case Success(z) => Success((PutZSet(db, k, Insert(RemoveMember(z, m), ZItem(m, score))), IndexOf(z, m).None?))
  }

  lemma ZAddValid(db: Db, k: Bytes, score: int, m: Bytes)
    requires Valid(db) && ZAdd(db, k, score, m).Success?
    ensures Valid(ZAdd(db, k, score, m).value.0)
  {
    var z := ZSetAt(db, k).value;
    RemoveMemberKeepsShape(z, m);
    InsertKeepsShape(RemoveMember(z, m), ZItem(m, score));
  }

  /** ZADD updates rather than duplicates: afterwards the member is present
      exactly once, with the new score, the other members are untouched, and
      the size grows only for a new member. */
  lemma ZAddUpserts(db: Db, k: Bytes, score: int, m: Bytes)
    requires Valid(db) && ZAdd(db, k, score, m).Success?
    ensures var z := ZSetAt(db, k).value;
            var z' := ZSetAt(ZAdd(db, k, score, m).value.0, k).value;
            ZItem(m, score) in z'
            && (forall y :: y in z' && y.member == m ==> y.score == score)
            && (forall y :: y in z && y.member != m ==> y in z')
            && |z'| == (if ZAdd(db, k, score, m).value.1 then |z| + 1 else |z|)
  {
    var z := ZSetAt(db, k).value;
    RemoveMemberKeepsShape(z, m);
  }

  /** ZRANK: the 0-based position in ascending order. */
  function ZRank(db: Db, k: Bytes, m: Bytes): (r: Result<Option<nat>, StoreError>)
    ensures r.Failure? <==> ZSetAt(db, k).Failure?
    ensures r.Success? ==> r.value == IndexOf(ZSetAt(db, k).value, m)
  {
    match ZSetAt(db, k)
    case Failure(e) => Failure(e)
    case Success(z) => Success(IndexOf(z, m))
  }

  /** ZREVRANK: the 0-based position in descending order. */
  function ZRevRank(db: Db, k: Bytes, m: Bytes): (r: Result<Option<nat>, StoreError>)
    ensures r.Failure? <==> ZSetAt(db, k).Failure?
    ensures r.Success? ==> (r.value.Some? <==> ZRank(db, k, m).value.Some?)
    ensures r.Success? && r.value.Some? ==> r.value.value + ZRank(db, k, m).value.value == |ZSetAt(db, k).value| - 1
  {
    match ZSetAt(db, k)
    case Failure(e) => Failure(e)
    case Success(z) =>
      match IndexOf(z, m)
      case None => Success(None)
      case Some(i) => Success(Some(|z| - 1 - i))
  }

  /** The highest score ranks 0 in descending order. */
  lemma ZRevRankOfLast(db: Db, k: Bytes)
    requires Valid(db) && ZSetAt(db, k).Success? && ZSetAt(db, k).value != []
    ensures var z := ZSetAt(db, k).value;
            ZRevRank(db, k, z[|z| - 1].member) == Success(Some(0))
  {
    var z := ZSetAt(db, k).value;
    var i := IndexOf(z, z[|z| - 1].member);
    assert i.Some?;
    assert i.value == |z| - 1;
  }

  /** ZRANGE WITHSCORES: the selected slice in ascending order. */
  function ZRangeWithScores(db: Db, k: Bytes, start: int, stop: int): (r: Result<seq<ZItem>, StoreError>)
    ensures r.Failure? <==> ZSetAt(db, k).Failure?
    ensures r.Success? ==> var z := ZSetAt(db, k).value; var b := StoreList.RangeBounds(|z|, start, stop);
                           r.value == z[b.0..b.1]
  {
    match ZSetAt(db, k)
    case Failure(e) => Failure(e)
    case Success(z) =>
      var b := StoreList.RangeBounds(|z|, start, stop);
      Success(z[b.0..b.1])
  }

  /** ZRANGE: the members of that slice. */
  function ZRange(db: Db, k: Bytes, start: int, stop: int): (r: Result<seq<Bytes>, StoreError>)
    ensures r.Failure? <==> ZSetAt(db, k).Failure?
    ensures r.Success? ==> r.value == MembersOf(ZRangeWithScores(db, k, start, stop).value)
  {
    match ZRangeWithScores(db, k, start, stop)
    case Failure(e) => Failure(e)
    case Success(items) => Success(MembersOf(items))
  }

  /** ZREVRANGE WITHSCORES: the slice of the descending order. */
  function ZRevRangeWithScores(db: Db, k: Bytes, start: int, stop: int): (r: Result<seq<ZItem>, StoreError>)
    ensures r.Failure? <==> ZSetAt(db, k).Failure?
    ensures r.Success? ==> var z := StoreList.Reverse(ZSetAt(db, k).value); var b := StoreList.RangeBounds(|z|, start, stop);
                           r.value == z[b.0..b.1]
  {
    match ZSetAt(db, k)
    case Failure(e) => Failure(e)
    case Success(z) =>
      var rz := StoreList.Reverse(z);
      var b := StoreList.RangeBounds(|rz|, start, stop);
      Success(rz[b.0..b.1])
  }

  /** ZREVRANGE. */
  function ZRevRange(db: Db, k: Bytes, start: int, stop: int): (r: Result<seq<Bytes>, StoreError>)
    ensures r.Failure? <==> ZSetAt(db, k).Failure?
    ensures r.Success? ==> r.value == MembersOf(ZRevRangeWithScores(db, k, start, stop).value)
  {
    match ZRevRangeWithScores(db, k, start, stop)
    case Failure(e) => Failure(e)
    case Success(items) => Success(MembersOf(items))
  }

  /** The full ranges in both directions are mirror images. */
  lemma ZRevRangeMirrors(db: Db, k: Bytes)
    requires ZSetAt(db, k).Success?
    ensures ZRevRangeWithScores(db, k, 0, -1).value == StoreList.Reverse(ZRangeWithScores(db, k, 0, -1).value)
  {
    var z := ZSetAt(db, k).value;
    if z != [] {
      StoreList.RangeAll(|z|);
      assert z[0..|z|] == z;
      assert StoreList.Reverse(z)[0..|z|] == StoreList.Reverse(z);
    }
  }

  /** ZREM of one member; the reply says whether it was there. */
  function ZRem(db: Db, k: Bytes, m: Bytes): (r: Result<(Db, bool), StoreError>)
    ensures r.Failure? <==> ZSetAt(db, k).Failure?
    ensures r.Success? ==> (r.value.1 <==> IndexOf(ZSetAt(db, k).value, m).Some?)
    ensures r.Success? ==> ZSetAt(r.value.0, k) == Success(RemoveMember(ZSetAt(db, k).value, m))
    ensures r.Success? ==> OnlyValueOf(db, r.value.0, k)
  {
    match ZSetAt(db, k)
    case Failure(e) => Failure(e)
    case Success(z) => Success((PutZSet(db, k, RemoveMember(z, m)), IndexOf(z, m).Some?))
  }

  lemma ZRemValid(db: Db, k: Bytes, m: Bytes)
    requires Valid(db) && ZRem(db, k, m).Success?
    ensures Valid(ZRem(db, k, m).value.0)
    ensures IndexOf(ZSetAt(ZRem(db, k, m).value.0, k).value, m).None?
  {
    RemoveMemberKeepsShape(ZSetAt(db, k).value, m);
  }

  /** ZREMRANGEBYRANK: removes the selected slice; the reply is its size. */
  function ZRemRangeByRank(db: Db, k: Bytes, start: int, stop: int): (r: Result<(Db, nat), StoreError>)
    ensures r.Failure? <==> ZSetAt(db, k).Failure?
    ensures r.Success? ==> var z := ZSetAt(db, k).value; var b := StoreList.RangeBounds(|z|, start, stop);
                           ZSetAt(r.value.0, k) == Success(z[..b.0] + z[b.1..]) && r.value.1 == b.1 - b.0
    ensures r.Success? ==> OnlyValueOf(db, r.value.0, k)
  {
    match ZSetAt(db, k)
    case Failure(e) => Failure(e)
    case Success(z) =>
      var b := StoreList.RangeBounds(|z|, start, stop);
      Success((PutZSet(db, k, z[..b.0] + z[b.1..]), b.1 - b.0))
  }

  lemma ZRemRangeByRankValid(db: Db, k: Bytes, start: int, stop: int)
    requires Valid(db) && ZRemRangeByRank(db, k, start, stop).Success?
    ensures Valid(ZRemRangeByRank(db, k, start, stop).value.0)
  {
    var z := ZSetAt(db, k).value;
    var b := StoreList.RangeBounds(|z|, start, stop);
    var r := z[..b.0] + z[b.1..];
    forall i, j | 0 <= i < j < |r| ensures ItemLess(r[i], r[j]) && r[i].member != r[j].member {
      var i' := if i < b.0 then i else i + (b.1 - b.0);
      var j' := if j < b.0 then j else j + (b.1 - b.0);
      assert r[i] == z[i'] && r[j] == z[j'] && i' < j';
    }
  }

  /** ZCARD. */
  function ZCard(db: Db, k: Bytes): (r: Result<nat, StoreError>)
    ensures r.Failure? <==> ZSetAt(db, k).Failure?
    ensures r.Success? ==> r.value == |ZSetAt(db, k).value|
  {
    match ZSetAt(db, k)
    case Failure(e) => Failure(e)
    case Success(z) => Success(|z|)
  }
}
