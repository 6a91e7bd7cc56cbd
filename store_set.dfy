/** Set commands: a key bound to a non-empty set of members. */
module StoreSet {
  import opened Wrappers
  import opened Store

  /** The set at `k`, which is also what SMEMBERS replies; a missing key
      reads as the empty set. */
  function SetAt(db: Db, k: Bytes): (r: Result<set<Bytes>, StoreError>)
    ensures r.Failure? <==> k in db.data && !db.data[k].Members?
    ensures r.Failure? ==> r.error == WrongType
    ensures k !in db.data ==> r == Success({})
    ensures k in db.data && db.data[k].Members? ==> r == Success(db.data[k].members)
  {
    if k !in db.data then Success({})
    else match db.data[k]
      case Members(s) => Success(s)
      case _ => Failure(WrongType)
  }

  function Elements(ms: seq<Bytes>): set<Bytes> {
    set m | m in ms
  }

  /** SADD: members already present are ignored; the reply counts the new
      distinct members. */
  function SAdd(db: Db, k: Bytes, members: seq<Bytes>): (r: Result<(Db, nat), StoreError>)
    ensures members == [] ==> r == Failure(WrongArity)
    ensures members != [] ==> (r.Failure? <==> SetAt(db, k).Failure?)
    ensures r.Success? ==> SetAt(r.value.0, k) == Success(SetAt(db, k).value + Elements(members))
    ensures r.Success? ==> r.value.1 == |Elements(members) - SetAt(db, k).value|
    ensures r.Success? ==> OnlyValueOf(db, r.value.0, k)
    ensures Valid(db) && r.Success? ==> Valid(r.value.0)
  {
    if members == [] then Failure(WrongArity)
    else match SetAt(db, k)
      case Failure(e) => Failure(e)
      case Success(s) =>
        assert members[0] in s + Elements(members);
        Success((Update(db, k, Members(s + Elements(members))), |Elements(members) - s|))
  }

  /** SADD replies with the number of members given exactly when they are
      distinct and none was present. */
  lemma SAddCountsAllNew(db: Db, k: Bytes, members: seq<Bytes>)
    requires SAdd(db, k, members).Success?
    ensures SAdd(db, k, members).value.1 == |members| <==>
              (forall i, j :: 0 <= i < j < |members| ==> members[i] != members[j])
              && (forall m :: m in members ==> m !in SetAt(db, k).value)
  {
    var s := SetAt(db, k).value;
    ElementsSize(members);
    if forall i, j :: 0 <= i < j < |members| ==> members[i] != members[j] {
      DistinctElements(members);
      if forall m :: m in members ==> m !in s {
        assert Elements(members) - s == Elements(members);
      } else {
        var m :| m in members && m in s;
        assert m in Elements(members) && m !in Elements(members) - s;
        assert Elements(members) - s < Elements(members);
        SubsetSmaller(Elements(members) - s, Elements(members));
      }
    } else {
      var i, j :| 0 <= i < j < |members| && members[i] == members[j];
      RepeatedElements(members, i, j);
    }
  }

  lemma SubsetSmaller(a: set<Bytes>, b: set<Bytes>)
    requires a < b
    ensures |a| < |b|
  {
    var x :| x in b && x !in a;
    SubsetNoLarger(a, b - {x});
  }

  lemma SubsetNoLarger(a: set<Bytes>, b: set<Bytes>)
    requires a <= b
    ensures |a| <= |b|
    decreases |a|
  {
    if a != {} {
      var y :| y in a;
      SubsetNoLarger(a - {y}, b - {y});
    }
  }

  lemma {:induction false} ElementsSize(ms: seq<Bytes>)
    ensures |Elements(ms)| <= |ms|
  {
    if ms != [] {
      ElementsSize(ms[1..]);
      assert Elements(ms) == Elements(ms[1..]) + {ms[0]};
    }
  }

  lemma {:induction false} DistinctElements(ms: seq<Bytes>)
    requires forall i, j :: 0 <= i < j < |ms| ==> ms[i] != ms[j]
    ensures |Elements(ms)| == |ms|
  {
    if ms != [] {
      DistinctElements(ms[1..]);
      assert Elements(ms) == Elements(ms[1..]) + {ms[0]};
      assert ms[0] !in Elements(ms[1..]);
    }
  }

  lemma {:induction false} RepeatedElements(ms: seq<Bytes>, i: nat, j: nat)
    requires i < j < |ms| && ms[i] == ms[j]
    ensures |Elements(ms)| < |ms|
  {
    if i == 0 {
      ElementsSize(ms[1..]);
      assert ms[0] == ms[1..][j - 1];
      assert Elements(ms) == Elements(ms[1..]);
    } else {
      RepeatedElements(ms[1..], i - 1, j - 1);
      assert Elements(ms) == Elements(ms[1..]) + {ms[0]};
    }
  }
}
