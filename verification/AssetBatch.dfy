/** delete_item on a list of ids: decide what may go, sort, and delete one by one. */
module AssetBatch {
  import opened Common
  import opened AssetTree
  import opened AssetDelete
  import opened AssetTrace

  datatype Verdict = Accepted | Rejected(reason: Reason)

  type Replies = seq<(nat, Reply)>

  /** Everything below the asset, and everything it powers, is in the request; rackcontroller-0 is not involved. */
  ghost predicate Deletable(db: Db, depth: nat -> nat, height: nat, ids: seq<nat>, id: nat)
    requires Forest(db.assets, depth, height)
  {
    && (exists a :: a in db.assets && a.id == id && a.name != RC0)
    && (forall b :: b in db.assets && Below(db.assets, depth, height, b.id, id) ==> b.id in ids && b.name != RC0)
    && (forall l :: l in db.links && l.src == id ==> l.dest in ids)
  }

  /** Why an id is refused, the first reason that applies. */
  ghost predicate RefusedFor(db: Db, depth: nat -> nat, height: nat, ids: seq<nat>, id: nat, reason: Reason)
    requires Forest(db.assets, depth, height)
  {
    var known := exists a :: a in db.assets && a.id == id;
    var rc0 := exists b :: b in db.assets && b.name == "rackcontroller-0"
                 && (b.id == id || Below(db.assets, depth, height, b.id, id));
    var childOutside := exists b :: b in db.assets && Below(db.assets, depth, height, b.id, id) && b.id !in ids;
    var linkOutside := exists l :: l in db.links && l.src == id && l.dest !in ids;
    match reason
    case NotFound => !known
    case ProtectedRC0 => known && rc0
    case HasChildren => known && !rc0 && childOutside
    case IsLinked => known && !rc0 && !childOutside && linkOutside
    case _ => false
  }

  /** An id is refused for some reason exactly when it is not deletable. */
  lemma RefusedMeans(db: Db, depth: nat -> nat, height: nat, ids: seq<nat>, id: nat)
    requires Forest(db.assets, depth, height)
    ensures Deletable(db, depth, height, ids, id) <==> forall r :: !RefusedFor(db, depth, height, ids, id, r)
    ensures forall r, q :: RefusedFor(db, depth, height, ids, id, r) && RefusedFor(db, depth, height, ids, id, q) ==>
              r == q
  {
    assert Deletable(db, depth, height, ids, id) <==>
             && !RefusedFor(db, depth, height, ids, id, NotFound)
             && !RefusedFor(db, depth, height, ids, id, ProtectedRC0)
             && !RefusedFor(db, depth, height, ids, id, HasChildren)
             && !RefusedFor(db, depth, height, ids, id, IsLinked);
  }

  /** The erase loops: does anything remain that is not in the request? */
  method AnyOutside(list: seq<nat>, ids: seq<nat>) returns (r: bool)
    ensures r <==> exists x :: x in list && x !in ids
  {
    var rest := list;
    for i := 0 to |ids|
      invariant forall x :: x in rest <==> x in list && x !in ids[..i]
    {
      rest := Erased(rest, ids[i]);
      assert ids[..i + 1] == ids[..i] + [ids[i]];
    }
    assert ids[..|ids|] == ids;
    r := rest != [];
    if r {
      assert rest[0] in rest;
    }
  }

  function Erased(list: seq<nat>, x: nat): (r: seq<nat>)
    ensures forall y :: y in r <==> y in list && y != x
  {
    if list == [] then []
    else
      var rest, y := Erased(list[..|list| - 1], x), list[|list| - 1];
      assert list == list[..|list| - 1] + [y];
      if y == x then rest else rest + [y]
  }

  function IdsOf(list: seq<Asset>): (r: seq<nat>)
    ensures forall x :: x in r <==> exists a :: a in list && a.id == x
  {
    if list == [] then []
    else
      assert list == list[..|list| - 1] + [list[|list| - 1]];
      IdsOf(list[..|list| - 1]) + [list[|list| - 1].id]
  }

  function FirstReply(ret: Replies, id: nat): (k: int)
    ensures k == -1 || (0 <= k < |ret| && ret[k].0 == id)
    ensures k == -1 <==> forall e :: e in ret ==> e.0 != id
  {
    if ret == [] then -1
    else if ret[0].0 == id then 0
    else
      var k := FirstReply(ret[1..], id);
      assert ret == [ret[0]] + ret[1..];
      if k == -1 then -1 else k + 1
  }

  // ---------- planning ----------

  ghost predicate ChildOutside(db: Db, depth: nat -> nat, height: nat, ids: seq<nat>, id: nat)
    requires Forest(db.assets, depth, height)
  {
    exists x :: x in IdsOf(Collected(db.assets, depth, height, id, 0)) && x !in ids
  }

  ghost predicate LinkOutside(db: Db, ids: seq<nat>, id: nat) {
    exists x :: x in LinksFrom(db.links, id) && x !in ids
  }

  /** Collect what is below and what is powered, and compare it with the request. */
  method Examine(db: Db, ids: seq<nat>, id: nat, ghost depth: nat -> nat, ghost height: nat)
    returns (refused: bool, childLeft: bool, linkLeft: bool)
    requires Forest(db.assets, depth, height)
    ensures refused <==> ContainsRC0(Collected(db.assets, depth, height, id, 0))
    ensures !refused ==> (childLeft <==> ChildOutside(db, depth, height, ids, id))
    ensures !refused ==> (linkLeft <==> LinkOutside(db, ids, id))
  {
    var children := CollectChildren(db.assets, id, [], depth, height);
    if children.Refused? {
      return true, false, false;
    }
    assert children.list == Collected(db.assets, depth, height, id, 0);
    childLeft := AnyOutside(IdsOf(children.list), ids);
    linkLeft := AnyOutside(LinksFrom(db.links, id), ids);
    refused := false;
  }

  /** The verdict on an asset of the table; refused when the walk meets rackcontroller-0 below it. */
  method Judge(db: Db, ids: seq<nat>, info: Asset, ghost depth: nat -> nat, ghost height: nat)
    returns (refused: bool, v: Verdict)
    requires Forest(db.assets, depth, height) && info in db.assets
    ensures v.Accepted? <==> Deletable(db, depth, height, ids, info.id)
    ensures v.Rejected? ==> RefusedFor(db, depth, height, ids, info.id, v.reason)
    ensures refused || info.name == RC0 ==> v == Rejected(ProtectedRC0)
  {
    DeletableMeans(db, depth, height, ids, info);
    ReasonFound(db, depth, height, ids, info);
    var childLeft, linkLeft;
    refused, childLeft, linkLeft := Examine(db, ids, info.id, depth, height);
    v := if refused || info.name == RC0 then Rejected(ProtectedRC0)
         else if childLeft then Rejected(HasChildren) else if linkLeft then Rejected(IsLinked) else Accepted;
  }

  /** The try block of the first loop, for one id of the request. */
  method PlanOne(db: Db, ids: seq<nat>, id: nat, toDel: seq<Asset>, ghost depth: nat -> nat, ghost height: nat)
    returns (plan: seq<Asset>, v: Verdict)
    requires Forest(db.assets, depth, height) && DistinctIds(toDel)
    requires forall t :: t in toDel ==> t in db.assets && t.name != RC0
    ensures v.Accepted? <==> Deletable(db, depth, height, ids, id)
    ensures v.Rejected? ==> RefusedFor(db, depth, height, ids, id, v.reason)
    ensures toDel <= plan && DistinctIds(plan)
    ensures forall t :: t in plan ==> t in toDel || (t in db.assets && t.id == id && t.name != RC0)
    ensures v.Accepted? ==> exists t :: t in plan && t.id == id
  {
    plan := toDel;
    var k := IndexOf(db.assets, id);
    if k == -1 {
      return plan, Rejected(NotFound);
    }
    var info := db.assets[k];
    assert info in db.assets && info.id == id;
    var refused;
    refused, v := Judge(db, ids, info, depth, height);
    if refused {
      return;
    }
    var added := CheckAndAdd(toDel, info);
    if added.Refused? {
      return;
    }
    plan := added.list;
    PlanGrows(db, toDel, info, plan);
  }

  lemma PlanGrows(db: Db, toDel: seq<Asset>, info: Asset, plan: seq<Asset>)
    requires DistinctIds(db.assets) && DistinctIds(toDel) && info in db.assets
    requires forall t :: t in toDel ==> t in db.assets && t.name != RC0
    requires plan == if exists t :: t in toDel && t.id == info.id then toDel else toDel + [info]
    requires plan != toDel ==> info.name != RC0
    ensures toDel <= plan && DistinctIds(plan)
    ensures forall t :: t in plan ==> t in toDel || (t == info && t.name != RC0)
    ensures exists t :: t in plan && t.id == info.id
    ensures info.name == RC0 ==> plan == toDel
  {
    if plan != toDel {
      assert info in plan;
    }
  }

  lemma DescendantsOf(db: Db, depth: nat -> nat, height: nat, id: nat)
    requires Forest(db.assets, depth, height)
    ensures forall a :: a in Collected(db.assets, depth, height, id, 0) <==>
                        a in db.assets && Below(db.assets, depth, height, a.id, id)
  {
    forall a
      ensures a in Collected(db.assets, depth, height, id, 0) <==>
              a in db.assets && Below(db.assets, depth, height, a.id, id)
    {
      DescendantsCollected(db.assets, depth, height, id, a);
    }
  }

  lemma ChildOutsideMeans(db: Db, depth: nat -> nat, height: nat, ids: seq<nat>, id: nat)
    requires Forest(db.assets, depth, height)
    ensures ChildOutside(db, depth, height, ids, id) <==>
            exists b :: b in db.assets && Below(db.assets, depth, height, b.id, id) && b.id !in ids
  {
    var below := Collected(db.assets, depth, height, id, 0);
    DescendantsOf(db, depth, height, id);
    if ChildOutside(db, depth, height, ids, id) {
      var x :| x in IdsOf(below) && x !in ids;
      var b :| b in below && b.id == x;
    }
    forall b | b in below
      ensures b.id in IdsOf(below)
    {
    }
  }

  /** Deletable is what planning looks at. */
  lemma DeletableMeans(db: Db, depth: nat -> nat, height: nat, ids: seq<nat>, info: Asset)
    requires Forest(db.assets, depth, height) && info in db.assets
    ensures Deletable(db, depth, height, ids, info.id) <==>
            && info.name != RC0 && !ContainsRC0(Collected(db.assets, depth, height, info.id, 0))
            && !ChildOutside(db, depth, height, ids, info.id) && !LinkOutside(db, ids, info.id)
  {
    DescendantsOf(db, depth, height, info.id);
    ChildOutsideMeans(db, depth, height, ids, info.id);
    assert forall a :: a in db.assets && a.id == info.id ==> a == info;
    assert LinkOutside(db, ids, info.id) <==> exists l :: l in db.links && l.src == info.id && l.dest !in ids by {
      forall l | l in db.links && l.src == info.id
        ensures l.dest in LinksFrom(db.links, info.id)
      {
        assert l == PowerLink(info.id, l.dest);
      }
    }
  }

  /** The reasons, as the collected children and links show them. */
  lemma ReasonFound(db: Db, depth: nat -> nat, height: nat, ids: seq<nat>, info: Asset)
    requires Forest(db.assets, depth, height) && info in db.assets
    ensures var rc0 := info.name == RC0 || ContainsRC0(Collected(db.assets, depth, height, info.id, 0));
            && (rc0 ==> RefusedFor(db, depth, height, ids, info.id, ProtectedRC0))
            && (!rc0 && ChildOutside(db, depth, height, ids, info.id) ==>
                  RefusedFor(db, depth, height, ids, info.id, HasChildren))
            && (!rc0 && !ChildOutside(db, depth, height, ids, info.id) && LinkOutside(db, ids, info.id) ==>
                  RefusedFor(db, depth, height, ids, info.id, IsLinked))
  {
    DescendantsOf(db, depth, height, info.id);
    ChildOutsideMeans(db, depth, height, ids, info.id);
    assert forall a :: a in db.assets && a.id == info.id ==> a == info;
    if LinkOutside(db, ids, info.id) {
      var x :| x in LinksFrom(db.links, info.id) && x !in ids;
      assert PowerLink(info.id, x) in db.links;
    }
  }

  /** What planning has settled for the ids of done, which are part of the request. */
  ghost predicate Planned(db: Db, depth: nat -> nat, height: nat, ids: seq<nat>, done: seq<nat>,
                          toDel: seq<Asset>, ret: Replies)
    requires Forest(db.assets, depth, height)
  {
    && DistinctIds(toDel)
    && (forall t :: t in toDel ==> t in db.assets && t.id in done && t.name != RC0)
    && (forall e :: e in ret ==>
          e.0 in done && e.1.Failed? && !Deletable(db, depth, height, ids, e.0)
          && RefusedFor(db, depth, height, ids, e.0, e.1.reason))
    && (forall id :: id in done ==>
          if Deletable(db, depth, height, ids, id) then exists t :: t in toDel && t.id == id
          else FirstReply(ret, id) != -1)
  }

  method Plan(db: Db, ids: seq<nat>, ghost depth: nat -> nat, ghost height: nat)
    returns (toDel: seq<Asset>, ret: Replies)
    requires Forest(db.assets, depth, height)
    ensures Planned(db, depth, height, ids, ids, toDel, ret)
  {
    toDel, ret := [], [];
    for i := 0 to |ids|
      invariant Planned(db, depth, height, ids, ids[..i], toDel, ret)
    {
      var plan, v := PlanOne(db, ids, ids[i], toDel, depth, height);
      var replies := if v.Accepted? then ret else ret + [(ids[i], Failed(v.reason))];
      PlannedOneMore(db, depth, height, ids, ids[..i], ids[i], toDel, ret, plan, replies, v);
      assert ids[..i + 1] == ids[..i] + [ids[i]];
      toDel, ret := plan, replies;
    }
    assert ids[..|ids|] == ids;
  }

  lemma PlannedOneMore(db: Db, depth: nat -> nat, height: nat, ids: seq<nat>, done: seq<nat>, id: nat,
                       toDel: seq<Asset>, ret: Replies, plan: seq<Asset>, replies: Replies, v: Verdict)
    requires Forest(db.assets, depth, height) && Planned(db, depth, height, ids, done, toDel, ret)
    requires v.Accepted? <==> Deletable(db, depth, height, ids, id)
    requires v.Rejected? ==> RefusedFor(db, depth, height, ids, id, v.reason)
    requires toDel <= plan && DistinctIds(plan)
    requires forall t :: t in plan ==> t in toDel || (t in db.assets && t.id == id && t.name != RC0)
    requires v.Accepted? ==> exists t :: t in plan && t.id == id
    requires replies == if v.Accepted? then ret else ret + [(id, Failed(v.reason))]
    ensures Planned(db, depth, height, ids, done + [id], plan, replies)
  {
    forall x | x in done + [id]
      ensures if Deletable(db, depth, height, ids, x) then exists t :: t in plan && t.id == x
              else FirstReply(replies, x) != -1
    {
      if x != id {
        if Deletable(db, depth, height, ids, x) {
          var t :| t in toDel && t.id == x;
          assert t in plan;
        } else {
          var e := ret[FirstReply(ret, x)];
          assert e in replies;
        }
      } else if v.Rejected? {
        assert (id, Failed(v.reason)) in replies;
      }
    }
  }

  // ---------- deleting ----------

  ghost predicate Distinct(list: seq<nat>) {
    forall i, j :: 0 <= i < j < |list| ==> list[i] != list[j]
  }

  /** The rows that are left are the old ones without those whose deletion was reported. */
  ghost predicate RowsMatchReplies(db0: Db, db: Db, ret: Replies) {
    forall a :: a in db.assets <==> a in db0.assets && (a.id, Deleted) !in ret
  }

  /** One reply per attempt, in order, behind the replies of the planning. */
  ghost predicate Attempts(ret0: Replies, ret: Replies, attempted: seq<nat>) {
    && |ret| == |ret0| + |attempted| && ret[..|ret0|] == ret0 && Distinct(attempted)
    && (forall k :: |ret0| <= k < |ret| ==> ret[k].0 == attempted[k - |ret0|] && !ret[k].1.Ignored?)
  }

  lemma OneMoreAttempt(ret0: Replies, ret: Replies, attempted: seq<nat>, id: nat, reply: Reply)
    requires Attempts(ret0, ret, attempted) && id !in attempted && !reply.Ignored?
    ensures Attempts(ret0, ret + [(id, reply)], attempted + [id])
  {
    var replies, ids := ret + [(id, reply)], attempted + [id];
    assert replies[..|ret0|] == ret[..|ret0|];
    forall k | |ret0| <= k < |replies|
      ensures replies[k].0 == ids[k - |ret0|] && !replies[k].1.Ignored?
    {
      if k < |ret| {
        assert replies[k] == ret[k] && ids[k - |ret0|] == attempted[k - |ret0|];
      }
    }
  }

  lemma AttemptsAnswered(ret0: Replies, ret: Replies, attempted: seq<nat>, id: nat)
    requires Attempts(ret0, ret, attempted)
    ensures FirstReply(ret, id) == -1 <==> FirstReply(ret0, id) == -1 && id !in attempted
    ensures forall e :: e in ret ==> e in ret0 || e.0 in attempted
    ensures forall e :: e in ret0 ==> e in ret
  {
    assert forall e :: e in ret0 ==> e in ret;
    forall k | 0 <= k < |ret|
      ensures ret[k] in ret0 || ret[k].0 in attempted
    {
      if k < |ret0| {
        assert ret[k] == ret[..|ret0|][k];
      }
    }
    if id in attempted {
      var k :| 0 <= k < |attempted| && attempted[k] == id;
      assert ret[|ret0| + k] in ret;
    }
  }

  /** Every attempt after the planning replies is answered as the tables stood then. */
  ghost predicate Told(overrideLastDc: bool, attempts: seq<Attempt>, states: seq<Db>, attempted: seq<nat>,
                       faults: nat -> Faults, ret0: Replies, ret: Replies)
    requires IsTrace(overrideLastDc, attempts, states) && Attempts(ret0, ret, attempted)
  {
    && |attempts| == |attempted|
    && forall k :: 0 <= k < |attempts| ==>
         var t := attempts[k];
         && t == Attempt(t.item, false, faults(t.item.id)) && t.item.id == attempted[k] && t.item.name != RC0
         && ret[|ret0| + k].1 == ReplyTo(overrideLastDc, states[k], t)
  }

  /** The last loop: delete, in the given order, everything that has no reply yet. */
  method Execute(store: AssetDb, toDel: seq<Asset>, ret0: Replies, faults: nat -> Faults)
    returns (ret: Replies, ghost attempted: seq<nat>, ghost attempts: seq<Attempt>, ghost states: seq<Db>)
    requires DistinctIds(toDel)
    requires forall t :: t in toDel ==> t in store.db.assets && t.name != RC0
    requires DistinctIds(store.db.assets)
    requires forall e :: e in ret0 ==> e.1.Failed?
    modifies store
    ensures Attempts(ret0, ret, attempted)
    ensures forall id :: id in attempted <==> FirstReply(ret0, id) == -1 && exists t :: t in toDel && t.id == id
    ensures RowsMatchReplies(old(store.db), store.db, ret)
    ensures IsTrace(store.overrideLastDc, attempts, states) && states[0] == old(store.db)
    ensures states[|attempts|] == store.db
    ensures Told(store.overrideLastDc, attempts, states, attempted, faults, ret0, ret)
  {
    ret, attempted, attempts, states := ret0, [], [], [store.db];
    ghost var db0 := store.db;
    for i := 0 to |toDel|
      invariant Attempts(ret0, ret, attempted)
      invariant forall id :: id in attempted <==>
                  FirstReply(ret0, id) == -1 && exists t :: t in toDel[..i] && t.id == id
      invariant RowsMatchReplies(db0, store.db, ret)
      invariant IsTrace(store.overrideLastDc, attempts, states) && states[0] == db0 && states[|attempts|] == store.db
      invariant Told(store.overrideLastDc, attempts, states, attempted, faults, ret0, ret)
    {
      var item := toDel[i];
      assert toDel[..i + 1] == toDel[..i] + [item];
      assert forall t :: t in toDel[..i] ==> t.id != item.id;
      AttemptsAnswered(ret0, ret, attempted, item.id);
      var k := FirstReply(ret, item.id);
      if k == -1 || !ret[k].1.Failed? {
        ghost var before := store.db;
        var reply := store.DeleteAsset(item, faults(item.id));
        OneMoreAttempt(ret0, ret, attempted, item.id, reply);
        RowsStillMatch(db0, before, store.db, ret, item, reply);
        OneMoreTold(store.overrideLastDc, attempts, states, attempted, faults, ret0, ret, item, reply, store.db);
        ret := ret + [(item.id, reply)];
        attempted := attempted + [item.id];
        attempts := attempts + [Attempt(item, false, faults(item.id))];
        states := states + [store.db];
      }
    }
    assert toDel[..|toDel|] == toDel;
  }

  lemma OneMoreTold(overrideLastDc: bool, attempts: seq<Attempt>, states: seq<Db>, attempted: seq<nat>,
                    faults: nat -> Faults, ret0: Replies, ret: Replies, item: Asset, reply: Reply, db: Db)
    requires IsTrace(overrideLastDc, attempts, states) && Attempts(ret0, ret, attempted)
    requires Told(overrideLastDc, attempts, states, attempted, faults, ret0, ret)
    requires item.id !in attempted && !reply.Ignored? && item.name != RC0 && item in states[|attempts|].assets
    requires reply == ReplyTo(overrideLastDc, states[|attempts|], Attempt(item, false, faults(item.id)))
    requires db == AfterAttempt(overrideLastDc, states[|attempts|], Attempt(item, false, faults(item.id)))
    ensures var attempts', states' := attempts + [Attempt(item, false, faults(item.id))], states + [db];
            && IsTrace(overrideLastDc, attempts', states')
            && Attempts(ret0, ret + [(item.id, reply)], attempted + [item.id])
            && Told(overrideLastDc, attempts', states', attempted + [item.id], faults, ret0, ret + [(item.id, reply)])
  {
    OneMoreAttempt(ret0, ret, attempted, item.id, reply);
  }

  lemma RowsStillMatch(db0: Db, before: Db, after: Db, ret: Replies, item: Asset, reply: Reply)
    requires DistinctIds(db0.assets) && item in db0.assets && RowsMatchReplies(db0, before, ret)
    requires after == if reply.Deleted? then AfterDelete(before, item) else before
    ensures RowsMatchReplies(db0, after, ret + [(item.id, reply)])
  {
  }

  /**
   * Which attempts succeed, told from the tables before and after the batch: a deleted asset could go, and an
   * attempted one that no sensor refers to stays only if it could still not go at the end.
   */
  ghost predicate Outcomes(overrideLastDc: bool, db0: Db, db: Db, attempted: seq<nat>, faults: nat -> Faults,
                           ret: Replies)
  {
    forall a :: a in db0.assets && a.id in attempted ==>
      var t := Attempt(a, false, faults(a.id));
      && ((a.id, Deleted) in ret ==> Succeeds(overrideLastDc, db, t))
      && (Succeeds(overrideLastDc, db, t) && !IsLogicalAsset(db0, a.name) ==> (a.id, Deleted) in ret)
  }

  lemma OutcomesTold(overrideLastDc: bool, attempts: seq<Attempt>, states: seq<Db>, attempted: seq<nat>,
                     faults: nat -> Faults, ret0: Replies, ret: Replies)
    requires IsTrace(overrideLastDc, attempts, states) && DistinctIds(states[0].assets)
    requires Attempts(ret0, ret, attempted)
    requires Told(overrideLastDc, attempts, states, attempted, faults, ret0, ret)
    requires forall e :: e in ret0 ==> e.1.Failed?
    ensures Outcomes(overrideLastDc, states[0], states[|attempts|], attempted, faults, ret)
  {
    forall a | a in states[0].assets && a.id in attempted
      ensures var t := Attempt(a, false, faults(a.id));
              && ((a.id, Deleted) in ret ==> Succeeds(overrideLastDc, states[|attempts|], t))
              && (Succeeds(overrideLastDc, states[|attempts|], t) && !IsLogicalAsset(states[0], a.name) ==>
                    (a.id, Deleted) in ret)
    {
      var k :| 0 <= k < |attempted| && attempted[k] == a.id;
      RowsShrink(overrideLastDc, attempts, states, 0, k);
      assert attempts[k].item == a;
      OutcomeSeenAtTheEnd(overrideLastDc, attempts, states, k, |attempts|);
      AttemptReply(ret0, ret, attempted, k);
    }
  }

  /** An attempt has no other reply than its own. */
  lemma AttemptReply(ret0: Replies, ret: Replies, attempted: seq<nat>, k: nat)
    requires Attempts(ret0, ret, attempted) && k < |attempted|
    requires forall e :: e in ret0 ==> e.1.Failed?
    ensures (attempted[k], Deleted) in ret <==> ret[|ret0| + k].1.Deleted?
  {
    forall j | 0 <= j < |ret0|
      ensures ret[j].1.Failed?
    {
      assert ret[j] == ret[..|ret0|][j] && ret[j] in ret0;
    }
  }

  /**
   * delete_item on a list. order is the permutation that std::sort happens to produce; nothing below depends
   * on it. An id is attempted exactly when it is deletable, at most once, and every id gets an answer.
   */
  method DeleteItems(store: AssetDb, ids: seq<nat>, faults: nat -> Faults, order: seq<Asset> -> seq<Asset>,
                     ghost depth: nat -> nat, ghost height: nat)
    returns (ret: Replies, ghost attempted: seq<nat>, ghost attempts: seq<Attempt>, ghost states: seq<Db>)
    requires Forest(store.db.assets, depth, height)
    requires forall s :: multiset(order(s)) == multiset(s)
    modifies store
    ensures Distinct(attempted)
    ensures forall id :: id in attempted <==> id in ids && Deletable(old(store.db), depth, height, ids, id)
    ensures forall id :: id in ids ==> FirstReply(ret, id) != -1
    ensures forall e :: e in ret ==> e.0 in ids && (e.0 in attempted || e.1.Failed?)
    ensures forall e :: e in ret && e.0 !in attempted ==>
              e.1.Failed? && RefusedFor(old(store.db), depth, height, ids, e.0, e.1.reason)
    ensures forall i, j :: 0 <= i < j < |ret| && ret[i].0 == ret[j].0 ==> ret[i].0 !in attempted
    ensures RowsMatchReplies(old(store.db), store.db, ret)
    ensures Outcomes(store.overrideLastDc, old(store.db), store.db, attempted, faults, ret)
    ensures IsTrace(store.overrideLastDc, attempts, states)
    ensures states[0] == old(store.db) && states[|attempts|] == store.db
    ensures forall t :: t in attempts ==> t.item.name != RC0 && t.item.id in attempted
    ensures Forest(store.db.assets, depth, height)
    ensures !store.overrideLastDc && HasDatacenter(old(store.db)) ==> HasDatacenter(store.db)
  {
    var toDel, planned := Plan(store.db, ids, depth, height);
    var sorted := order(toDel);
    SortedPlan(toDel, sorted);
    ghost var db0 := store.db;
    ret, attempted, attempts, states := Execute(store, sorted, planned, faults);
    forall id
      ensures id in attempted <==> id in ids && Deletable(db0, depth, height, ids, id)
      ensures id in ids ==> FirstReply(ret, id) != -1
    {
      AttemptsAnswered(planned, ret, attempted, id);
    }
    AttemptsAnswered(planned, ret, attempted, 0);
    AnsweredOnce(planned, ret, attempted);
    OutcomesTold(store.overrideLastDc, attempts, states, attempted, faults, planned, ret);
    RowsLeft(store.overrideLastDc, attempts, states, |attempts|);
    if !store.overrideLastDc {
      DatacenterRemains(attempts, states, 0, |attempts|);
    }
  }

  /**
   * When the database refuses nothing, an attempted asset of a known type that no sensor refers to is deleted,
   * except for one reason: without the override, it must not leave the tables without another data center.
   */
  lemma WithoutFaultsItGoes(overrideLastDc: bool, db0: Db, db: Db, attempted: seq<nat>, faults: nat -> Faults,
                            ret: Replies, a: Asset)
    requires Outcomes(overrideLastDc, db0, db, attempted, faults, ret) && RowsMatchReplies(db0, db, ret)
    requires a in db0.assets && a.id in attempted
    requires !Refuses(faults(a.id), a.typ) && a.typ != OtherType && !IsLogicalAsset(db0, a.name)
    ensures (a.id, Deleted) in ret <==> !IsContainer(a.typ) || overrideLastDc || OtherDatacenter(db, a.id)
    ensures (a.id, Deleted) in ret <==> a !in db.assets
  {
  }

  lemma AnsweredOnce(ret0: Replies, ret: Replies, attempted: seq<nat>)
    requires Attempts(ret0, ret, attempted)
    requires forall id :: id in attempted ==> FirstReply(ret0, id) == -1
    ensures forall i, j :: 0 <= i < j < |ret| && ret[i].0 == ret[j].0 ==> ret[i].0 !in attempted
  {
    var n := |ret0|;
    forall k | 0 <= k < |ret|
      ensures if k < n then ret[k].0 !in attempted else ret[k].0 == attempted[k - n]
    {
      if k < n {
        assert ret[k] == ret[..n][k] && ret[k] in ret0;
      }
    }
  }

  lemma {:induction false} SortedPlan(toDel: seq<Asset>, sorted: seq<Asset>)
    requires multiset(sorted) == multiset(toDel) && DistinctIds(toDel)
    ensures forall t :: t in sorted <==> t in toDel
    ensures DistinctIds(sorted)
  {
    forall t
      ensures t in sorted <==> t in toDel
    {
      assert t in sorted <==> t in multiset(sorted);
    }
    forall i, j | 0 <= i < j < |sorted|
      ensures sorted[i].id != sorted[j].id
    {
      if sorted[i].id == sorted[j].id {
        var a := sorted[i];
        assert sorted[j] in toDel && a in toDel;
        assert a == sorted[j];
        TwiceCounted(sorted, i, j);
        CountedOnce(toDel, a);
      }
    }
  }

  lemma TwiceCounted(list: seq<Asset>, i: nat, j: nat)
    requires i < j < |list| && list[i] == list[j]
    ensures multiset(list)[list[i]] >= 2
  {
    assert list == list[..j] + [list[j]] + list[j + 1..];
    assert list[i] in list[..j];
  }

  lemma {:induction false} CountedOnce(list: seq<Asset>, a: Asset)
    requires DistinctIds(list)
    ensures multiset(list)[a] <= 1
  {
    if list != [] {
      CountedOnce(list[1..], a);
      assert list == [list[0]] + list[1..];
    }
  }

  /** Neither rackcontroller-0 nor any asset above it ever reaches deleteAsset. */
  lemma RC0IsProtected(db: Db, depth: nat -> nat, height: nat, ids: seq<nat>, rc0: Asset, id: nat)
    requires Forest(db.assets, depth, height) && rc0 in db.assets && rc0.name == RC0
    requires id == rc0.id || Below(db.assets, depth, height, rc0.id, id)
    ensures !Deletable(db, depth, height, ids, id)
  {
  }

  // ---------- the comparator given to std::sort ----------

  /** The ids on the way up from parent, inclusive, as far as the work list reaches. */
  ghost function UpwardChain(toDel: seq<Asset>, depth: nat -> nat, height: nat, parent: Asset): set<nat>
    requires Forest(toDel, depth, height) && depth(parent.parent) < depth(parent.id)
    decreases depth(parent.id)
  {
    var k := IndexOf(toDel, parent.parent);
    if k == -1 then {parent.id}
    else
      assert toDel[k] in toDel;
      {parent.id} + UpwardChain(toDel, depth, height, toDel[k])
  }

  /** isAnyParent: item's own parent lies on the way up from parent. */
  method IsAnyParent(toDel: seq<Asset>, item: Asset, parent: Asset, ghost depth: nat -> nat, ghost height: nat)
    returns (r: bool)
    requires Forest(toDel, depth, height) && parent in toDel
    ensures r <==> item.parent in UpwardChain(toDel, depth, height, parent)
  {
    var p := parent;
    while true
      invariant p in toDel
      invariant item.parent in UpwardChain(toDel, depth, height, parent) <==>
                item.parent in UpwardChain(toDel, depth, height, p)
      decreases depth(p.id)
    {
      if item.parent == p.id {
        return true;
      }
      var found := IndexOf(toDel, p.parent);
      if found == -1 {
        return false;
      }
      p := toDel[found];
    }
  }

  /** That chain is the asset itself and the assets of the work list above it. */
  lemma {:induction false} ChainIsUpward(toDel: seq<Asset>, depth: nat -> nat, height: nat, parent: Asset, x: nat)
    requires Forest(toDel, depth, height) && parent in toDel
    ensures x in UpwardChain(toDel, depth, height, parent) <==>
            (exists a :: a in toDel && a.id == x) && (x == parent.id || Below(toDel, depth, height, parent.id, x))
    decreases depth(parent.id)
  {
    var k := IndexOf(toDel, parent.parent);
    assert forall a :: a in toDel && a.id == parent.id ==> a == parent;
    if k != -1 {
      var up := toDel[k];
      assert up in toDel;
      ChainIsUpward(toDel, depth, height, up, x);
      assert Below(toDel, depth, height, parent.id, x) <==> up.id == x || Below(toDel, depth, height, up.id, x);
    } else if Below(toDel, depth, height, parent.id, x) {
      NothingAboveTop(toDel, depth, height, parent, x);
    }
  }

  lemma NothingAboveTop(rows: seq<Asset>, depth: nat -> nat, height: nat, a: Asset, x: nat)
    requires Forest(rows, depth, height) && a in rows && forall b :: b in rows ==> b.id != a.parent
    ensures Below(rows, depth, height, a.id, x) <==> x == a.parent
  {
    assert forall b :: b in rows && b.id == a.id ==> b == a;
    assert !Below(rows, depth, height, a.parent, x);
  }

  ghost predicate SortsBefore(toDel: seq<Asset>, links: seq<PowerLink>, depth: nat -> nat, height: nat,
                              l: Asset, r: Asset)
    requires Forest(toDel, depth, height) && l in toDel && r in toDel
  {
    || l.parent in UpwardChain(toDel, depth, height, r)
    || (PowerLink(l.id, r.id) !in links && PowerLink(r.id, l.id) in links)
  }

  /**
   * The comparator is no strict order: an asset sorts before itself exactly when its parent is being deleted
   * too, and then any two children of that parent sort before each other.
   */
  lemma ComparatorIsNotStrict(toDel: seq<Asset>, links: seq<PowerLink>, depth: nat -> nat, height: nat,
                              l: Asset, r: Asset)
    requires Forest(toDel, depth, height) && l in toDel && r in toDel
    ensures SortsBefore(toDel, links, depth, height, l, l) <==> exists p :: p in toDel && p.id == l.parent
    ensures l.parent == r.parent && (exists p :: p in toDel && p.id == l.parent) ==>
              SortsBefore(toDel, links, depth, height, l, r) && SortsBefore(toDel, links, depth, height, r, l)
  {
    var k := IndexOf(toDel, l.parent);
    if k == -1 {
      assert UpwardChain(toDel, depth, height, l) == {l.id};
    } else {
      assert toDel[k] in toDel && l.parent in UpwardChain(toDel, depth, height, toDel[k]);
    }
  }

  // ---------- a batch after a delete ----------

  /** ups-3 powers server-7, so it cannot go alone; once the server is deleted it can. */
  lemma FeederGoesAfterDevice()
    ensures var ups, server := Asset(3, "ups-3", Device, 0, "", false), Asset(7, "server-7", Device, 0, "", false);
            var db, depth := Db([ups, server], {}, [PowerLink(3, 7)], {}), (n: nat) => if n == 0 then 0 else 1 as nat;
            var attempt := Attempt(server, false, Faults(false, false, false, false, false, false));
            var after := AfterAttempt(false, db, attempt);
            && Forest(db.assets, depth, 1) && Forest(after.assets, depth, 1)
            && !Deletable(db, depth, 1, [3], 3) && Deletable(after, depth, 1, [3], 3)
  {
    var ups, server := Asset(3, "ups-3", Device, 0, "", false), Asset(7, "server-7", Device, 0, "", false);
    var db, depth := Db([ups, server], {}, [PowerLink(3, 7)], {}), (n: nat) => if n == 0 then 0 else 1 as nat;
    var attempt := Attempt(server, false, Faults(false, false, false, false, false, false));
    assert PowerLink(3, 7) in db.links;
    ReplyMeans(false, db, attempt);
    TablesAfter(false, db, attempt);
    WithoutKeepsIdsUnique(db.assets, 7);
    var after := AfterAttempt(false, db, attempt);
    assert ups in after.assets && forall a :: a in after.assets ==> a == ups;
  }
}
