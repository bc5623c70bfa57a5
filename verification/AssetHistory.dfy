/** Any sequence of single and batch deletes. */
module AssetHistory {
  import opened Common
  import opened AssetTree
  import opened AssetDelete
  import opened AssetTrace
  import opened AssetBatch

  /** One request: the faults it meets and, for a list, what the sort makes of the work list. */
  datatype Request =
    | One(id: nat, fault: Faults)
    | Many(ids: seq<nat>, faults: nat -> Faults, order: seq<Asset> -> seq<Asset>)

  ghost predicate Sorts(q: Request) {
    q.Many? ==> forall s :: multiset(q.order(s)) == multiset(s)
  }

  ghost predicate ItemAnswered(overrideLastDc: bool, db0: Db, db: Db, id: nat, f: Faults, r: Reply) {
    && (r == Failed(NotFound) <==> forall a :: a in db0.assets ==> a.id != id)
    && (r.Ignored? <==> exists a :: a in db0.assets && a.id == id && a.name == RC0)
    && (forall a :: a in db0.assets && a.id == id && a.name != RC0 ==>
          r == ReplyTo(overrideLastDc, db0, Attempt(a, a.active, f)))
    && (db != db0 <==> RowGone(r))
  }

  ghost predicate BatchAnswered(overrideLastDc: bool, db0: Db, db: Db, ids: seq<nat>, attempted: seq<nat>,
                                faults: nat -> Faults, ret: Replies, depth: nat -> nat, height: nat)
    requires Forest(db0.assets, depth, height)
  {
    && (forall id :: id in attempted <==> id in ids && Deletable(db0, depth, height, ids, id))
    && (forall id :: id in ids ==> FirstReply(ret, id) != -1)
    && (forall e :: e in ret && e.0 !in attempted ==>
          e.0 in ids && e.1.Failed? && RefusedFor(db0, depth, height, ids, e.0, e.1.reason))
    && (forall e :: e in ret ==> e.0 in ids)
    && RowsMatchReplies(db0, db, ret)
    && Outcomes(overrideLastDc, db0, db, attempted, faults, ret)
  }

  /** The replies to a request fit the tables before and after it. */
  ghost predicate Answered(overrideLastDc: bool, q: Request, db0: Db, db: Db, ret: Replies,
                           depth: nat -> nat, height: nat)
  {
    Forest(db0.assets, depth, height) &&
    match q
    case One(id, f) => |ret| == 1 && ret[0].0 == id && ItemAnswered(overrideLastDc, db0, db, id, f, ret[0].1)
    case Many(ids, faults, _) =>
      exists attempted :: BatchAnswered(overrideLastDc, db0, db, ids, attempted, faults, ret, depth, height)
  }

  /** Answers one request. */
  method Serve(store: AssetDb, q: Request, ghost depth: nat -> nat, ghost height: nat)
    returns (ret: Replies, ghost attempts: seq<Attempt>, ghost states: seq<Db>)
    requires Forest(store.db.assets, depth, height) && Sorts(q)
    modifies store
    ensures Forest(store.db.assets, depth, height)
    ensures Answered(store.overrideLastDc, q, old(store.db), store.db, ret, depth, height)
    ensures IsTrace(store.overrideLastDc, attempts, states)
    ensures states[0] == old(store.db) && states[|attempts|] == store.db
    ensures forall t :: t in attempts ==> t.item.name != RC0
  {
    ghost var db0 := store.db;
    match q {
      case One(id, f) =>
        var r := store.DeleteItem(id, f, depth, height);
        ret := [(id, r)];
        if k :| 0 <= k < |db0.assets| && db0.assets[k].id == id && db0.assets[k].name != RC0 {
          attempts := [Attempt(db0.assets[k], db0.assets[k].active, f)];
          states := [db0, store.db];
        } else {
          attempts, states := [], [db0];
        }
      case Many(ids, faults, order) =>
        ghost var attempted;
        ret, attempted, attempts, states := DeleteItems(store, ids, faults, order, depth, height);
        assert BatchAnswered(store.overrideLastDc, db0, store.db, ids, attempted, faults, ret, depth, height);
    }
  }

  /**
   * Answers a sequence of requests. states holds the tables before and after every transaction of all of them,
   * ends where each request begins and ends in it. Without the override a data center is there at every moment
   * if and only if one is there at the start; rackcontroller-0 is never lost; the parent relation stays acyclic.
   */
  method ServeAll(store: AssetDb, requests: seq<Request>, ghost depth: nat -> nat, ghost height: nat)
    returns (rets: seq<Replies>, ghost attempts: seq<Attempt>, ghost states: seq<Db>, ghost ends: seq<nat>)
    requires Forest(store.db.assets, depth, height)
    requires forall i :: 0 <= i < |requests| ==> Sorts(requests[i])
    modifies store
    ensures IsTrace(store.overrideLastDc, attempts, states)
    ensures states[0] == old(store.db) && states[|attempts|] == store.db
    ensures |rets| == |requests| && Marks(ends, |requests|, |attempts|)
    ensures forall i :: 0 <= i < |requests| ==>
              Answered(store.overrideLastDc, requests[i], states[ends[i]], states[ends[i + 1]], rets[i], depth, height)
    ensures forall s :: s in states ==> DistinctIds(s.assets)
    ensures forall s, a :: s in states && a in old(store.db).assets && a.name == RC0 ==> a in s.assets
    ensures !store.overrideLastDc ==>
              forall s :: s in states ==> (HasDatacenter(s) <==> HasDatacenter(old(store.db)))
  {
    ghost var db0 := store.db;
    rets, attempts, states, ends := [], [], [db0], [0];
    for i := 0 to |requests|
      invariant Forest(store.db.assets, depth, height)
      invariant IsTrace(store.overrideLastDc, attempts, states) && states[0] == db0 && states[|attempts|] == store.db
      invariant forall t :: t in attempts ==> t.item.name != RC0
      invariant |rets| == i && Marks(ends, i, |attempts|)
      invariant forall j :: 0 <= j < i ==>
                  Answered(store.overrideLastDc, requests[j], states[ends[j]], states[ends[j + 1]], rets[j],
                           depth, height)
    {
      ghost var attempts', states';
      var ret;
      ret, attempts', states' := Serve(store, requests[i], depth, height);
      TracesJoin(store.overrideLastDc, attempts, states, attempts', states');
      rets, ends := rets + [ret], ends + [|attempts + attempts'|];
      attempts, states := attempts + attempts', states + states'[1..];
    }
    EveryMoment(store.overrideLastDc, attempts, states);
  }

  /** ends runs from 0 to total in n steps. */
  ghost predicate Marks(ends: seq<nat>, n: nat, total: nat) {
    && |ends| == n + 1 && ends[0] == 0 && ends[n] == total
    && forall i, j :: 0 <= i <= j <= n ==> ends[i] <= ends[j]
  }

  /** What holds of every state of a trace that never attempts rackcontroller-0. */
  lemma EveryMoment(overrideLastDc: bool, attempts: seq<Attempt>, states: seq<Db>)
    requires IsTrace(overrideLastDc, attempts, states) && DistinctIds(states[0].assets)
    requires forall t :: t in attempts ==> t.item.name != RC0
    ensures forall s :: s in states ==> DistinctIds(s.assets)
    ensures forall s, a :: s in states && a in states[0].assets && a.name == RC0 ==> a in s.assets
    ensures !overrideLastDc ==> forall s :: s in states ==> (HasDatacenter(s) <==> HasDatacenter(states[0]))
  {
    forall n | 0 <= n < |states|
      ensures DistinctIds(states[n].assets)
      ensures forall a :: a in states[0].assets && a.name == RC0 ==> a in states[n].assets
      ensures !overrideLastDc ==> (HasDatacenter(states[n]) <==> HasDatacenter(states[0]))
    {
      RowsLeft(overrideLastDc, attempts, states, n);
      forall a | a in states[0].assets && a.name == RC0
        ensures a in states[n].assets
      {
        UntouchedStays(overrideLastDc, attempts, states, n, a);
      }
      if !overrideLastDc {
        DatacenterRemains(attempts, states, 0, n);
      }
    }
  }
}
