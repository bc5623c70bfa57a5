/** Sequences of delete transactions, from single deletes and batches alike, and what all of them keep. */
module AssetTrace {
  import opened Common
  import opened AssetTree
  import opened AssetDelete

  /** The tables before and after every attempt. */
  ghost predicate IsTrace(overrideLastDc: bool, attempts: seq<Attempt>, states: seq<Db>) {
    && |states| == |attempts| + 1
    && forall k :: 0 <= k < |attempts| ==>
         attempts[k].item in states[k].assets && states[k + 1] == AfterAttempt(overrideLastDc, states[k], attempts[k])
  }

  /** Some of the first n attempts removed the row of this id. */
  ghost predicate Removed(overrideLastDc: bool, attempts: seq<Attempt>, states: seq<Db>, n: nat, id: nat)
    requires IsTrace(overrideLastDc, attempts, states) && n <= |attempts|
  {
    exists k :: 0 <= k < n && attempts[k].item.id == id && RowGone(ReplyTo(overrideLastDc, states[k], attempts[k]))
  }

  lemma RemovedOneMore(overrideLastDc: bool, attempts: seq<Attempt>, states: seq<Db>, n: nat, id: nat)
    requires IsTrace(overrideLastDc, attempts, states) && n < |attempts|
    ensures Removed(overrideLastDc, attempts, states, n + 1, id) <==>
            Removed(overrideLastDc, attempts, states, n, id) ||
            (attempts[n].item.id == id && RowGone(ReplyTo(overrideLastDc, states[n], attempts[n])))
  {
  }

  lemma RowsAfterAttempt(overrideLastDc: bool, db: Db, t: Attempt)
    requires DistinctIds(db.assets)
    ensures var after := AfterAttempt(overrideLastDc, db, t).assets;
            && DistinctIds(after)
            && forall a :: a in after <==>
                           a in db.assets && !(a.id == t.item.id && RowGone(ReplyTo(overrideLastDc, db, t)))
  {
    WithoutKeepsIdsUnique(db.assets, t.item.id);
  }

  /** A row is there exactly when it was there at the start and no attempt removed it; ids stay unique. */
  lemma {:induction false} RowsLeft(overrideLastDc: bool, attempts: seq<Attempt>, states: seq<Db>, n: nat)
    requires IsTrace(overrideLastDc, attempts, states) && n <= |attempts| && DistinctIds(states[0].assets)
    ensures DistinctIds(states[n].assets)
    ensures forall a :: a in states[n].assets <==>
                        a in states[0].assets && !Removed(overrideLastDc, attempts, states, n, a.id)
  {
    if n > 0 {
      RowsLeft(overrideLastDc, attempts, states, n - 1);
      RowsAfterAttempt(overrideLastDc, states[n - 1], attempts[n - 1]);
      forall a
        ensures a in states[n].assets <==>
                a in states[0].assets && !Removed(overrideLastDc, attempts, states, n, a.id)
      {
        RemovedOneMore(overrideLastDc, attempts, states, n - 1, a.id);
      }
    }
  }

  /** Some of the first n attempts deleted a device of this id. */
  ghost predicate DeviceRemoved(overrideLastDc: bool, attempts: seq<Attempt>, states: seq<Db>, n: nat, id: nat)
    requires IsTrace(overrideLastDc, attempts, states) && n <= |attempts|
  {
    exists k :: 0 <= k < n && attempts[k].item.id == id && attempts[k].item.typ == Device
      && RowGone(ReplyTo(overrideLastDc, states[k], attempts[k]))
  }

  /** A power link is there exactly when it was there at the start and the device it leads to was not deleted. */
  lemma {:induction false} LinksLeft(overrideLastDc: bool, attempts: seq<Attempt>, states: seq<Db>, n: nat)
    requires IsTrace(overrideLastDc, attempts, states) && n <= |attempts|
    ensures forall l :: l in states[n].links <==>
                        l in states[0].links && !DeviceRemoved(overrideLastDc, attempts, states, n, l.dest)
  {
    if n > 0 {
      LinksLeft(overrideLastDc, attempts, states, n - 1);
      TablesAfter(overrideLastDc, states[n - 1], attempts[n - 1]);
      forall id
        ensures DeviceRemoved(overrideLastDc, attempts, states, n, id) <==>
                DeviceRemoved(overrideLastDc, attempts, states, n - 1, id) ||
                (attempts[n - 1].item.id == id && attempts[n - 1].item.typ == Device
                 && RowGone(ReplyTo(overrideLastDc, states[n - 1], attempts[n - 1])))
      {
      }
    }
  }

  /** Some of the first n attempts deleted a member, or the group itself, of this membership. */
  ghost predicate Unbound(overrideLastDc: bool, attempts: seq<Attempt>, states: seq<Db>, n: nat, g: (nat, nat))
    requires IsTrace(overrideLastDc, attempts, states) && n <= |attempts|
  {
    exists k :: 0 <= k < n && (if attempts[k].item.typ == Group then g.0 else g.1) == attempts[k].item.id
      && RowGone(ReplyTo(overrideLastDc, states[k], attempts[k]))
  }

  /** The same for the memberships in groups. */
  lemma {:induction false} MembershipsLeft(overrideLastDc: bool, attempts: seq<Attempt>, states: seq<Db>, n: nat)
    requires IsTrace(overrideLastDc, attempts, states) && n <= |attempts|
    ensures forall g :: g in states[n].groups <==>
                        g in states[0].groups && !Unbound(overrideLastDc, attempts, states, n, g)
  {
    if n > 0 {
      MembershipsLeft(overrideLastDc, attempts, states, n - 1);
      TablesAfter(overrideLastDc, states[n - 1], attempts[n - 1]);
      forall g
        ensures Unbound(overrideLastDc, attempts, states, n, g) <==>
                Unbound(overrideLastDc, attempts, states, n - 1, g) ||
                ((if attempts[n - 1].item.typ == Group then g.0 else g.1) == attempts[n - 1].item.id
                 && RowGone(ReplyTo(overrideLastDc, states[n - 1], attempts[n - 1])))
      {
      }
    }
  }

  /** Rows only ever disappear. */
  lemma RowsShrink(overrideLastDc: bool, attempts: seq<Attempt>, states: seq<Db>, m: nat, n: nat)
    requires IsTrace(overrideLastDc, attempts, states) && m <= n <= |attempts| && DistinctIds(states[0].assets)
    ensures forall a :: a in states[n].assets ==> a in states[m].assets
    ensures DistinctIds(states[m].assets)
  {
    RowsLeft(overrideLastDc, attempts, states, m);
    RowsLeft(overrideLastDc, attempts, states, n);
  }

  /** Without the override, a data center exists at every moment if and only if one exists at any moment. */
  lemma {:induction false} DatacenterRemains(attempts: seq<Attempt>, states: seq<Db>, m: nat, n: nat)
    requires IsTrace(false, attempts, states) && m <= n <= |attempts| && DistinctIds(states[0].assets)
    ensures HasDatacenter(states[m]) <==> HasDatacenter(states[n])
    decreases n - m
  {
    RowsShrink(false, attempts, states, m, n);
    if m < n && HasDatacenter(states[m]) {
      KeepsDatacenter(states[m], attempts[m].item);
      DatacenterRemains(attempts, states, m + 1, n);
    }
  }

  /** An asset that is never attempted stays; rackcontroller-0 is one in every run. */
  lemma UntouchedStays(overrideLastDc: bool, attempts: seq<Attempt>, states: seq<Db>, n: nat, a: Asset)
    requires IsTrace(overrideLastDc, attempts, states) && n <= |attempts| && DistinctIds(states[0].assets)
    requires a in states[0].assets && forall t :: t in attempts ==> t.item.name != a.name
    ensures a in states[n].assets
  {
    RowsLeft(overrideLastDc, attempts, states, n);
    forall k | 0 <= k < n
      ensures attempts[k].item.id != a.id
    {
      RowsLeft(overrideLastDc, attempts, states, k);
      assert attempts[k] in attempts && attempts[k].item in states[0].assets;
    }
  }

  /** Tables change exactly with the attempts after which the row is gone. */
  lemma FailureChangesNothing(overrideLastDc: bool, attempts: seq<Attempt>, states: seq<Db>, k: nat)
    requires IsTrace(overrideLastDc, attempts, states) && k < |attempts|
    ensures states[k + 1] == states[k] <==> !RowGone(ReplyTo(overrideLastDc, states[k], attempts[k]))
  {
    DeleteChanges(states[k], attempts[k].item);
  }

  /** The attempt would be answered Deleted on these tables. */
  predicate Succeeds(overrideLastDc: bool, db: Db, a: Attempt) {
    ReplyTo(overrideLastDc, db, a).Deleted?
  }

  /**
   * Whether an attempt succeeded can be told from the tables at the end, unless a sensor that was deleted
   * before referred to the asset: what could go then can still go, and nothing else.
   */
  lemma OutcomeSeenAtTheEnd(overrideLastDc: bool, attempts: seq<Attempt>, states: seq<Db>, k: nat, n: nat)
    requires IsTrace(overrideLastDc, attempts, states) && k < n <= |attempts| && DistinctIds(states[0].assets)
    ensures Succeeds(overrideLastDc, states[k], attempts[k]) ==> Succeeds(overrideLastDc, states[n], attempts[k])
    ensures Succeeds(overrideLastDc, states[n], attempts[k]) && !IsLogicalAsset(states[0], attempts[k].item.name) ==>
              Succeeds(overrideLastDc, states[k], attempts[k])
  {
    var id := attempts[k].item.id;
    RowsShrink(overrideLastDc, attempts, states, 0, k);
    RowsShrink(overrideLastDc, attempts, states, k, n);
    RowsShrink(overrideLastDc, attempts, states, k + 1, n);
    if Succeeds(overrideLastDc, states[k], attempts[k]) && !overrideLastDc && OtherDatacenter(states[k], id) {
      KeepsDatacenter(states[k], attempts[k].item);
      DatacenterRemains(attempts, states, k + 1, n);
      var dc :| dc in states[n].assets && dc.typ == Datacenter;
      assert dc in states[k + 1].assets && dc.id != id;
    }
  }

  /** One trace after the other is a trace. */
  lemma TracesJoin(overrideLastDc: bool, a1: seq<Attempt>, s1: seq<Db>, a2: seq<Attempt>, s2: seq<Db>)
    requires IsTrace(overrideLastDc, a1, s1) && IsTrace(overrideLastDc, a2, s2) && s1[|a1|] == s2[0]
    ensures IsTrace(overrideLastDc, a1 + a2, s1 + s2[1..])
    ensures (s1 + s2[1..])[|a1 + a2|] == s2[|a2|]
  {
    var attempts, states := a1 + a2, s1 + s2[1..];
    forall k | 0 <= k < |states|
      ensures states[k] == if k < |a1| then s1[k] else s2[k - |a1|]
    {
    }
    forall k | 0 <= k < |attempts|
      ensures attempts[k] == if k < |a1| then a1[k] else a2[k - |a1|]
    {
    }
  }
}
