/** load_asset_csv: retry the rows of a file until a pass imports none. */
module AssetImport {
  import opened Common
  import opened AssetTable

  datatype Note = Failed | Warned(text: string)

  datatype Outcome = Rejected | Done(element: Element, operation: Operation, warning: string)

  // ---------- runs: rows imported one after the other ----------

  /** The state after importing the rows numbered log, oldest first. */
  ghost function After(gen: nat -> string, st: State, data: seq<Row>, log: seq<nat>): State
    requires IsRun(gen, st, data, log)
    decreases |log|, 1
  {
    if log == [] then st
    else
      var init := log[..|log| - 1];
      Apply(gen, After(gen, st, data, init), data[log[|log| - 1]])
  }

  /** Every row of log was acceptable when its turn came. */
  ghost predicate IsRun(gen: nat -> string, st: State, data: seq<Row>, log: seq<nat>)
    decreases |log|, 0
  {
    log == [] ||
    var init, r := log[..|log| - 1], log[|log| - 1];
    r < |data| && IsRun(gen, st, data, init) && Accepts(After(gen, st, data, init), data[r])
  }

  ghost predicate NoRepeats(log: seq<nat>) {
    forall i, j :: 0 <= i < j < |log| ==> log[i] != log[j]
  }

  /** No row outside log is acceptable any more. */
  ghost predicate Stuck(gen: nat -> string, st: State, data: seq<Row>, log: seq<nat>)
    requires IsRun(gen, st, data, log)
  {
    RejectsFirst(After(gen, st, data, log), data, log, |data|)
  }

  /** What a run reports in okRows: its rows without a warning. */
  ghost function Reported(gen: nat -> string, st: State, data: seq<Row>, log: seq<nat>): seq<(Element, Operation)>
    requires IsRun(gen, st, data, log)
  {
    if log == [] then []
    else
      var init, row := log[..|log| - 1], data[log[|log| - 1]];
      Reported(gen, st, data, init) +
      if Warning(row) != "" then []
      else [(Imported(gen, After(gen, st, data, init), row), if row.idStr == "" then INSERT else UPDATE)]
  }

  /** Row numbers, state, reports and bookkeeping all tell of the same run. */
  ghost predicate Consistent(gen: nat -> string, st0: State, data: seq<Row>, log: seq<nat>, st: State,
                             okRows: seq<(Element, Operation)>, processed: set<nat>) {
    && IsRun(gen, st0, data, log) && NoRepeats(log)
    && st == After(gen, st0, data, log)
    && okRows == Reported(gen, st0, data, log)
    && (forall r :: r in processed <==> r in log)
  }

  /** The first n rows outside log are not acceptable in this state. */
  ghost predicate RejectsFirst(st: State, data: seq<Row>, log: seq<nat>, n: nat) {
    forall r: nat :: r < n && r < |data| && r !in log ==> !Accepts(st, data[r])
  }

  /** failRows has exactly the first n rows outside log, each under its line number and none as a mere warning. */
  ghost predicate FailsExactly(failRows: map<nat, Note>, n: nat, log: seq<nat>) {
    && (forall k :: k in failRows <==> 2 <= k < n + 2 && k - 2 !in log)
    && (forall k :: k in failRows ==> failRows[k] == Failed)
  }

  /** The first n rows are settled in this state: imported, or failing and noted as such. */
  ghost predicate Settled(st: State, data: seq<Row>, log: seq<nat>, failRows: map<nat, Note>, n: nat) {
    RejectsFirst(st, data, log, n) && FailsExactly(failRows, n, log)
  }

  lemma OneMoreSettled(st: State, data: seq<Row>, log: seq<nat>, failRows: map<nat, Note>, n: nat)
    requires n < |data| && Settled(st, data, log, failRows, n)
    ensures n in log ==> Settled(st, data, log, failRows, n + 1)
    ensures n !in log && !Accepts(st, data[n]) ==> Settled(st, data, log, failRows[n + 2 := Failed], n + 1)
  {
  }

  lemma RunGrows(gen: nat -> string, st0: State, data: seq<Row>, log: seq<nat>, st: State,
                 okRows: seq<(Element, Operation)>, processed: set<nat>, r: nat)
    requires Consistent(gen, st0, data, log, st, okRows, processed)
    requires r < |data| && r !in processed && Accepts(st, data[r])
    ensures var op := if data[r].idStr == "" then INSERT else UPDATE;
            var reports := if Warning(data[r]) == "" then okRows + [(Imported(gen, st, data[r]), op)] else okRows;
            Consistent(gen, st0, data, log + [r], Apply(gen, st, data[r]), reports, processed + {r})
  {
    assert (log + [r])[..|log|] == log;
  }

  lemma {:induction false} RunStaysInData(gen: nat -> string, st: State, data: seq<Row>, log: seq<nat>)
    requires IsRun(gen, st, data, log)
    ensures forall r :: r in log ==> r < |data|
  {
    if log != [] {
      RunStaysInData(gen, st, data, log[..|log| - 1]);
      assert log == log[..|log| - 1] + [log[|log| - 1]];
    }
  }

  /** A log without repetitions is no longer than the file. */
  lemma {:induction false} LogFits(log: seq<nat>, n: nat)
    requires NoRepeats(log) && forall r :: r in log ==> r < n
    ensures |log| <= n
  {
    if n == 0 {
      assert forall i :: 0 <= i < |log| ==> log[i] in log;
    } else if n - 1 in log {
      var k :| 0 <= k < |log| && log[k] == n - 1;
      var rest := log[..k] + log[k + 1..];
      forall i | 0 <= i < |rest|
        ensures rest[i] < n - 1
      {
        assert rest[i] == log[if i < k then i else i + 1] && rest[i] in log;
      }
      LogFits(rest, n - 1);
    } else {
      LogFits(log, n - 1);
    }
  }

  lemma RunFits(gen: nat -> string, st: State, data: seq<Row>, log: seq<nat>)
    requires IsRun(gen, st, data, log) && NoRepeats(log)
    ensures |log| <= |data|
  {
    RunStaysInData(gen, st, data, log);
    LogFits(log, |data|);
  }

  class Importer {
    var st: State
    const gen: nat -> string

    constructor (db: seq<Element>, nextId: nat, configurable: bool, gen: nat -> string)
      ensures st == State(db, {}, nextId, configurable) && this.gen == gen
    {
      st := State(db, {}, nextId, configurable);
      this.gen := gen;
    }

    /** The group.N loop of process_row: None when some group is not in the table. */
    method ResolveGroups(names: seq<string>) returns (groups: Option<set<nat>>)
      ensures groups.Some? <==> forall g :: g in names && g != "" ==> Lookup(st.db, g).Some?
      ensures groups.Some? ==> groups.value == GroupIds(st.db, names)
    {
      var ids: set<nat> := {};
      for i := 0 to |names|
        invariant ids == GroupIds(st.db, names[..i])
        invariant forall g :: g in names[..i] && g != "" ==> Lookup(st.db, g).Some?
      {
        assert names[..i + 1] == names[..i] + [names[i]];
        ExternalNamesResolve(st.db, names[i]);
        var group := Sanitize(st.db, names[i]);
        // an empty cell names no group
        if group != "" {
          var found := FindByName(st.db, group);
          if found.None? {
            return None;
          }
          ids := ids + {found.value.id};
        }
      }
      assert names[..|names|] == names;
      return Some(ids);
    }

    /** The power_source.N loop of process_row: None when some other power source is not in the table. */
    method ResolveLinks(row: Row) returns (links: Option<seq<Link>>)
      ensures links.Some? <==>
              forall p :: p in row.powers && p.source != row.ename && p.source != "" ==> Lookup(st.db, p.source).Some?
      ensures links.Some? ==> links.value == Links(st.db, row, row.powers)
    {
      var resolved: seq<Link> := [];
      for i := 0 to |row.powers|
        invariant resolved == Links(st.db, row, row.powers[..i])
        invariant forall p :: p in row.powers[..i] && p.source != row.ename && p.source != "" ==>
                    Lookup(st.db, p.source).Some?
      {
        assert row.powers[..i + 1] == row.powers[..i] + [row.powers[i]] && row.powers[..i + 1][..i] == row.powers[..i];
        var power := row.powers[i];
        ExternalNamesResolve(st.db, power.source);
        var source := Sanitize(st.db, power.source);
        // a device that names itself gets no link
        if source != row.ename {
          var src := 0;
          if source != "" {
            var found := FindByName(st.db, source);
            if found.None? {
              return None;
            }
            src := found.value.id;
          }
          if src != 0 && row.typ == "device" {
            resolved := resolved + [Link(src, Cut(power.plug), Cut(power.input))];
          }
        }
      }
      assert row.powers[..|row.powers|] == row.powers;
      return Some(resolved);
    }

    /** The dependency, group, power link and id parts of process_row. */
    method ProcessRow(row: Row) returns (r: Outcome)
      modifies this
      ensures r.Done? <==> Accepts(old(st), row)
      ensures r.Rejected? ==> st == old(st)
      ensures r.Done? ==> st == Apply(gen, old(st), row) && r.element == Imported(gen, old(st), row)
      ensures r.Done? ==> r.operation == (if row.idStr == "" then INSERT else UPDATE) && r.warning == Warning(row)
    {
      r := Rejected;
      ExternalNamesResolve(st.db, row.location);
      if !st.configurable {
        return;
      }
      var target := FindByName(st.db, row.idStr);
      if row.idStr != "" && (target.None? || target.value.id in st.ids) {
        return;
      }
      if !NameOk(row) {
        return;
      }
      var owner := FindByExt(st.db, row.ename);
      if row.idStr != "" && owner.Some? && owner.value.iname != row.idStr {
        return;
      }
      if !row.cellsOk {
        return;
      }
      if Sanitize(st.db, row.location) != "" && Lookup(st.db, row.location).None? {
        return;
      }
      if row.idStr != "" && (target.value.typ != row.typ ||
                             (target.value.subtype != row.subtype && target.value.subtype != "N_A")) {
        return;
      }
      var groups := ResolveGroups(row.groups);
      if groups.None? {
        return;
      }
      var links := ResolveLinks(row);
      if links.None? {
        return;
      }
      if row.logical != "" && Lookup(st.db, row.logical).None? {
        return;
      }
      if row.idStr != "" {
        if row.typ != "device" {
          if row.status == Nonactive {
            return;
          }
        } else if target.value.id == 1 && (row.idStr != RC0 || row.status == Nonactive) {
          return;
        }
        var e := target.value.(ename := row.ename, typ := row.typ, status := StoredStatus(row),
                               parent := ParentId(st.db, row), groups := groups.value);
        if row.typ == "device" {
          e := e.(links := links.value);
        }
        st := st.(db := Replace(st.db, e.id, e), ids := st.ids + {e.id});
        r := Done(e, UPDATE, Warning(row));
      } else {
        if owner.Some? || (row.typ != "device" && row.status == Nonactive) {
          return;
        }
        var e := Element(st.nextId, gen(st.nextId), row.ename, row.typ, row.subtype, StoredStatus(row),
                         ParentId(st.db, row), groups.value, if row.typ == "device" then links.value else []);
        st := st.(db := st.db + [e], nextId := st.nextId + 1);
        r := Done(e, INSERT, Warning(row));
      }
    }

    /**
     * The retry loop. Row r of data is row r + 1 of the file (row 0 holds the titles), reported under r + 2.
     * log records the imported rows in the order they were imported, passes how often the loop ran.
     */
    method Load(data: seq<Row>)
      returns (okRows: seq<(Element, Operation)>, failRows: map<nat, Note>, ghost log: seq<nat>, passes: nat)
      modifies this
      ensures IsRun(gen, old(st), data, log) && NoRepeats(log)
      ensures st == After(gen, old(st), data, log)
      ensures Stuck(gen, old(st), data, log)
      ensures okRows == Reported(gen, old(st), data, log)
      ensures FailsExactly(failRows, |data|, log)
      ensures 1 <= passes <= |data| + 1
    {
      okRows, failRows, log, passes := [], map[], [], 0;
      var processedRows: set<nat> := {};
      ghost var st0 := st;
      var somethingProcessed := true;
      while somethingProcessed
        invariant Consistent(gen, st0, data, log, st, okRows, processedRows)
        invariant |log| <= |data|
        invariant !somethingProcessed ==> Settled(st, data, log, failRows, |data|)
        invariant passes <= |log| + (if somethingProcessed then 0 else 1)
        invariant passes == 0 ==> somethingProcessed
        decreases somethingProcessed, |data| - |log|
      {
        somethingProcessed := false;
        failRows := map[];
        passes := passes + 1;
        ghost var before := |log|;
        for r := 0 to |data|
          invariant Consistent(gen, st0, data, log, st, okRows, processedRows)
          invariant |log| >= before && (somethingProcessed <==> |log| > before)
          invariant !somethingProcessed ==> Settled(st, data, log, failRows, r)
        {
          ghost var pre := st;
          if !somethingProcessed {
            OneMoreSettled(st, data, log, failRows, r);
          }
          if r in processedRows {
            continue;
          }
          var outcome := ProcessRow(data[r]);
          if outcome.Rejected? {
            failRows := failRows[r + 2 := Failed];
            continue;
          }
          RunGrows(gen, st0, data, log, pre, okRows, processedRows, r);
          if outcome.warning == "" {
            okRows := okRows + [(outcome.element, outcome.operation)];
          } else {
            failRows := failRows[r + 2 := Warned(outcome.warning)];
          }
          somethingProcessed := true;
          processedRows := processedRows + {r};
          log := log + [r];
        }
        RunFits(gen, st0, data, log);
      }
    }
  }
}
