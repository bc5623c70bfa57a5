/** What every import run achieves, whatever order the rows were retried in. */
module AssetFixpoint {
  import opened Common
  import opened AssetTable
  import opened AssetImport

  // ---------- insert-only files: the least closed set of rows ----------

  function RowSet(data: seq<Row>): set<Row> {
    set row | row in data
  }

  ghost function ImportedRows(data: seq<Row>, log: seq<nat>): set<Row> {
    set r | r in log && r < |data| :: data[r]
  }

  /** Accepted if its references were there: nothing but the row itself and the old table decides. */
  ghost predicate Importable(st0: State, row: Row) {
    st0.configurable && NameOk(row) && row.cellsOk && InsertAllowed(st0, row)
  }

  ghost predicate NamedBy(rows: set<Row>, v: string) {
    exists row :: row in rows && row.ename == v
  }

  /** v is one of the first k internal names the database invents from now on. */
  ghost predicate Invented(gen: nat -> string, st0: State, k: nat, v: string) {
    exists n: nat :: st0.nextId <= n < st0.nextId + k && gen(n) == v
  }

  /** v names an old element, a row of S, or an element invented while S was inserted. */
  ghost predicate Covered(gen: nat -> string, st0: State, S: set<Row>, v: string) {
    Known(st0.db, v) || NamedBy(S, v) || Invented(gen, st0, |S|, v)
  }

  ghost predicate ReferencesCovered(gen: nat -> string, st0: State, S: set<Row>, row: Row) {
    forall v :: v in References(row) ==> Covered(gen, st0, S, v)
  }

  /** Everything that could still be imported on top of S is in S. */
  ghost predicate Closed(gen: nat -> string, st0: State, rows: set<Row>, S: set<Row>) {
    forall row :: row in rows && Importable(st0, row) && ReferencesCovered(gen, st0, S, row) ==> row in S
  }

  ghost predicate LeastClosed(gen: nat -> string, st0: State, rows: set<Row>, S: set<Row>) {
    Closed(gen, st0, rows, S) && forall T :: Closed(gen, st0, rows, T) ==> S <= T
  }

  /** No row has an id and no two rows share a name. */
  ghost predicate InsertOnly(data: seq<Row>) {
    && (forall row :: row in data ==> row.idStr == "")
    && (forall i, j :: 0 <= i < j < |data| ==> data[i].ename != data[j].ename)
  }

  lemma KnownInExtended(db: seq<Element>, e: Element, v: string)
    ensures Known(db + [e], v) <==> Known(db, v) || e.ename == v || e.iname == v
  {
    assert e in db + [e];
    if Known(db, v) {
      var d :| d in db && (d.ename == v || d.iname == v);
      assert d in db + [e];
    }
  }

  lemma FoundInExtended(db: seq<Element>, e: Element, name: string)
    ensures FindByExt(db + [e], name).None? <==> FindByExt(db, name).None? && e.ename != name
  {
    FindByExtFinds(db, name);
    FindByExtFinds(db + [e], name);
    assert e in db + [e];
    assert forall d :: d in db ==> d in db + [e];
  }

  lemma ImportedGrow(data: seq<Row>, log: seq<nat>)
    requires log != [] && log[|log| - 1] < |data|
    ensures ImportedRows(data, log) == ImportedRows(data, log[..|log| - 1]) + {data[log[|log| - 1]]}
  {
    assert log == log[..|log| - 1] + [log[|log| - 1]];
  }

  /** Distinct row numbers import distinct rows. */
  lemma NameNotTaken(data: seq<Row>, log: seq<nat>, r: nat)
    requires InsertOnly(data) && r < |data| && r !in log
    ensures !NamedBy(ImportedRows(data, log), data[r].ename)
    ensures data[r] !in ImportedRows(data, log)
  {
    assert forall q :: q in log && q < |data| ==> data[q].ename != data[r].ename;
  }

  lemma CoveredGrows(gen: nat -> string, st0: State, P: set<Row>, row: Row, v: string)
    requires row !in P
    ensures Covered(gen, st0, P + {row}, v) <==>
            Covered(gen, st0, P, v) || row.ename == v || gen(st0.nextId + |P|) == v
  {
    NamedByGrows(P, row, v);
    assert |P + {row}| == |P| + 1;
    var next: nat := st0.nextId + |P|;
    assert Invented(gen, st0, |P| + 1, v) <==> Invented(gen, st0, |P|, v) || gen(next) == v;
  }

  lemma NamedByGrows(P: set<Row>, row: Row, v: string)
    ensures NamedBy(P + {row}, v) <==> NamedBy(P, v) || row.ename == v
  {
    assert row in P + {row};
    assert forall p :: p in P ==> p in P + {row};
  }

  lemma {:induction false} CountersAfter(gen: nat -> string, st0: State, data: seq<Row>, log: seq<nat>)
    requires InsertOnly(data) && IsRun(gen, st0, data, log) && NoRepeats(log)
    ensures var st := After(gen, st0, data, log);
            st.configurable == st0.configurable && st.nextId == st0.nextId + |ImportedRows(data, log)|
  {
    if log != [] {
      CountersAfter(gen, st0, data, log[..|log| - 1]);
      ImportedGrow(data, log);
      NameNotTaken(data, log[..|log| - 1], log[|log| - 1]);
      assert data[log[|log| - 1]] in data;
    }
  }

  /** The table after an insert-only run: the old names, the imported names and the invented ones. */
  lemma {:induction false} NamesAfter(gen: nat -> string, st0: State, data: seq<Row>, log: seq<nat>, v: string)
    requires InsertOnly(data) && IsRun(gen, st0, data, log) && NoRepeats(log)
    ensures Known(After(gen, st0, data, log).db, v) <==> Covered(gen, st0, ImportedRows(data, log), v)
  {
    if log != [] {
      var init, row := log[..|log| - 1], data[log[|log| - 1]];
      var st := After(gen, st0, data, init);
      assert row in data;
      NamesAfter(gen, st0, data, init, v);
      CountersAfter(gen, st0, data, init);
      ImportedGrow(data, log);
      NameNotTaken(data, init, log[|log| - 1]);
      CoveredGrows(gen, st0, ImportedRows(data, init), row, v);
      KnownInExtended(st.db, Imported(gen, st, row), v);
    }
  }

  lemma {:induction false} ExternalNamesAfter(gen: nat -> string, st0: State, data: seq<Row>, log: seq<nat>, v: string)
    requires InsertOnly(data) && IsRun(gen, st0, data, log) && NoRepeats(log)
    ensures FindByExt(After(gen, st0, data, log).db, v).None? <==>
            FindByExt(st0.db, v).None? && !NamedBy(ImportedRows(data, log), v)
  {
    if log != [] {
      var init, row := log[..|log| - 1], data[log[|log| - 1]];
      var st := After(gen, st0, data, init);
      assert row in data;
      ExternalNamesAfter(gen, st0, data, init, v);
      ImportedGrow(data, log);
      NamedByGrows(ImportedRows(data, init), row, v);
      FoundInExtended(st.db, Imported(gen, st, row), v);
    }
  }

  lemma MetAfter(gen: nat -> string, st0: State, data: seq<Row>, log: seq<nat>, row: Row)
    requires InsertOnly(data) && IsRun(gen, st0, data, log) && NoRepeats(log) && row in data
    ensures ReferencesMet(After(gen, st0, data, log).db, row) <==>
            ReferencesCovered(gen, st0, ImportedRows(data, log), row)
  {
    var db := After(gen, st0, data, log).db;
    forall v | v in References(row)
      ensures Lookup(db, v).Some? <==> Covered(gen, st0, ImportedRows(data, log), v)
    {
      LookupFindsKnown(db, v);
      NamesAfter(gen, st0, data, log, v);
    }
  }

  lemma SmallerSet(S: set<Row>, T: set<Row>)
    requires S <= T
    ensures |S| <= |T|
  {
    assert T == S + (T - S);
  }

  lemma CoveredByMore(gen: nat -> string, st0: State, S: set<Row>, T: set<Row>, row: Row)
    requires S <= T && ReferencesCovered(gen, st0, S, row)
    ensures ReferencesCovered(gen, st0, T, row)
  {
    SmallerSet(S, T);
    forall v | v in References(row)
      ensures Covered(gen, st0, T, v)
    {
      if NamedBy(S, v) {
        var s :| s in S && s.ename == v;
        assert s in T;
      }
    }
  }

  /** An imported row was importable from the start and needed only rows imported before it. */
  lemma {:induction false} RunStaysInClosed(gen: nat -> string, st0: State, data: seq<Row>, log: seq<nat>, T: set<Row>)
    requires InsertOnly(data) && IsRun(gen, st0, data, log) && NoRepeats(log) && Closed(gen, st0, RowSet(data), T)
    ensures ImportedRows(data, log) <= T
  {
    if log != [] {
      var init, row := log[..|log| - 1], data[log[|log| - 1]];
      assert row in data;
      RunStaysInClosed(gen, st0, data, init, T);
      ImportedGrow(data, log);
      CountersAfter(gen, st0, data, init);
      ExternalNamesAfter(gen, st0, data, init, row.ename);
      MetAfter(gen, st0, data, init, row);
      CoveredByMore(gen, st0, ImportedRows(data, init), T, row);
    }
  }

  /** When no row is left that could be imported, the imported ones are closed. */
  lemma StuckIsClosed(gen: nat -> string, st0: State, data: seq<Row>, log: seq<nat>)
    requires InsertOnly(data) && IsRun(gen, st0, data, log) && NoRepeats(log) && Stuck(gen, st0, data, log)
    ensures Closed(gen, st0, RowSet(data), ImportedRows(data, log))
  {
    forall row | row in data && Importable(st0, row) && ReferencesCovered(gen, st0, ImportedRows(data, log), row)
      ensures row in ImportedRows(data, log)
    {
      var r :| 0 <= r < |data| && data[r] == row;
      if r !in log {
        MetAfter(gen, st0, data, log, row);
        CountersAfter(gen, st0, data, log);
        ExternalNamesAfter(gen, st0, data, log, row.ename);
        NameNotTaken(data, log, r);
      }
    }
  }

  /** The import of an insert-only file is the least set of rows closed under "every reference is there". */
  lemma ImportIsLeastFixpoint(gen: nat -> string, st0: State, data: seq<Row>, log: seq<nat>)
    requires InsertOnly(data) && IsRun(gen, st0, data, log) && NoRepeats(log) && Stuck(gen, st0, data, log)
    ensures LeastClosed(gen, st0, RowSet(data), ImportedRows(data, log))
  {
    StuckIsClosed(gen, st0, data, log);
    forall T | Closed(gen, st0, RowSet(data), T)
      ensures ImportedRows(data, log) <= T
    {
      RunStaysInClosed(gen, st0, data, log, T);
    }
  }

  /** So two files with the same rows in any order, retried in any order, import the same rows. */
  lemma ImportOrderIsIrrelevant(gen: nat -> string, st0: State, data: seq<Row>, log: seq<nat>,
                                data': seq<Row>, log': seq<nat>)
    requires InsertOnly(data) && IsRun(gen, st0, data, log) && NoRepeats(log) && Stuck(gen, st0, data, log)
    requires InsertOnly(data') && IsRun(gen, st0, data', log') && NoRepeats(log') && Stuck(gen, st0, data', log')
    requires RowSet(data) == RowSet(data')
    ensures ImportedRows(data, log) == ImportedRows(data', log')
  {
    StuckIsClosed(gen, st0, data, log);
    StuckIsClosed(gen, st0, data', log');
    RunStaysInClosed(gen, st0, data, log, ImportedRows(data', log'));
    RunStaysInClosed(gen, st0, data', log', ImportedRows(data, log));
  }

  /** And leave a table in which the same names resolve. */
  lemma FinalNamesAgree(gen: nat -> string, st0: State, data: seq<Row>, log: seq<nat>,
                        data': seq<Row>, log': seq<nat>, v: string)
    requires InsertOnly(data) && IsRun(gen, st0, data, log) && NoRepeats(log) && Stuck(gen, st0, data, log)
    requires InsertOnly(data') && IsRun(gen, st0, data', log') && NoRepeats(log') && Stuck(gen, st0, data', log')
    requires RowSet(data) == RowSet(data')
    ensures Known(After(gen, st0, data, log).db, v) <==> Known(After(gen, st0, data', log').db, v)
  {
    ImportOrderIsIrrelevant(gen, st0, data, log, data', log');
    NamesAfter(gen, st0, data, log, v);
    NamesAfter(gen, st0, data', log', v);
  }

  // ---------- every file ----------

  /** What the k-th import of a run wrote, and how. */
  ghost function WrittenAt(gen: nat -> string, st0: State, data: seq<Row>, log: seq<nat>, k: nat): (Element, Operation)
    requires IsRun(gen, st0, data, log) && k < |log|
    decreases |log|
  {
    var init, row := log[..|log| - 1], data[log[|log| - 1]];
    if k < |log| - 1 then WrittenAt(gen, st0, data, init, k)
    else (Imported(gen, After(gen, st0, data, init), row), if row.idStr == "" then INSERT else UPDATE)
  }

  ghost function WrittenId(gen: nat -> string, st0: State, data: seq<Row>, log: seq<nat>, k: nat): nat
    requires IsRun(gen, st0, data, log) && k < |log|
  {
    WrittenAt(gen, st0, data, log, k).0.id
  }

  lemma {:induction false} UpdatedIdsAreRemembered(
      gen: nat -> string, st0: State, data: seq<Row>, log: seq<nat>, k: nat)
    requires IsRun(gen, st0, data, log) && k < |log|
    ensures log[k] < |data|
    ensures data[log[k]].idStr != "" ==> WrittenId(gen, st0, data, log, k) in After(gen, st0, data, log).ids
    decreases |log|
  {
    if k < |log| - 1 {
      UpdatedIdsAreRemembered(gen, st0, data, log[..|log| - 1], k);
    }
  }

  /** No element is updated twice in one import. */
  lemma {:induction false} NoElementUpdatedTwice(
      gen: nat -> string, st0: State, data: seq<Row>, log: seq<nat>, i: nat, j: nat)
    requires IsRun(gen, st0, data, log) && i < j < |log|
    requires log[i] < |data| && log[j] < |data|
    requires data[log[i]].idStr != "" && data[log[j]].idStr != ""
    ensures WrittenId(gen, st0, data, log, i) != WrittenId(gen, st0, data, log, j)
    decreases |log|
  {
    var init := log[..|log| - 1];
    if j == |log| - 1 {
      UpdatedIdsAreRemembered(gen, st0, data, init, i);
    } else {
      NoElementUpdatedTwice(gen, st0, data, init, i, j);
    }
  }

  /** Ids, internal names and external names are unique, and new ids bring new internal names. */
  ghost predicate UniqueKeys(gen: nat -> string, st: State) {
    && (forall i, j :: 0 <= i < j < |st.db| ==>
          st.db[i].id != st.db[j].id && st.db[i].iname != st.db[j].iname && st.db[i].ename != st.db[j].ename)
    && (forall e :: e in st.db ==> e.id < st.nextId)
    && (forall e, n: nat :: e in st.db && n >= st.nextId ==> e.iname != gen(n))
    && (forall m: nat, n: nat :: m < n ==> gen(m) != gen(n))
  }

  lemma InsertKeepsKeys(gen: nat -> string, st: State, row: Row)
    requires UniqueKeys(gen, st) && Accepts(st, row) && row.idStr == ""
    ensures UniqueKeys(gen, Apply(gen, st, row))
  {
    FindByExtFinds(st.db, row.ename);
    var e := Imported(gen, st, row);
    var db := st.db + [e];
    forall i, j | 0 <= i < j < |db|
      ensures db[i].id != db[j].id && db[i].iname != db[j].iname && db[i].ename != db[j].ename
    {
      assert db[i] in st.db;
    }
  }

  lemma UpdateKeepsKeys(gen: nat -> string, st: State, row: Row)
    requires UniqueKeys(gen, st) && Accepts(st, row) && row.idStr != ""
    ensures UniqueKeys(gen, Apply(gen, st, row))
  {
    var was, owner := FindByName(st.db, row.idStr).value, FindByExt(st.db, row.ename);
    FindByNameFinds(st.db, row.idStr);
    FindByExtFinds(st.db, row.ename);
    var e := Imported(gen, st, row);
    var k :| 0 <= k < |st.db| && st.db[k] == was;
    assert e.id == was.id && e.iname == was.iname && e.ename == row.ename;
    forall i | 0 <= i < |st.db| && i != k
      ensures st.db[i].ename != row.ename
    {
      assert st.db[i] in st.db;
    }
    ReplacingKeepsKeys(gen, st, k, e, Apply(gen, st, row));
  }

  lemma ReplacingKeepsKeys(gen: nat -> string, st: State, k: nat, e: Element, st': State)
    requires UniqueKeys(gen, st) && k < |st.db| && st'.db == Replace(st.db, e.id, e) && st'.nextId == st.nextId
    requires e.id == st.db[k].id && e.iname == st.db[k].iname
    requires forall i :: 0 <= i < |st.db| && i != k ==> st.db[i].ename != e.ename
    ensures UniqueKeys(gen, st')
  {
    forall i | 0 <= i < |st'.db|
      ensures st'.db[i] == if i == k then e else st.db[i]
      ensures st'.db[i].id == st.db[i].id && st'.db[i].iname == st.db[i].iname && st.db[i] in st.db
    {
    }
  }

  /** Every import keeps them so: no two elements ever share a name. */
  lemma {:induction false} KeysStayUnique(gen: nat -> string, st0: State, data: seq<Row>, log: seq<nat>)
    requires UniqueKeys(gen, st0) && IsRun(gen, st0, data, log)
    ensures UniqueKeys(gen, After(gen, st0, data, log))
  {
    if log != [] {
      var init, row := log[..|log| - 1], data[log[|log| - 1]];
      KeysStayUnique(gen, st0, data, init);
      if row.idStr == "" {
        InsertKeepsKeys(gen, After(gen, st0, data, init), row);
      } else {
        UpdateKeepsKeys(gen, After(gen, st0, data, init), row);
      }
    }
  }

  // ---------- what is reported ----------

  /** Inserts take ever higher ids. */
  lemma {:induction false} InsertedIdsGrow(gen: nat -> string, st0: State, data: seq<Row>, log: seq<nat>, k: nat)
    requires IsRun(gen, st0, data, log) && k < |log|
    ensures log[k] < |data|
    ensures data[log[k]].idStr == "" <==> WrittenAt(gen, st0, data, log, k).1 == INSERT
    ensures data[log[k]].idStr == "" ==>
              WrittenId(gen, st0, data, log, k) < After(gen, st0, data, log).nextId
    decreases |log|
  {
    if k < |log| - 1 {
      InsertedIdsGrow(gen, st0, data, log[..|log| - 1], k);
    }
  }

  /** No two imports of a run report the same pair. */
  lemma {:induction false} WrittenPairsDiffer(
      gen: nat -> string, st0: State, data: seq<Row>, log: seq<nat>, i: nat, j: nat)
    requires IsRun(gen, st0, data, log) && i < j < |log|
    ensures WrittenAt(gen, st0, data, log, i) != WrittenAt(gen, st0, data, log, j)
    decreases |log|
  {
    var init := log[..|log| - 1];
    if j < |log| - 1 {
      WrittenPairsDiffer(gen, st0, data, init, i, j);
    } else {
      InsertedIdsGrow(gen, st0, data, init, i);
      InsertedIdsGrow(gen, st0, data, log, j);
      if data[log[i]].idStr != "" && data[log[j]].idStr != "" {
        NoElementUpdatedTwice(gen, st0, data, log, i, j);
      }
    }
  }

  /** The positions of the imports that raised no warning, oldest first. */
  ghost function Unwarned(data: seq<Row>, log: seq<nat>): (at: seq<nat>)
    requires forall k :: 0 <= k < |log| ==> log[k] < |data|
    ensures forall k: nat :: k in at <==> k < |log| && Warning(data[log[k]]) == ""
    ensures forall i, j :: 0 <= i < j < |at| ==> at[i] < at[j]
    ensures forall i :: 0 <= i < |at| ==> at[i] < |log|
  {
    if log == [] then []
    else
      var k: nat := |log| - 1;
      assert log == log[..k] + [log[k]];
      Unwarned(data, log[..k]) + if Warning(data[log[k]]) == "" then [k] else []
  }

  /** The reports are what was written at these positions of the log. */
  ghost predicate WrittenThere(gen: nat -> string, st0: State, data: seq<Row>, log: seq<nat>,
                               reported: seq<(Element, Operation)>, at: seq<nat>)
    requires IsRun(gen, st0, data, log)
  {
    |reported| == |at| &&
    forall i :: 0 <= i < |at| ==> at[i] < |log| && reported[i] == WrittenAt(gen, st0, data, log, at[i])
  }

  lemma StillWrittenThere(gen: nat -> string, st0: State, data: seq<Row>, log: seq<nat>,
                          reported: seq<(Element, Operation)>, at: seq<nat>)
    requires log != [] && IsRun(gen, st0, data, log)
    requires WrittenThere(gen, st0, data, log[..|log| - 1], reported, at)
    ensures WrittenThere(gen, st0, data, log, reported, at)
  {
  }

  /** okRows holds the imports without a warning, in the order in which they were written. */
  lemma {:induction false} ReportedAreUnwarned(gen: nat -> string, st0: State, data: seq<Row>, log: seq<nat>)
    requires IsRun(gen, st0, data, log)
    ensures forall k :: 0 <= k < |log| ==> log[k] < |data|
    ensures WrittenThere(gen, st0, data, log, Reported(gen, st0, data, log), Unwarned(data, log))
  {
    if log != [] {
      var init := log[..|log| - 1];
      ReportedAreUnwarned(gen, st0, data, init);
      assert forall k :: 0 <= k < |init| ==> init[k] == log[k];
      StillWrittenThere(gen, st0, data, log, Reported(gen, st0, data, init), Unwarned(data, init));
    }
  }

  /** An imported row is in okRows if and only if it raised no warning, and in failRows it is never. */
  lemma WarnedRowsAreUnreported(
      gen: nat -> string, st0: State, data: seq<Row>, log: seq<nat>, failRows: map<nat, Note>, k: nat)
    requires IsRun(gen, st0, data, log) && k < |log| && FailsExactly(failRows, |data|, log)
    ensures log[k] < |data|
    ensures WrittenAt(gen, st0, data, log, k) in Reported(gen, st0, data, log) <==> Warning(data[log[k]]) == ""
    ensures log[k] + 2 !in failRows
  {
    ReportedAreUnwarned(gen, st0, data, log);
    var reported, at := Reported(gen, st0, data, log), Unwarned(data, log);
    forall i | 0 <= i < |at| && at[i] != k
      ensures reported[i] != WrittenAt(gen, st0, data, log, k)
    {
      assert at[i] in at;
      if at[i] < k {
        WrittenPairsDiffer(gen, st0, data, log, at[i], k);
      } else {
        WrittenPairsDiffer(gen, st0, data, log, k, at[i]);
      }
    }
    if Warning(data[log[k]]) == "" {
      assert k in at;
      var i :| 0 <= i < |at| && at[i] == k;
      assert reported[i] in reported;
    }
  }

  /** A file of one active device whose activation fails: the device is stored and neither result mentions it. */
  lemma WarnedRowExample(gen: nat -> string)
    ensures var row := Row("", "ups", "device", "ups", Active, true, "", [], [], "", "no licence");
            var st0 := State([], {}, 1, true);
            && Warning(row) != "" && IsRun(gen, st0, [row], [0]) && Stuck(gen, st0, [row], [0])
            && |After(gen, st0, [row], [0]).db| == 1
            && Reported(gen, st0, [row], [0]) == [] && FailsExactly(map[], 1, [0])
  {
    var row := Row("", "ups", "device", "ups", Active, true, "", [], [], "", "no licence");
    var st0 := State([], {}, 1, true);
    assert References(row) == {};
    assert IsRun(gen, st0, [row], []) && After(gen, st0, [row], []) == st0;
    assert [0][..0] == [];
    assert Accepts(st0, row);
    assert 0 in [0];
  }
}
