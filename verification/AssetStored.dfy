/** What an imported row stores, told over the rows of the table and the cells of the row alone. */
module AssetStored {
  import opened Common
  import opened AssetTable
  import opened AssetImport
  import opened AssetFixpoint

  /** The cell names e: by the external name or, when no element has that one, by the internal name. */
  ghost predicate Names(db: seq<Element>, cell: string, e: Element) {
    && e in db && e.iname != ""
    && (e.ename == cell || (e.iname == cell && forall d :: d in db ==> d.ename != cell))
  }

  lemma NamesOne(gen: nat -> string, st: State, cell: string, e: Element)
    requires UniqueKeys(gen, st) && Names(st.db, cell, e)
    ensures forall d :: Names(st.db, cell, d) ==> d == e
    ensures Sanitize(st.db, cell) == e.iname && Lookup(st.db, cell) == Some(e)
  {
    FindByExtFinds(st.db, cell);
    FindByNameFinds(st.db, e.iname);
  }

  lemma NamesNone(st: State, cell: string)
    requires forall e :: !Names(st.db, cell, e)
    ensures Sanitize(st.db, cell) == "" || (Sanitize(st.db, cell) == cell && Lookup(st.db, cell).None?)
  {
    ExternalNamesResolve(st.db, cell);
    var name := Sanitize(st.db, cell);
    FindByExtFinds(st.db, cell);
    FindByNameFinds(st.db, name);
    if name != "" && Lookup(st.db, cell).Some? {
      var e := if FindByExt(st.db, cell).Some? then FindByExt(st.db, cell).value else Lookup(st.db, cell).value;
      assert Names(st.db, cell, e);
    }
  }

  // ---------- which rows are imported ----------

  ghost predicate NamesSomething(db: seq<Element>, cell: string) {
    exists e :: e in db && (e.ename == cell || e.iname == cell)
  }

  /** The cells that must name an element are there: location, logical asset, groups, other power sources. */
  lemma ReferencesMean(db: seq<Element>, row: Row)
    ensures ReferencesMet(db, row) <==>
            && (row.location != "" ==> NamesSomething(db, row.location))
            && (row.logical != "" ==> NamesSomething(db, row.logical))
            && (forall g :: g in row.groups && g != "" ==> NamesSomething(db, g))
            && (forall p :: p in row.powers && p.source != "" && p.source != row.ename ==> NamesSomething(db, p.source))
  {
    forall v
      ensures Lookup(db, v).Some? <==> NamesSomething(db, v)
    {
      LookupFindsKnown(db, v);
    }
    assert forall v :: v in References(row) <==>
                       v != "" && (v == row.location || v == row.logical || v in row.groups
                                   || exists p :: p in row.powers && p.source == v && v != row.ename);
  }

  /** A new element needs a free external name, and only devices may be nonactive. */
  lemma InsertAllowedMeans(st: State, row: Row)
    ensures InsertAllowed(st, row) <==>
            (forall e :: e in st.db ==> e.ename != row.ename) && (row.status == Nonactive ==> row.typ == "device")
  {
    FindByExtFinds(st.db, row.ename);
  }

  /** The element with the id, if the row may update it. */
  ghost predicate Updatable(st: State, row: Row, e: Element) {
    && e in st.db && e.iname == row.idStr && e.id !in st.ids
    && e.typ == row.typ && (e.subtype == row.subtype || e.subtype == "N_A")
    && (forall d :: d in st.db && d.ename == row.ename ==> d == e)
    && (row.status == Nonactive ==> row.typ == "device" && e.id != 1)
    && (row.typ == "device" && e.id == 1 ==> row.idStr == "rackcontroller-0")
  }

  lemma UpdateAllowedMeans(gen: nat -> string, st: State, row: Row)
    requires UniqueKeys(gen, st)
    ensures UpdateAllowed(st, row) <==> exists e :: Updatable(st, row, e)
    ensures forall e :: Updatable(st, row, e) ==> FindByName(st.db, row.idStr) == Some(e)
  {
    FindByNameFinds(st.db, row.idStr);
    FindByExtFinds(st.db, row.ename);
    var target := FindByName(st.db, row.idStr);
    if target.Some? {
      assert UpdateAllowed(st, row) <==> Updatable(st, row, target.value);
    }
  }

  /** A row is imported if and only if all of this holds of its cells and the table. */
  lemma AcceptsMeans(gen: nat -> string, st: State, row: Row)
    requires UniqueKeys(gen, st)
    ensures Accepts(st, row) <==>
            && st.configurable && 1 <= |row.ename| <= 50 && row.cellsOk
            && (row.location != "" ==> NamesSomething(st.db, row.location))
            && (row.logical != "" ==> NamesSomething(st.db, row.logical))
            && (forall g :: g in row.groups && g != "" ==> NamesSomething(st.db, g))
            && (forall p :: p in row.powers && p.source != "" && p.source != row.ename ==>
                  NamesSomething(st.db, p.source))
            && if row.idStr == "" then (forall e :: e in st.db ==> e.ename != row.ename)
                                       && (row.status == Nonactive ==> row.typ == "device")
               else exists e :: Updatable(st, row, e)
  {
    ReferencesMean(st.db, row);
    InsertAllowedMeans(st, row);
    UpdateAllowedMeans(gen, st, row);
  }

  // ---------- what they store ----------

  /** The element that the location names is the parent; 0 when it names none. */
  ghost predicate StoresParent(db: seq<Element>, row: Row, parent: nat) {
    && (forall e :: Names(db, row.location, e) ==> parent == e.id)
    && ((forall e :: !Names(db, row.location, e)) ==> parent == 0)
  }

  /** The elements that the group cells name, and no others. */
  ghost predicate StoresGroups(db: seq<Element>, row: Row, groups: set<nat>) {
    forall id :: id in groups <==> exists g, e :: g in row.groups && Names(db, g, e) && e.id == id
  }

  /** The power source names e, another element than the row itself. */
  ghost predicate Feeds(db: seq<Element>, row: Row, p: Power, e: Element) {
    Names(db, p.source, e) && e.iname != row.ename && e.id != 0
  }

  ghost predicate IsFed(db: seq<Element>, row: Row, p: Power) {
    exists e :: Feeds(db, row, p, e)
  }

  /** The first four characters of the cell, if the column is there. */
  ghost predicate IsCut(cell: Option<string>, stored: Option<string>) {
    match cell
    case None => stored == None
    case Some(s) => stored.Some? && stored.value <= s && |stored.value| == (if |s| < 4 then |s| else 4)
  }

  ghost predicate StoresLink(db: seq<Element>, row: Row, p: Power, l: Link) {
    && (exists e :: Feeds(db, row, p, e) && l.src == e.id)
    && IsCut(p.plug, l.srcOut) && IsCut(p.input, l.destIn)
  }

  /** One link for each power source of a device that names another element, in the order of the columns. */
  ghost predicate StoresLinks(db: seq<Element>, row: Row, n: nat, links: seq<Link>, at: seq<nat>) {
    && |at| == |links|
    && (forall i, j :: 0 <= i < j < |at| ==> at[i] < at[j])
    && (forall k: nat :: k in at <==>
          k < n && k < |row.powers| && row.typ == "device" && IsFed(db, row, row.powers[k]))
    && (forall i :: 0 <= i < |at| ==>
          at[i] < n && at[i] < |row.powers| && StoresLink(db, row, row.powers[at[i]], links[i]))
  }

  /** A device is stored nonactive, except rackcontroller-0, a new rack controller, and a new spare or retired one. */
  ghost predicate StoresStatus(row: Row, status: Status) {
    if row.typ == "device" && row.idStr != "rackcontroller-0" &&
       (row.idStr != "" || (row.status == Active && row.subtype != "rackcontroller"))
    then status == Nonactive
    else status == row.status
  }

  lemma ParentIsStored(gen: nat -> string, st: State, row: Row)
    requires UniqueKeys(gen, st) && Accepts(st, row)
    ensures StoresParent(st.db, row, ParentId(st.db, row))
    ensures row.location == "" && (forall e :: e in st.db ==> e.ename != "") ==> ParentId(st.db, row) == 0
  {
    if e :| Names(st.db, row.location, e) {
      NamesOne(gen, st, row.location, e);
    } else {
      NamesNone(st, row.location);
    }
  }

  lemma GroupsAreStored(gen: nat -> string, st: State, row: Row)
    requires UniqueKeys(gen, st) && Accepts(st, row)
    ensures StoresGroups(st.db, row, GroupIds(st.db, row.groups))
  {
    forall g | g in row.groups
      ensures Sanitize(st.db, g) != "" <==> exists e :: Names(st.db, g, e)
      ensures forall e :: Names(st.db, g, e) ==> IdOf(st.db, g) == e.id
    {
      GroupIsStored(gen, st, row, g);
    }
    forall id | id in GroupIds(st.db, row.groups)
      ensures exists g, e :: g in row.groups && Names(st.db, g, e) && e.id == id
    {
      var g :| g in row.groups && Sanitize(st.db, g) != "" && IdOf(st.db, g) == id;
      var e :| Names(st.db, g, e);
    }
  }

  lemma GroupIsStored(gen: nat -> string, st: State, row: Row, g: string)
    requires UniqueKeys(gen, st) && Accepts(st, row) && g in row.groups
    ensures Sanitize(st.db, g) != "" <==> exists e :: Names(st.db, g, e)
    ensures forall e :: Names(st.db, g, e) ==> IdOf(st.db, g) == e.id
  {
    if e :| Names(st.db, g, e) {
      NamesOne(gen, st, g, e);
    } else {
      NamesNone(st, g);
      ReferencesMean(st.db, row);
      LookupFindsKnown(st.db, g);
    }
  }

  /** Whether and what one power source stores. */
  lemma LinkIsStored(gen: nat -> string, st: State, row: Row, p: Power)
    requires UniqueKeys(gen, st) && Accepts(st, row) && p in row.powers
    ensures var source := Sanitize(st.db, p.source);
            source == "" || source == row.ename || IdOf(st.db, p.source) == 0 <==> !IsFed(st.db, row, p)
    ensures forall e :: Feeds(st.db, row, p, e) ==>
              StoresLink(st.db, row, p, Link(IdOf(st.db, p.source), Cut(p.plug), Cut(p.input)))
  {
    if e :| Names(st.db, p.source, e) {
      NamesOne(gen, st, p.source, e);
      if Feeds(st.db, row, p, e) {
        assert IsCut(p.plug, Cut(p.plug)) && IsCut(p.input, Cut(p.input));
      }
    } else {
      NamesNone(st, p.source);
    }
  }

  lemma OneMoreLink(db: seq<Element>, row: Row, n: nat, links: seq<Link>, at: seq<nat>, l: Link)
    requires 0 < n <= |row.powers| && StoresLinks(db, row, n - 1, links, at)
    requires row.typ == "device" && StoresLink(db, row, row.powers[n - 1], l)
    ensures StoresLinks(db, row, n, links + [l], at + [n - 1])
  {
  }

  lemma NoMoreLink(db: seq<Element>, row: Row, n: nat, links: seq<Link>, at: seq<nat>)
    requires 0 < n <= |row.powers| && StoresLinks(db, row, n - 1, links, at)
    requires !(row.typ == "device" && IsFed(db, row, row.powers[n - 1]))
    ensures StoresLinks(db, row, n, links, at)
  {
  }

  lemma {:induction false} LinksAreStored(gen: nat -> string, st: State, row: Row, n: nat) returns (at: seq<nat>)
    requires UniqueKeys(gen, st) && Accepts(st, row) && n <= |row.powers|
    ensures StoresLinks(st.db, row, n, Links(st.db, row, row.powers[..n]), at)
  {
    if n == 0 {
      at := [];
    } else {
      var p := row.powers[n - 1];
      at := LinksAreStored(gen, st, row, n - 1);
      LinkIsStored(gen, st, row, p);
      assert row.powers[..n][..n - 1] == row.powers[..n - 1] && row.powers[..n][n - 1] == p;
      var before := Links(st.db, row, row.powers[..n - 1]);
      if row.typ == "device" && IsFed(st.db, row, p) {
        var l := Link(IdOf(st.db, p.source), Cut(p.plug), Cut(p.input));
        OneMoreLink(st.db, row, n, before, at, l);
        at := at + [n - 1];
      } else {
        NoMoreLink(st.db, row, n, before, at);
      }
    }
  }

  /** The element a row writes, field by field; was is the element it updates. */
  ghost predicate Stores(gen: nat -> string, st: State, row: Row, e: Element) {
    && e.ename == row.ename && e.typ == row.typ && StoresStatus(row, e.status)
    && StoresParent(st.db, row, e.parent) && StoresGroups(st.db, row, e.groups)
    && (row.typ == "device" ==> exists at :: StoresLinks(st.db, row, |row.powers|, e.links, at))
    && if row.idStr == "" then
         e.id == st.nextId && e.iname == gen(st.nextId) && e.subtype == row.subtype
         && (row.typ != "device" ==> e.links == [])
       else
         exists was :: was in st.db && was.iname == row.idStr && e.id == was.id && e.iname == was.iname
           && e.subtype == was.subtype && (row.typ != "device" ==> e.links == was.links)
  }

  lemma RowIsStored(gen: nat -> string, st: State, row: Row)
    requires UniqueKeys(gen, st) && Accepts(st, row)
    ensures Stores(gen, st, row, Imported(gen, st, row))
  {
    ParentIsStored(gen, st, row);
    GroupsAreStored(gen, st, row);
    FindByNameFinds(st.db, row.idStr);
    var at := LinksAreStored(gen, st, row, |row.powers|);
    assert row.powers[..|row.powers|] == row.powers;
  }

  /** The activation agent is asked, and its error is the warning, exactly when a row that wants active is held back. */
  lemma WarningMeans(row: Row, status: Status)
    requires StoresStatus(row, status)
    ensures Warning(row) == if row.status == Active && status != Active then row.activationError else ""
  {
  }

  /** An accepted row adds its element, or puts it in place of the one with its internal name, and no more. */
  lemma OnlyItsElementChanges(gen: nat -> string, st: State, row: Row)
    requires UniqueKeys(gen, st) && Accepts(st, row)
    ensures var e, db := Imported(gen, st, row), Apply(gen, st, row).db;
            && e in db
            && forall d :: d != e ==> (d in db <==> d in st.db && !(row.idStr != "" && d.iname == row.idStr))
  {
    var e, db := Imported(gen, st, row), Apply(gen, st, row).db;
    FindByNameFinds(st.db, row.idStr);
    if row.idStr != "" {
      var k :| 0 <= k < |st.db| && st.db[k].iname == row.idStr;
      assert st.db[k] in st.db && e.id == st.db[k].id;
      assert db[k] == e;
      forall i | 0 <= i < |db|
        ensures db[i] == if i == k then e else st.db[i]
      {
      }
    } else {
      assert e in st.db + [e];
    }
  }

  // ---------- every row of an import ----------

  lemma {:induction false} RunsBegin(gen: nat -> string, st0: State, data: seq<Row>, log: seq<nat>, k: nat)
    requires IsRun(gen, st0, data, log) && k < |log|
    ensures log[k] < |data| && IsRun(gen, st0, data, log[..k])
    ensures Accepts(After(gen, st0, data, log[..k]), data[log[k]])
    ensures WrittenAt(gen, st0, data, log, k).0 == Imported(gen, After(gen, st0, data, log[..k]), data[log[k]])
    decreases |log|
  {
    if k < |log| - 1 {
      var init := log[..|log| - 1];
      RunsBegin(gen, st0, data, init, k);
      assert init[..k] == log[..k] && init[k] == log[k];
    }
  }

  /** Every row that an import reports has stored what its cells say about the table of that moment. */
  lemma WrittenIsStored(gen: nat -> string, st0: State, data: seq<Row>, log: seq<nat>, k: nat)
    requires UniqueKeys(gen, st0) && IsRun(gen, st0, data, log) && k < |log|
    ensures log[k] < |data| && IsRun(gen, st0, data, log[..k])
    ensures Stores(gen, After(gen, st0, data, log[..k]), data[log[k]], WrittenAt(gen, st0, data, log, k).0)
  {
    RunsBegin(gen, st0, data, log, k);
    KeysStayUnique(gen, st0, data, log[..k]);
    RowIsStored(gen, After(gen, st0, data, log[..k]), data[log[k]]);
  }

  // ---------- the table at the end ----------

  /** The k-th import wrote e, and none after it wrote the same element. */
  ghost predicate LastWritten(gen: nat -> string, st0: State, data: seq<Row>, log: seq<nat>, k: nat, e: Element)
    requires IsRun(gen, st0, data, log) && k < |log|
  {
    && WrittenAt(gen, st0, data, log, k).0 == e
    && forall j :: k < j < |log| ==> WrittenAt(gen, st0, data, log, j).0.id != e.id
  }

  /** No import wrote the element of this id. */
  ghost predicate NeverWritten(gen: nat -> string, st0: State, data: seq<Row>, log: seq<nat>, id: nat)
    requires IsRun(gen, st0, data, log)
  {
    forall j :: 0 <= j < |log| ==> WrittenAt(gen, st0, data, log, j).0.id != id
  }

  lemma OneMoreWritten(gen: nat -> string, st0: State, data: seq<Row>, log: seq<nat>, d: Element)
    requires IsRun(gen, st0, data, log) && log != []
    ensures var init, n, e := log[..|log| - 1], |log| - 1, WrittenAt(gen, st0, data, log, |log| - 1).0;
            && (NeverWritten(gen, st0, data, log, d.id) <==> NeverWritten(gen, st0, data, init, d.id) && e.id != d.id)
            && ((exists k :: 0 <= k < |log| && LastWritten(gen, st0, data, log, k, d)) <==>
                e == d || (e.id != d.id && exists k :: 0 <= k < n && LastWritten(gen, st0, data, init, k, d)))
  {
    var init, n := log[..|log| - 1], |log| - 1;
    forall k: nat | k < n
      ensures WrittenAt(gen, st0, data, log, k) == WrittenAt(gen, st0, data, init, k)
    {
    }
    if WrittenAt(gen, st0, data, log, n).0 == d {
      assert LastWritten(gen, st0, data, log, n, d);
    }
    forall k: nat | k < n && LastWritten(gen, st0, data, init, k, d) && WrittenAt(gen, st0, data, log, n).0.id != d.id
      ensures LastWritten(gen, st0, data, log, k, d)
    {
    }
    forall k: nat | k < n && LastWritten(gen, st0, data, log, k, d)
      ensures LastWritten(gen, st0, data, init, k, d)
    {
    }
  }

  /** An element is in the table after an import as it was last written, or as it was if no row wrote it. */
  lemma {:induction false} TableAfterImport(gen: nat -> string, st0: State, data: seq<Row>, log: seq<nat>, d: Element)
    requires UniqueKeys(gen, st0) && IsRun(gen, st0, data, log)
    ensures d in After(gen, st0, data, log).db <==>
            || (d in st0.db && NeverWritten(gen, st0, data, log, d.id))
            || exists k :: 0 <= k < |log| && LastWritten(gen, st0, data, log, k, d)
  {
    if log != [] {
      var init := log[..|log| - 1];
      var st, row := After(gen, st0, data, init), data[log[|log| - 1]];
      TableAfterImport(gen, st0, data, init, d);
      KeysStayUnique(gen, st0, data, init);
      OnlyItsElementChanges(gen, st, row);
      if d in st.db {
        TakesPlace(gen, st, row, d);
      }
      OneMoreWritten(gen, st0, data, log, d);
    }
  }

  /** The written element has the id of the one it takes the place of, and of no other. */
  lemma TakesPlace(gen: nat -> string, st: State, row: Row, d: Element)
    requires UniqueKeys(gen, st) && Accepts(st, row) && d in st.db
    ensures d.id == Imported(gen, st, row).id <==> row.idStr != "" && d.iname == row.idStr
  {
    FindByNameFinds(st.db, row.idStr);
  }

  /** Some row updated the element of this id. */
  ghost predicate Updated(gen: nat -> string, st0: State, data: seq<Row>, log: seq<nat>, id: nat)
    requires IsRun(gen, st0, data, log)
  {
    exists k :: 0 <= k < |log| && WrittenAt(gen, st0, data, log, k).1 == UPDATE
      && WrittenAt(gen, st0, data, log, k).0.id == id
  }

  lemma OneMoreUpdated(gen: nat -> string, st0: State, data: seq<Row>, log: seq<nat>, id: nat)
    requires IsRun(gen, st0, data, log) && log != []
    ensures var init, last := log[..|log| - 1], WrittenAt(gen, st0, data, log, |log| - 1);
            Updated(gen, st0, data, log, id) <==>
            Updated(gen, st0, data, init, id) || (last.1 == UPDATE && last.0.id == id)
  {
    var init := log[..|log| - 1];
    forall k: nat | k < |init|
      ensures WrittenAt(gen, st0, data, log, k) == WrittenAt(gen, st0, data, init, k)
    {
    }
  }

  /** The ids that may not be updated again are exactly those that were updated; inserts leave them alone. */
  lemma {:induction false} IdsAfterImport(gen: nat -> string, st0: State, data: seq<Row>, log: seq<nat>, id: nat)
    requires UniqueKeys(gen, st0) && IsRun(gen, st0, data, log)
    ensures id in After(gen, st0, data, log).ids <==> id in st0.ids || Updated(gen, st0, data, log, id)
    ensures After(gen, st0, data, log).configurable == st0.configurable
  {
    if log != [] {
      IdsAfterImport(gen, st0, data, log[..|log| - 1], id);
      OneMoreUpdated(gen, st0, data, log, id);
    }
  }
}
