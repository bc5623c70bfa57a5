/** The asset table as the import sees it, one import row, and what accepting a row does to the table. */
module AssetTable {
  import opened Common

  datatype Status = Active | Nonactive | Spare | Retired

  datatype Link = Link(src: nat, srcOut: Option<string>, destIn: Option<string>)

  /** One element: database id, internal name, external (user) name, and what the import writes about it. */
  datatype Element = Element(id: nat, iname: string, ename: string, typ: string, subtype: string,
                             status: Status, parent: nat, groups: set<nat>, links: seq<Link>)

  /** A power_source.N cell with its optional power_plug_src.N and power_input.N cells. */
  datatype Power = Power(source: string, plug: Option<string>, input: Option<string>)

  /**
   * One row of the file. cellsOk stands for the checks that look at the row's own cells only (type, status,
   * subtype, tag, dates, numbers); activationError is what the activation agent would answer, "" for success.
   */
  datatype Row = Row(idStr: string, ename: string, typ: string, subtype: string, status: Status, cellsOk: bool,
                     location: string, groups: seq<string>, powers: seq<Power>, logical: string,
                     activationError: string)

  datatype Operation = INSERT | UPDATE

  /** Database, ids already updated by this import, next free id, and whether licensing allows changes at all. */
  datatype State = State(db: seq<Element>, ids: set<nat>, nextId: nat, configurable: bool)

  function FindByExt(db: seq<Element>, ename: string): Option<Element> {
    if db == [] then None else if db[0].ename == ename then Some(db[0]) else FindByExt(db[1..], ename)
  }

  function FindByName(db: seq<Element>, iname: string): Option<Element> {
    if db == [] then None else if db[0].iname == iname then Some(db[0]) else FindByName(db[1..], iname)
  }

  lemma {:induction false} FindByExtFinds(db: seq<Element>, ename: string)
    ensures var r := FindByExt(db, ename);
            if r.Some? then r.value in db && r.value.ename == ename else forall e :: e in db ==> e.ename != ename
  {
    if db != [] {
      FindByExtFinds(db[1..], ename);
    }
  }

  lemma {:induction false} FindByNameFinds(db: seq<Element>, iname: string)
    ensures var r := FindByName(db, iname);
            if r.Some? then r.value in db && r.value.iname == iname else forall e :: e in db ==> e.iname != iname
  {
    if db != [] {
      FindByNameFinds(db[1..], iname);
    }
  }

  /** sanitize_row_ext_names on one cell: an external name becomes the internal one, anything else stays. */
  function Sanitize(db: seq<Element>, cell: string): string {
    match FindByExt(db, cell)
    case Some(e) => e.iname
    case None => cell
  }

  /** The cell names an element of the table, by its external or its internal name. */
  ghost predicate Known(db: seq<Element>, cell: string) {
    exists e :: e in db && (e.ename == cell || e.iname == cell)
  }

  function Lookup(db: seq<Element>, cell: string): Option<Element> {
    FindByName(db, Sanitize(db, cell))
  }

  /** A cell that is an external name is always found again under the internal one. */
  lemma ExternalNamesResolve(db: seq<Element>, cell: string)
    ensures FindByExt(db, cell).Some? ==> Lookup(db, cell).Some?
    ensures FindByExt(db, cell).None? ==> Sanitize(db, cell) == cell
  {
    FindByExtFinds(db, cell);
    FindByNameFinds(db, Sanitize(db, cell));
  }

  lemma LookupFindsKnown(db: seq<Element>, cell: string)
    ensures Lookup(db, cell).Some? <==> Known(db, cell)
  {
    FindByExtFinds(db, cell);
    FindByNameFinds(db, Sanitize(db, cell));
  }

  /** The cells of a row that must name an element; a power source equal to the row's own name need not. */
  function References(row: Row): set<string> {
    {row.location, row.logical} + (set g | g in row.groups) +
    (set p | p in row.powers && p.source != row.ename :: p.source) - {""}
  }

  ghost predicate ReferencesMet(db: seq<Element>, row: Row) {
    forall v :: v in References(row) ==> Lookup(db, v).Some?
  }

  predicate NameOk(row: Row) {
    0 < |row.ename| <= 50
  }

  predicate InsertAllowed(st: State, row: Row) {
    FindByExt(st.db, row.ename).None? && (row.typ != "device" ==> row.status != Nonactive)
  }

  predicate UpdateAllowed(st: State, row: Row) {
    var target := FindByName(st.db, row.idStr);
    var owner := FindByExt(st.db, row.ename);
    && target.Some? && target.value.id !in st.ids
    && (owner.Some? ==> owner.value.iname == row.idStr)
    && target.value.typ == row.typ
    && (target.value.subtype == row.subtype || target.value.subtype == "N_A")
    && (if row.typ != "device" then row.status != Nonactive
        else target.value.id == 1 ==> row.idStr == RC0 && row.status != Nonactive)
  }

  /** process_row imports the row in this state. */
  ghost predicate Accepts(st: State, row: Row) {
    && st.configurable
    && NameOk(row)
    && row.cellsOk
    && ReferencesMet(st.db, row)
    && if row.idStr == "" then InsertAllowed(st, row) else UpdateAllowed(st, row)
  }

  function IdOf(db: seq<Element>, cell: string): nat {
    var e := Lookup(db, cell);
    if e.Some? then e.value.id else 0
  }

  function ParentId(db: seq<Element>, row: Row): nat {
    if Sanitize(db, row.location) == "" then 0 else IdOf(db, row.location)
  }

  function GroupIds(db: seq<Element>, names: seq<string>): set<nat> {
    set g | g in names && Sanitize(db, g) != "" :: IdOf(db, g)
  }

  function Cut(cell: Option<string>): Option<string> {
    match cell
    case None => None
    case Some(s) => Some(if |s| > 4 then s[..4] else s)
  }

  /** The power links of a row, in column order; only devices have any. */
  function Links(db: seq<Element>, row: Row, powers: seq<Power>): seq<Link> {
    if powers == [] then []
    else
      var rest, p := Links(db, row, powers[..|powers| - 1]), powers[|powers| - 1];
      var source := Sanitize(db, p.source);
      if row.typ != "device" || source == "" || source == row.ename || IdOf(db, p.source) == 0 then rest
      else rest + [Link(IdOf(db, p.source), Cut(p.plug), Cut(p.input))]
  }

  /** A device is stored as nonactive and activated by the agent afterwards. */
  function StoredStatus(row: Row): Status {
    if row.typ != "device" then row.status
    else if row.idStr == "" then
      if row.subtype != "rackcontroller" && row.status == Active then Nonactive else row.status
    else if row.idStr != RC0 then Nonactive else row.status
  }

  /** The element a row writes, given its id and internal name. */
  function Written(db: seq<Element>, row: Row, id: nat, iname: string, subtype: string, kept: seq<Link>): Element {
    Element(id, iname, row.ename, row.typ, subtype, StoredStatus(row), ParentId(db, row), GroupIds(db, row.groups),
            if row.typ == "device" then Links(db, row, row.powers) else kept)
  }

  function Replace(db: seq<Element>, id: nat, e: Element): (r: seq<Element>)
    ensures |r| == |db|
    ensures forall i :: 0 <= i < |db| ==> r[i] == if db[i].id == id then e else db[i]
  {
    seq(|db|, i requires 0 <= i < |db| => if db[i].id == id then e else db[i])
  }

  /** The element written by an accepted row; gen is the internal name the database gives to a new id. */
  ghost function Imported(gen: nat -> string, st: State, row: Row): Element
    requires Accepts(st, row)
  {
    if row.idStr == "" then Written(st.db, row, st.nextId, gen(st.nextId), row.subtype, [])
    else
      var was := FindByName(st.db, row.idStr).value;
      Written(st.db, row, was.id, was.iname, was.subtype, was.links)
  }

  ghost function Apply(gen: nat -> string, st: State, row: Row): State
    requires Accepts(st, row)
  {
    var e := Imported(gen, st, row);
    if row.idStr == "" then st.(db := st.db + [e], nextId := st.nextId + 1)
    else st.(db := Replace(st.db, e.id, e), ids := st.ids + {e.id})
  }

  function Warning(row: Row): string {
    if row.typ == "device" && row.status == Active
       && (if row.idStr == "" then row.subtype != "rackcontroller" else row.idStr != RC0)
    then row.activationError
    else ""
  }
}
