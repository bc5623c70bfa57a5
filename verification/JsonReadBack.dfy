/** From a JSON asset to the table and back: what the import's numbered loops find again. */
module JsonReadBack {
  import opened Common
  import opened CsvTable
  import opened JsonColumns
  import opened JsonTitles
  import opened JsonContent
  import AssetTable

  type Cells = map<string, string>

  /** CsvMap_from_serialization_info: flatten, then index the titles. */
  method CsvMapFromJson(members: seq<Json>) returns (ok: bool, cm: CsvMap)
    ensures ok <==> Flatten(members, |members|).Ok? && DistinctTitles(Titles(Flatten(members, |members|).value))
    ensures |cm.data| == 2 && |cm.data[0]| == |cm.data[1]|
    ensures ok ==> var cols := Flatten(members, |members|).value;
              cm.data == [Titles(cols), Values(cols)] && IsIndex(cm.titleToIndex, Titles(cols))
  {
    var rows := new Rows();
    ok := rows.ReadSi(members);
    cm := new CsvMap([rows.titles, rows.values]);
    if ok {
      assert rows.columns == [] + Flatten(members, |members|).value == Flatten(members, |members|).value;
      ok := cm.Deserialize();
    }
  }

  /** The cells of the value row are exactly those of the columns, under their stripped titles. */
  ghost predicate CellsOf(cols: Columns, cells: Cells) {
    && (forall c :: c in cols ==> CiStrip(c.title) in cells && cells[CiStrip(c.title)] == c.value)
    && (forall t :: t in cells ==> exists c :: c in cols && CiStrip(c.title) == t)
  }

  lemma TableHoldsTheCells(cols: Columns, cm: CsvMap)
    requires cm.data == [Titles(cols), Values(cols)] && IsIndex(cm.titleToIndex, Titles(cols))
    ensures CellsOf(cols, cm.Cells(1))
  {
    var cells := cm.Cells(1);
    forall c | c in cols
      ensures CiStrip(c.title) in cells && cells[CiStrip(c.title)] == c.value
    {
      var i :| 0 <= i < |cols| && cols[i] == c;
      assert Titles(cols)[i] == c.title && Values(cols)[i] == c.value;
    }
    forall t | t in cells
      ensures exists c :: c in cols && CiStrip(c.title) == t
    {
      var i := cm.titleToIndex[t];
      assert cols[i] in cols && Titles(cols)[i] == cols[i].title;
    }
  }

  // ---------- the loops of process_row that read numbered columns ----------

  /** The group.N loop: cells prefix.1, prefix.2, ... until one is missing. */
  ghost predicate IsNumberedList(cells: Cells, prefix: string, list: seq<string>) {
    && (forall n: nat :: 1 <= n <= |list| ==> Numbered(prefix, n) in cells && cells[Numbered(prefix, n)] == list[n - 1])
    && Numbered(prefix, |list| + 1) !in cells
  }

  method ReadNumbered(cells: Cells, prefix: string) returns (list: seq<string>)
    requires Plain(prefix)
    ensures IsNumberedList(cells, prefix, list)
  {
    list := [];
    while Numbered(prefix, |list| + 1) in cells
      invariant forall n: nat :: 1 <= n <= |list| ==>
                  Numbered(prefix, n) in cells && cells[Numbered(prefix, n)] == list[n - 1]
      decreases |cells| - |list|
    {
      NumberedKeys(prefix, |list| + 1, cells.Keys);
      list := list + [cells[Numbered(prefix, |list| + 1)]];
    }
  }

  function Cell(cells: Cells, title: string): Option<string> {
    if title in cells then Some(cells[title]) else None
  }

  /** The n-th power source as the import reads it: the name, and each socket if its column is there. */
  function PowerAt(cells: Cells, n: nat): AssetTable.Power
    requires Numbered("power_source.", n) in cells
  {
    AssetTable.Power(cells[Numbered("power_source.", n)], Cell(cells, Numbered("power_plug_src.", n)),
                     Cell(cells, Numbered("power_input.", n)))
  }

  /** The power_source.N loop with its socket columns. */
  method ReadPowers(cells: Cells) returns (powers: seq<AssetTable.Power>)
    ensures Numbered("power_source.", |powers| + 1) !in cells
    ensures forall n: nat :: 1 <= n <= |powers| ==>
              Numbered("power_source.", n) in cells && powers[n - 1] == PowerAt(cells, n)
  {
    var sources := ReadNumbered(cells, "power_source.");
    powers := [];
    for i := 0 to |sources|
      invariant |powers| == i
      invariant forall n: nat :: 1 <= n <= i ==>
                  Numbered("power_source.", n) in cells && powers[n - 1] == PowerAt(cells, n)
    {
      powers := powers + [AssetTable.Power(sources[i], Cell(cells, Numbered("power_plug_src.", i + 1)),
                                           Cell(cells, Numbered("power_input.", i + 1)))];
    }
  }

  // ---------- what comes back ----------

  /** Everything the theorems below assume: the members flatten to cols, and cells is the resulting row. */
  ghost predicate Table(members: seq<Json>, cols: Columns, cells: Cells) {
    Flatten(members, |members|) == Ok(cols) && CellsOf(cols, cells)
  }

  lemma CellOfMember(members: seq<Json>, cols: Columns, cells: Cells, i: nat, c: Column)
    requires Table(members, cols, cells) && i < |members|
    requires MemberColumns(members, i).Ok? && c in MemberColumns(members, i).value
    ensures CiStrip(c.title) in cells && cells[CiStrip(c.title)] == c.value
  {
    MemberIsFlattened(members, i, |members|, c);
  }

  /** The columns that the first member of a name makes. */
  lemma ColumnsOfKey(members: seq<Json>, key: string)
    requires Find(members, key) < |members| && MemberColumns(members, Find(members, key)).Ok?
    requires key == "groups" || key == "powers" || key == "outlets"
    ensures MemberColumns(members, Find(members, key)).value ==
            var items := ItemsOf(members, key);
            if key == "groups" then GroupColumns(items) else if key == "powers" then PowerColumns(items)
            else OutletsColumns(items)
  {
  }

  lemma ColumnsOfList(members: seq<Json>, key: string)
    requires Find(members, key) < |members| && MemberColumns(members, Find(members, key)).Ok? && IsList(key)
    ensures MemberColumns(members, Find(members, key)).value == ListColumns(ListPrefix(key), ItemsOf(members, key))
  {
  }

  /** The column that element n of a list makes. */
  lemma ListedColumn(members: seq<Json>, prefix: string, n: nat)
    requires IsPrefix(prefix) && ListedHere(members, prefix, n)
    requires MemberColumns(members, Find(members, Key(prefix))).Ok?
    ensures Column(Numbered(prefix, n), ItemText(ItemsOf(members, Key(prefix))[n - 1], prefix))
            in MemberColumns(members, Find(members, Key(prefix))).value
  {
    var items := ItemsOf(members, Key(prefix));
    if IsList(Key(prefix)) {
      ColumnsOfList(members, Key(prefix));
    } else {
      ColumnsOfKey(members, Key(prefix));
    }
    if prefix == "group." {
      GroupColumnIn(items, n - 1);
    } else if Key(prefix) == "powers" {
      PowerColumnIn(items, n - 1, Column(Numbered(prefix, n), ItemText(items[n - 1], prefix)));
    } else {
      ListColumnIn(prefix, items, n - 1);
    }
  }

  /** Its cell. */
  lemma ListedCell(members: seq<Json>, cols: Columns, cells: Cells, prefix: string, n: nat)
    requires Table(members, cols, cells) && IsPrefix(prefix) && ListedHere(members, prefix, n)
    ensures Numbered(prefix, n) in cells
    ensures cells[Numbered(prefix, n)] == ItemText(ItemsOf(members, Key(prefix))[n - 1], prefix)
  {
    var k, item := Find(members, Key(prefix)), ItemsOf(members, Key(prefix))[n - 1];
    var c := Column(Numbered(prefix, n), ItemText(item, prefix));
    MemberIsFlattened(members, k, |members|, c);
    ListedColumn(members, prefix, n);
    TitlesDiffer(prefix, n, prefix, n);
  }

  /** A numbered cell is there exactly when a list has the element or a member has that very name. */
  lemma NumberedCells(members: seq<Json>, cols: Columns, cells: Cells, prefix: string, n: nat)
    requires Table(members, cols, cells) && IsPrefix(prefix)
    ensures Numbered(prefix, n) in cells <==> ListedHere(members, prefix, n) || Stray(members, prefix, n)
  {
    TitlesOfAsset(members, prefix, n);
    assert Numbered(prefix, n) in cells <==> Makes(cols, Numbered(prefix, n));
  }

  /** The title is made by something other than the asset's own list: a member of that name, or a nested list. */
  predicate Stray(members: seq<Json>, prefix: string, n: nat)
    requires IsPrefix(prefix)
  {
    Numbered(prefix, n) in OwnNames(members) || ListedBelow(members, prefix, n)
  }

  function ItemTexts(items: seq<Json>, prefix: string): seq<string> {
    seq(|items|, i requires 0 <= i < |items| => ItemText(items[i], prefix))
  }

  /**
   * A numbered loop gives back the list of the asset, in order, exactly when no stray member makes the next
   * number. An asset without the list counts as one with an empty list.
   */
  lemma NumberedReadBack(members: seq<Json>, cols: Columns, cells: Cells, prefix: string, list: seq<string>)
    requires Table(members, cols, cells) && IsPrefix(prefix) && prefix != "power_plug_src." && prefix != "power_input."
    requires IsNumberedList(cells, prefix, list)
    ensures var texts := ItemTexts(ItemsOf(members, Key(prefix)), prefix);
            texts <= list && (list == texts <==> !Stray(members, prefix, |texts| + 1))
  {
    var items := ItemsOf(members, Key(prefix));
    var texts := ItemTexts(items, prefix);
    forall n: nat | 1 <= n <= |texts|
      ensures Numbered(prefix, n) in cells && cells[Numbered(prefix, n)] == texts[n - 1]
    {
      ListedCell(members, cols, cells, prefix, n);
    }
    BeginsWith(cells, prefix, list, texts);
    NumberedCells(members, cols, cells, prefix, |texts| + 1);
  }

  /** A numbered list begins with the cells that are known to be there, and ends with them if the next is missing. */
  lemma BeginsWith(cells: Cells, prefix: string, list: seq<string>, texts: seq<string>)
    requires IsNumberedList(cells, prefix, list)
    requires forall n: nat :: 1 <= n <= |texts| ==>
               Numbered(prefix, n) in cells && cells[Numbered(prefix, n)] == texts[n - 1]
    ensures texts <= list && (list == texts <==> Numbered(prefix, |texts| + 1) !in cells)
  {
    var end: nat, next: nat := |list| + 1, |texts| + 1;
    assert end <= |texts| ==> Numbered(prefix, end) in cells;
    assert next <= |list| ==> Numbered(prefix, next) in cells;
    forall i | 0 <= i < |texts|
      ensures list[i] == texts[i]
    {
      var n: nat := i + 1;
      assert cells[Numbered(prefix, n)] == list[n - 1];
    }
  }

  function GroupNames(items: seq<Json>): seq<string> {
    seq(|items|, i requires 0 <= i < |items| => MemberText(items[i], "name"))
  }

  /** The group.N loop on the groups list. */
  lemma GroupsReadBack(members: seq<Json>, cols: Columns, cells: Cells, list: seq<string>)
    requires Table(members, cols, cells) && IsNumberedList(cells, "group.", list)
    ensures var names := GroupNames(ItemsOf(members, "groups"));
            names <= list && (list == names <==> !Stray(members, "group.", |names| + 1))
  {
    NumberedReadBack(members, cols, cells, "group.", list);
    assert ItemTexts(ItemsOf(members, "groups"), "group.") == GroupNames(ItemsOf(members, "groups"));
  }

  function Texts(items: seq<Json>): seq<string> {
    seq(|items|, i requires 0 <= i < |items| => TextOf(items[i]))
  }

  /** The same for the lists of addresses, hardware addresses and host names. */
  lemma ListsReadBack(members: seq<Json>, cols: Columns, cells: Cells, key: string, list: seq<string>)
    requires Table(members, cols, cells) && IsList(key) && IsNumberedList(cells, ListPrefix(key), list)
    ensures var texts := Texts(ItemsOf(members, key));
            texts <= list && (list == texts <==> !Stray(members, ListPrefix(key), |texts| + 1))
  {
    NumberedReadBack(members, cols, cells, ListPrefix(key), list);
    assert ItemTexts(ItemsOf(members, key), ListPrefix(key)) == Texts(ItemsOf(members, key));
  }

  /** The table holds exactly the content of the asset, each cell under its stripped title. */
  lemma TableHoldsTheContent(members: seq<Json>, cols: Columns, cells: Cells, title: string, value: string)
    requires Table(members, cols, cells)
    ensures title in cells && cells[title] == value <==>
            exists c :: Content(members, c) && CiStrip(c.title) == title && c.value == value
  {
    forall c
      ensures c in cols <==> Content(members, c)
    {
      ContentIsFlattened(members, c);
    }
  }

  /** Every other member is one cell under its stripped name. */
  lemma PlainMembersReadBack(members: seq<Json>, cols: Columns, cells: Cells, i: nat)
    requires Table(members, cols, cells) && i < |members|
    requires members[i].name !in {"location_id", "location_uri", "power_devices_in_uri", "parents",
                                  "ext", "powers", "groups", "outlets", "ips", "macs", "hostnames", "fqdns"}
    ensures var title := CiStrip(members[i].name); title in cells && cells[title] == TextOf(members[i])
  {
    var c := Column(members[i].name, TextOf(members[i]));
    MemberIsFlattened(members, i, |members|, c);
    CellOfMember(members, cols, cells, i, c);
  }

  /** The columns of nested attributes, whatever they flatten to, are cells of the same row. */
  lemma NestedColumns(members: seq<Json>, cols: Columns, cells: Cells, e: nat)
    requires Table(members, cols, cells) && e == Find(members, "ext") < |members| && members[e].Object?
    ensures var nested := members[e].members;
            Flatten(nested, |nested|).Ok? &&
            forall c :: c in Flatten(nested, |nested|).value ==>
              CiStrip(c.title) in cells && cells[CiStrip(c.title)] == c.value
  {
    var nested := members[e].members;
    MemberIsFlattened(members, e, |members|, Column("", ""));
    forall c | c in Flatten(nested, |nested|).value
      ensures CiStrip(c.title) in cells && cells[CiStrip(c.title)] == c.value
    {
      CellOfMember(members, cols, cells, e, c);
    }
  }

  lemma {:induction false} OutletColumnIn(outlet: Json, attributes: seq<Json>, a: Json)
    requires a in attributes
    ensures OutletColumn(outlet, a) in OutletColumns(outlet, attributes)
  {
    var before, last := attributes[..|attributes| - 1], attributes[|attributes| - 1];
    assert attributes == before + [last];
    if a in before {
      OutletColumnIn(outlet, before, a);
    }
  }

  lemma {:induction false} OutletsColumnIn(outlets: seq<Json>, outlet: Json, a: Json)
    requires outlet in outlets && a in Members(outlet)
    ensures OutletColumn(outlet, a) in OutletsColumns(outlets)
  {
    var before, last := outlets[..|outlets| - 1], outlets[|outlets| - 1];
    assert outlets == before + [last];
    if outlet in before {
      OutletsColumnIn(before, outlet, a);
    } else {
      OutletColumnIn(outlet, Members(outlet), a);
    }
  }

  /** Every attribute of every outlet is one cell named after both, with its value. */
  lemma OutletsReadBack(members: seq<Json>, cols: Columns, cells: Cells, outlet: Json, a: Json)
    requires Table(members, cols, cells)
    requires outlet in ItemsOf(members, "outlets") && a in Members(outlet)
    ensures var title := CiStrip("outlet." + outlet.name + "." + MemberText(a, "name"));
            title in cells && cells[title] == MemberText(a, "value")
  {
    var k, c := Find(members, "outlets"), OutletColumn(outlet, a);
    MemberIsFlattened(members, k, |members|, c);
    ColumnsOfKey(members, "outlets");
    OutletsColumnIn(ItemsOf(members, "outlets"), outlet, a);
    CellOfMember(members, cols, cells, k, c);
  }

  lemma {:induction false} AttributeColumnIn(list: seq<Json>, b: Json)
    requires b in list && b.name != "read_only"
    ensures Column(b.name, TextOf(b)) in AttributeColumns(list)
  {
    var before, last := list[..|list| - 1], list[|list| - 1];
    assert list == before + [last];
    if b in before {
      AttributeColumnIn(before, b);
    }
  }

  lemma {:induction false} ExtColumnIn(items: seq<Json>, a: Json, b: Json)
    requires a in items && b in Members(a) && b.name != "read_only"
    ensures Column(b.name, TextOf(b)) in ExtColumns(items)
  {
    var before, last := items[..|items| - 1], items[|items| - 1];
    assert items == before + [last];
    if a in before {
      ExtColumnIn(before, a, b);
    } else {
      AttributeColumnIn(Members(a), b);
    }
  }

  /** In the array form of ext every attribute but the read_only marks is one cell under its stripped name. */
  lemma AttributesReadBack(members: seq<Json>, cols: Columns, cells: Cells, a: Json, b: Json)
    requires Table(members, cols, cells) && Find(members, "ext") < |members|
    requires members[Find(members, "ext")].Array? && a in ItemsOf(members, "ext")
    requires b in Members(a) && b.name != "read_only"
    ensures CiStrip(b.name) in cells && cells[CiStrip(b.name)] == TextOf(b)
  {
    var k, c := Find(members, "ext"), Column(b.name, TextOf(b));
    MemberIsFlattened(members, k, |members|, c);
    ExtColumnIn(ItemsOf(members, "ext"), a, b);
    CellOfMember(members, cols, cells, k, c);
  }

  // ---------- power sources ----------

  function OptionalText(j: Json, member: string): Option<string> {
    if HasMember(j, member) then Some(MemberText(j, member)) else None
  }

  function PowerOf(item: Json): AssetTable.Power {
    AssetTable.Power(MemberText(item, "src_name"), OptionalText(item, "src_socket"), OptionalText(item, "dest_socket"))
  }

  function PowersOf(items: seq<Json>): seq<AssetTable.Power> {
    seq(|items|, i requires 0 <= i < |items| => PowerOf(items[i]))
  }

  /** No stray member makes a socket that the n-th power source left out. */
  predicate SocketsOwn(members: seq<Json>, item: Json, n: nat) {
    && (!HasMember(item, "src_socket") ==> !Stray(members, "power_plug_src.", n))
    && (!HasMember(item, "dest_socket") ==> !Stray(members, "power_input.", n))
  }

  /** A socket comes back right exactly when it was given, or no stray member makes it. */
  lemma SocketCell(members: seq<Json>, cols: Columns, cells: Cells, n: nat, member: string, prefix: string)
    requires Table(members, cols, cells) && 1 <= n <= |ItemsOf(members, "powers")|
    requires (member == "src_socket" && prefix == "power_plug_src.") ||
             (member == "dest_socket" && prefix == "power_input.")
    ensures var item := ItemsOf(members, "powers")[n - 1];
            Cell(cells, Numbered(prefix, n)) == OptionalText(item, member) <==>
            HasMember(item, member) || !Stray(members, prefix, n)
  {
    NumberedCells(members, cols, cells, prefix, n);
    if HasMember(ItemsOf(members, "powers")[n - 1], member) {
      ListedCell(members, cols, cells, prefix, n);
    }
  }

  lemma PowerCell(members: seq<Json>, cols: Columns, cells: Cells, n: nat)
    requires Table(members, cols, cells) && 1 <= n <= |ItemsOf(members, "powers")|
    ensures Numbered("power_source.", n) in cells
    ensures var item := ItemsOf(members, "powers")[n - 1];
            && PowerAt(cells, n).source == MemberText(item, "src_name")
            && (PowerAt(cells, n) == PowerOf(item) <==> SocketsOwn(members, item, n))
  {
    ListedCell(members, cols, cells, "power_source.", n);
    SocketCell(members, cols, cells, n, "src_socket", "power_plug_src.");
    SocketCell(members, cols, cells, n, "dest_socket", "power_input.");
  }

  /** What the power_source.N loop leaves behind. */
  ghost predicate IsPowerList(cells: Cells, powers: seq<AssetTable.Power>) {
    && Numbered("power_source.", |powers| + 1) !in cells
    && forall n: nat :: 1 <= n <= |powers| ==>
         Numbered("power_source.", n) in cells && powers[n - 1] == PowerAt(cells, n)
  }

  /**
   * The power_source.N loop gives back the powers list, in order and with every socket at its own source,
   * exactly when no stray member makes the next number or a socket that the list left out.
   */
  lemma PowersReadBack(members: seq<Json>, cols: Columns, cells: Cells, powers: seq<AssetTable.Power>)
    requires Table(members, cols, cells) && IsPowerList(cells, powers)
    ensures var items := ItemsOf(members, "powers");
            && |powers| >= |items|
            && (forall i :: 0 <= i < |items| ==> powers[i].source == MemberText(items[i], "src_name"))
            && (powers == PowersOf(items) <==>
                !Stray(members, "power_source.", |items| + 1) &&
                forall i :: 0 <= i < |items| ==> SocketsOwn(members, items[i], i + 1))
  {
    var items := ItemsOf(members, "powers");
    if |powers| < |items| {
      PowerCell(members, cols, cells, |powers| + 1);
    }
    forall i | 0 <= i < |items|
      ensures powers[i].source == MemberText(items[i], "src_name")
      ensures powers[i] == PowersOf(items)[i] <==> SocketsOwn(members, items[i], i + 1)
    {
      var n: nat := i + 1;
      PowerCell(members, cols, cells, n);
      assert powers[n - 1] == PowerAt(cells, n);
    }
    var next: nat := |items| + 1;
    NumberedCells(members, cols, cells, "power_source.", next);
    assert |powers| > |items| ==> Numbered("power_source.", next) in cells;
    assert powers == PowersOf(items) <==>
           |powers| == |items| && forall i :: 0 <= i < |items| ==> powers[i] == PowersOf(items)[i];
  }

  // ---------- assets that always come back ----------

  predicate NoLists(members: seq<Json>) {
    (forall m :: m in members ==> m.name != "groups" && m.name != "powers" && !IsList(m.name)) &&
    var e := Find(members, "ext");
    e < |members| && members[e].Object? ==> NoLists(members[e].members)
  }

  /** The nested attributes hold no list, and no member is named like an element of one. */
  ghost predicate Tidy(members: seq<Json>) {
    && (forall t, p: string :: t in OwnNames(members) && IsPrefix(p) ==> !(p <= t))
    && (var e := Find(members, "ext"); e < |members| && members[e].Object? ==> NoLists(members[e].members))
  }

  lemma NotFound(members: seq<Json>, name: string)
    requires forall m :: m in members ==> m.name != name
    ensures Find(members, name) == |members|
  {
    forall i | 0 <= i < |members|
      ensures members[i].name != name
    {
      assert members[i] in members;
    }
  }

  lemma {:induction false} NothingListed(members: seq<Json>, prefix: string, n: nat)
    requires NoLists(members) && IsPrefix(prefix)
    ensures !Listed(members, prefix, n)
    decreases members
  {
    var e := Find(members, "ext");
    NotFound(members, Key(prefix));
    if e < |members| && members[e].Object? {
      assert members[e] in members;
      NothingListed(members[e].members, prefix, n);
    }
  }

  lemma TidyHasNoStray(members: seq<Json>, prefix: string, n: nat)
    requires Tidy(members) && IsPrefix(prefix)
    ensures !Stray(members, prefix, n)
  {
    var e := Find(members, "ext");
    assert prefix <= Numbered(prefix, n);
    if e < |members| && members[e].Object? {
      NothingListed(members[e].members, prefix, n);
    }
  }

  /** The lists of an asset, as JSON has them or as process_row reads them. */
  datatype Lists = Lists(groups: seq<string>, powers: seq<AssetTable.Power>, ips: seq<string>, macs: seq<string>,
                         hostnames: seq<string>, fqdns: seq<string>)

  function ListsOf(members: seq<Json>): Lists {
    Lists(GroupNames(ItemsOf(members, "groups")), PowersOf(ItemsOf(members, "powers")), Texts(ItemsOf(members, "ips")),
          Texts(ItemsOf(members, "macs")), Texts(ItemsOf(members, "hostnames")), Texts(ItemsOf(members, "fqdns")))
  }

  ghost predicate ReadFrom(cells: Cells, l: Lists) {
    && IsNumberedList(cells, "group.", l.groups) && IsPowerList(cells, l.powers)
    && IsNumberedList(cells, "ip.", l.ips) && IsNumberedList(cells, "mac.", l.macs)
    && IsNumberedList(cells, "hostname.", l.hostnames) && IsNumberedList(cells, "fqdn.", l.fqdns)
  }

  lemma TidyPowersReadBack(members: seq<Json>, cols: Columns, cells: Cells, powers: seq<AssetTable.Power>)
    requires Table(members, cols, cells) && Tidy(members) && IsPowerList(cells, powers)
    ensures powers == PowersOf(ItemsOf(members, "powers"))
  {
    var items := ItemsOf(members, "powers");
    forall i | 0 <= i < |items|
      ensures SocketsOwn(members, items[i], i + 1)
    {
      TidyHasNoStray(members, "power_plug_src.", i + 1);
      TidyHasNoStray(members, "power_input.", i + 1);
    }
    TidyHasNoStray(members, "power_source.", |items| + 1);
    PowersReadBack(members, cols, cells, powers);
  }

  lemma TidyListReadBack(members: seq<Json>, cols: Columns, cells: Cells, key: string, list: seq<string>)
    requires Table(members, cols, cells) && Tidy(members)
    requires IsList(key) && IsNumberedList(cells, ListPrefix(key), list)
    ensures list == Texts(ItemsOf(members, key))
  {
    TidyHasNoStray(members, ListPrefix(key), |Texts(ItemsOf(members, key))| + 1);
    ListsReadBack(members, cols, cells, key, list);
  }

  /** On a tidy asset everything that is read is what the asset says, in order, each socket at its own source. */
  lemma TidyReadBack(members: seq<Json>, cols: Columns, cells: Cells, l: Lists)
    requires Table(members, cols, cells) && Tidy(members) && ReadFrom(cells, l)
    ensures l == ListsOf(members)
  {
    TidyHasNoStray(members, "group.", |GroupNames(ItemsOf(members, "groups"))| + 1);
    GroupsReadBack(members, cols, cells, l.groups);
    TidyPowersReadBack(members, cols, cells, l.powers);
    TidyListReadBack(members, cols, cells, "ips", l.ips);
    TidyListReadBack(members, cols, cells, "macs", l.macs);
    TidyListReadBack(members, cols, cells, "hostnames", l.hostnames);
    TidyListReadBack(members, cols, cells, "fqdns", l.fqdns);
  }

  method ReadLists(cells: Cells) returns (l: Lists)
    ensures ReadFrom(cells, l)
  {
    var groups := ReadNumbered(cells, "group.");
    var powers := ReadPowers(cells);
    var ips := ReadNumbered(cells, "ip.");
    var macs := ReadNumbered(cells, "mac.");
    var hostnames := ReadNumbered(cells, "hostname.");
    var fqdns := ReadNumbered(cells, "fqdn.");
    l := Lists(groups, powers, ips, macs, hostnames, fqdns);
  }

  /** From a JSON asset through the table to what process_row reads. */
  method ReadAsset(members: seq<Json>) returns (r: Option<Lists>)
    ensures r.Some? <==>
            Flatten(members, |members|).Ok? && DistinctTitles(Titles(Flatten(members, |members|).value))
    ensures r.Some? ==> WellFormed(members)
    ensures r.Some? && Tidy(members) ==> r.value == ListsOf(members)
  {
    FlattensExactly(members);
    var ok, cm := CsvMapFromJson(members);
    if !ok {
      return None;
    }
    ghost var cols := Flatten(members, |members|).value;
    TableHoldsTheCells(cols, cm);
    var cells := cm.Cells(1);
    var l := ReadLists(cells);
    if Tidy(members) {
      TidyReadBack(members, cols, cells, l);
    }
    return Some(l);
  }

  // ---------- an asset that does not come back ----------

  const GROUP_A: Json := Object("", false, [Text("name", false, "a")])
  const GROUP_B: Json := Object("", false, [Text("name", false, "b")])
  const STRAY: Json := Text("group.3", false, "c")
  const UNTIDY: seq<Json> := [Array("groups", false, [GROUP_A, GROUP_B]), STRAY]

  lemma UntidyColumns()
    ensures GroupNames(ItemsOf(UNTIDY, "groups")) == ["a", "b"]
    ensures Flatten(UNTIDY, |UNTIDY|) == Ok(UNTIDY_COLUMNS)
  {
    var items := [GROUP_A, GROUP_B];
    assert Find(UNTIDY, "groups") == 0 && ItemsOf(UNTIDY, "groups") == items;
    assert MemberText(GROUP_A, "name") == "a" && MemberText(GROUP_B, "name") == "b";
    assert HasMember(GROUP_A, "name") && HasMember(GROUP_B, "name");
    assert items[..1] == [GROUP_A] && items[..1][..0] == [];
    assert GroupColumns([GROUP_A]) == [UNTIDY_COLUMNS[0]];
    assert GroupColumns(items) == UNTIDY_COLUMNS[..2];
    assert MemberColumns(UNTIDY, 0) == Ok(GroupColumns(items));
    assert STRAY.name == Numbered("group.", 3);
    assert MemberColumns(UNTIDY, 1) == Ok([UNTIDY_COLUMNS[2]]);
    assert [] + GroupColumns(items) == GroupColumns(items);
    assert Flatten(UNTIDY, 0) == Ok([]) && Flatten(UNTIDY, 1) == Ok(GroupColumns(items));
    assert Flatten(UNTIDY, 2) == Ok(GroupColumns(items) + [UNTIDY_COLUMNS[2]]);
    assert UNTIDY_COLUMNS[..2] + [UNTIDY_COLUMNS[2]] == UNTIDY_COLUMNS;
  }

  const UNTIDY_COLUMNS: Columns :=
    [Column(Numbered("group.", 1), "a"), Column(Numbered("group.", 2), "b"), Column(Numbered("group.", 3), "c")]

  ghost predicate AreNumbered(prefix: string, cols: Columns) {
    Plain(prefix) && forall i: nat :: i < |cols| ==> cols[i].title == Numbered(prefix, i + 1)
  }

  lemma UntidyNumbered()
    ensures AreNumbered("group.", UNTIDY_COLUMNS) && Values(UNTIDY_COLUMNS) == ["a", "b", "c"]
  {
  }

  lemma NumberedPair(prefix: string, cols: Columns, i: nat, j: nat)
    requires AreNumbered(prefix, cols) && i < |cols| && j < |cols|
    ensures CiStrip(cols[i].title) == cols[i].title
    ensures i != j ==> CiStrip(cols[i].title) != CiStrip(cols[j].title)
  {
    NumberedTitles(prefix, i + 1, j + 1);
    NumberedTitles(prefix, j + 1, i + 1);
  }

  /** Columns numbered from 1 on have titles of their own. */
  lemma NumberedColumns(prefix: string, cols: Columns)
    requires AreNumbered(prefix, cols)
    ensures forall i: nat :: i < |cols| ==> CiStrip(cols[i].title) == cols[i].title
    ensures DistinctTitles(Titles(cols))
  {
    forall i: nat, j: nat | i < |cols| && j < |cols|
      ensures CiStrip(cols[i].title) == cols[i].title
      ensures i != j ==> CiStrip(cols[i].title) != CiStrip(cols[j].title)
    {
      NumberedPair(prefix, cols, i, j);
    }
  }

  lemma NumberedColumnsAreRead(prefix: string, cols: Columns, cells: Cells, list: seq<string>)
    requires AreNumbered(prefix, cols) && CellsOf(cols, cells) && IsNumberedList(cells, prefix, list)
    ensures Values(cols) <= list
  {
    NumberedColumns(prefix, cols);
    forall n: nat | 1 <= n <= |cols|
      ensures Numbered(prefix, n) in cells && cells[Numbered(prefix, n)] == Values(cols)[n - 1]
    {
      var i: nat := n - 1;
      assert cols[i] in cols && cols[i].title == Numbered(prefix, i + 1);
    }
    BeginsWith(cells, prefix, list, Values(cols));
  }

  /** Next to two groups, a member called group.3 is accepted, and read as the name of a third group. */
  lemma StrayGroupIsRead(cells: Cells, list: seq<string>)
    ensures Flatten(UNTIDY, |UNTIDY|).Ok? && DistinctTitles(Titles(Flatten(UNTIDY, |UNTIDY|).value))
    ensures GroupNames(ItemsOf(UNTIDY, "groups")) == ["a", "b"]
    ensures Table(UNTIDY, Flatten(UNTIDY, |UNTIDY|).value, cells) && IsNumberedList(cells, "group.", list) ==>
              ["a", "b", "c"] <= list
  {
    UntidyColumns();
    UntidyNumbered();
    NumberedColumns("group.", UNTIDY_COLUMNS);
    if Table(UNTIDY, UNTIDY_COLUMNS, cells) && IsNumberedList(cells, "group.", list) {
      NumberedColumnsAreRead("group.", UNTIDY_COLUMNS, cells, list);
    }
  }
}
