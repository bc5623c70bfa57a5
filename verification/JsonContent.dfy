/** The content of a flattened asset and when it flattens at all, told over the JSON document alone. */
module JsonContent {
  import opened Common
  import opened CsvTable
  import opened JsonColumns
  import opened JsonTitles

  /** The text of the first member of that name. */
  ghost predicate Says(j: Json, name: string, text: string) {
    exists k :: 0 <= k < |Members(j)| && Members(j)[k].name == name && text == TextOf(Members(j)[k])
      && forall i :: 0 <= i < k ==> Members(j)[i].name != name
  }

  lemma SaysMemberText(j: Json, name: string, text: string)
    ensures Says(j, name, text) <==> HasMember(j, name) && text == MemberText(j, name)
  {
    var k := Find(Members(j), name);
    if k < |Members(j)| {
      assert Members(j)[k].name == name;
    }
  }

  ghost predicate Has(j: Json, name: string) {
    exists b :: b in Members(j) && b.name == name
  }

  lemma HasIsMember(j: Json, name: string)
    ensures Has(j, name) <==> HasMember(j, name)
  {
    var k := Find(Members(j), name);
    if k < |Members(j)| {
      assert Members(j)[k] in Members(j);
    }
  }

  // ---------- which columns there are ----------

  ghost predicate FromGroups(items: seq<Json>, c: Column) {
    exists i: nat :: i < |items| && c.title == "group." + Decimal(i + 1) && Says(items[i], "name", c.value)
  }

  /** One column of the n-th power source. */
  ghost predicate FromPower(item: Json, n: nat, c: Column) {
    || (c.title == "power_source." + Decimal(n) && Says(item, "src_name", c.value))
    || (c.title == "power_plug_src." + Decimal(n) && Says(item, "src_socket", c.value))
    || (c.title == "power_input." + Decimal(n) && Says(item, "dest_socket", c.value))
  }

  ghost predicate FromPowers(items: seq<Json>, c: Column) {
    exists i: nat :: i < |items| && FromPower(items[i], i + 1, c)
  }

  ghost predicate FromList(items: seq<Json>, prefix: string, c: Column) {
    exists i: nat :: i < |items| && c.title == prefix + Decimal(i + 1) && c.value == TextOf(items[i])
  }

  ghost predicate FromAttribute(outlet: Json, a: Json, c: Column) {
    && (exists name :: Says(a, "name", name) && c.title == "outlet." + outlet.name + "." + name)
    && Says(a, "value", c.value)
  }

  ghost predicate FromOutlets(outlets: seq<Json>, c: Column) {
    exists o :: o in outlets && FromOutlet(o, c)
  }

  ghost predicate FromOutlet(outlet: Json, c: Column) {
    exists a :: a in Members(outlet) && FromAttribute(outlet, a, c)
  }

  ghost predicate FromExtArray(items: seq<Json>, c: Column) {
    exists a, b :: a in items && b in Members(a) && b.name != "read_only" && c == Column(b.name, TextOf(b))
  }

  /** The four informational members, and those with an encoding of their own. */
  predicate Reserved(name: string) {
    name in {"location_id", "location_uri", "power_devices_in_uri", "parents",
             "ext", "powers", "groups", "outlets", "ips", "macs", "hostnames", "fqdns"}
  }

  ghost predicate FromOwnName(members: seq<Json>, c: Column) {
    exists m :: m in members && !Reserved(m.name) && c == Column(m.name, TextOf(m))
  }

  /** All columns of an asset. */
  ghost predicate Content(members: seq<Json>, c: Column) {
    || FromOwnName(members, c)
    || FromGroups(ItemsOf(members, "groups"), c) || FromPowers(ItemsOf(members, "powers"), c)
    || FromList(ItemsOf(members, "ips"), "ip.", c) || FromList(ItemsOf(members, "macs"), "mac.", c)
    || FromList(ItemsOf(members, "hostnames"), "hostname.", c) || FromList(ItemsOf(members, "fqdns"), "fqdn.", c)
    || FromOutlets(ItemsOf(members, "outlets"), c)
    || (var e := Find(members, "ext");
        e < |members| && match members[e]
                         case Text(_, _, _) => false
                         case Array(_, _, items) => FromExtArray(items, c)
                         case Object(_, _, nested) => Content(nested, c))
  }

  lemma {:induction false} GroupColumnIn(items: seq<Json>, i: nat)
    requires i < |items|
    ensures Column(Numbered("group.", i + 1), MemberText(items[i], "name")) in GroupColumns(items)
    decreases |items|
  {
    if i < |items| - 1 {
      GroupColumnIn(items[..|items| - 1], i);
    }
  }

  lemma {:induction false} PowerColumnIn(items: seq<Json>, i: nat, c: Column)
    requires i < |items| && c in PowerColumn(items[i], i + 1)
    ensures c in PowerColumns(items)
    decreases |items|
  {
    if i < |items| - 1 {
      PowerColumnIn(items[..|items| - 1], i, c);
    }
  }

  lemma {:induction false} ListColumnIn(prefix: string, items: seq<Json>, i: nat)
    requires i < |items|
    ensures Column(Numbered(prefix, i + 1), TextOf(items[i])) in ListColumns(prefix, items)
    decreases |items|
  {
    if i < |items| - 1 {
      ListColumnIn(prefix, items[..|items| - 1], i);
    }
  }

  lemma {:induction false} GroupOfColumn(items: seq<Json>, c: Column) returns (i: nat)
    requires c in GroupColumns(items)
    ensures i < |items| && c == Column(Numbered("group.", i + 1), MemberText(items[i], "name"))
  {
    if c in GroupColumns(items[..|items| - 1]) {
      i := GroupOfColumn(items[..|items| - 1], c);
    } else {
      i := |items| - 1;
    }
  }

  /** The column is one of the i-th power source. */
  ghost predicate MadeByPower(items: seq<Json>, i: nat, c: Column) {
    i < |items| && c in PowerColumn(items[i], i + 1)
  }

  lemma {:induction false} PowerOfColumn(items: seq<Json>, c: Column) returns (i: nat)
    requires c in PowerColumns(items)
    ensures MadeByPower(items, i, c)
  {
    LastPower(items, c);
    var n: nat := |items| - 1;
    if MadeByPower(items, n, c) {
      i := n;
    } else {
      i := PowerOfColumn(items[..n], c);
      SamePower(items, n, i, c);
    }
  }

  lemma SamePower(items: seq<Json>, n: nat, i: nat, c: Column)
    requires n <= |items| && MadeByPower(items[..n], i, c)
    ensures MadeByPower(items, i, c)
  {
  }

  lemma LastPower(items: seq<Json>, c: Column)
    requires c in PowerColumns(items)
    ensures items != [] && (c in PowerColumns(items[..|items| - 1]) || MadeByPower(items, |items| - 1, c))
  {
  }

  lemma {:induction false} ElementOfColumn(prefix: string, items: seq<Json>, c: Column) returns (i: nat)
    requires c in ListColumns(prefix, items)
    ensures i < |items| && c == Column(Numbered(prefix, i + 1), TextOf(items[i]))
  {
    if c in ListColumns(prefix, items[..|items| - 1]) {
      i := ElementOfColumn(prefix, items[..|items| - 1], c);
    } else {
      i := |items| - 1;
    }
  }

  lemma GroupContent(items: seq<Json>, c: Column)
    requires AllHave(items, "name")
    ensures c in GroupColumns(items) <==> FromGroups(items, c)
  {
    if c in GroupColumns(items) {
      var i := GroupOfColumn(items, c);
      assert items[i] in items;
      SaysMemberText(items[i], "name", c.value);
    }
    if i: nat :| i < |items| && c.title == "group." + Decimal(i + 1) && Says(items[i], "name", c.value) {
      SaysMemberText(items[i], "name", c.value);
      GroupColumnIn(items, i);
    }
  }

  lemma PowerContent(item: Json, n: nat, c: Column)
    requires HasMember(item, "src_name")
    ensures c in PowerColumn(item, n) <==> FromPower(item, n, c)
  {
    SaysMemberText(item, "src_name", c.value);
    SaysMemberText(item, "src_socket", c.value);
    SaysMemberText(item, "dest_socket", c.value);
    assert c in PowerColumn(item, n) <==>
           || c == Column(Numbered("power_source.", n), MemberText(item, "src_name"))
           || c in Optional(item, "src_socket", Numbered("power_plug_src.", n))
           || c in Optional(item, "dest_socket", Numbered("power_input.", n));
  }

  lemma PowersContent(items: seq<Json>, c: Column)
    requires AllHave(items, "src_name")
    ensures c in PowerColumns(items) <==> FromPowers(items, c)
  {
    if c in PowerColumns(items) {
      var i := PowerOfColumn(items, c);
      InPowers(items, i, c);
    }
    if i: nat :| i < |items| && FromPower(items[i], i + 1, c) {
      InPowers(items, i, c);
      PowerColumnIn(items, i, c);
    }
  }

  lemma InPowers(items: seq<Json>, i: nat, c: Column)
    requires AllHave(items, "src_name") && i < |items|
    ensures c in PowerColumn(items[i], i + 1) <==> FromPower(items[i], i + 1, c)
  {
    assert items[i] in items;
    PowerContent(items[i], i + 1, c);
  }

  lemma ListContent(prefix: string, items: seq<Json>, c: Column)
    ensures c in ListColumns(prefix, items) <==> FromList(items, prefix, c)
  {
    if c in ListColumns(prefix, items) {
      var i := ElementOfColumn(prefix, items, c);
    }
    if i: nat :| i < |items| && c.title == prefix + Decimal(i + 1) && c.value == TextOf(items[i]) {
      ListColumnIn(prefix, items, i);
    }
  }

  lemma AttributeContent(outlet: Json, a: Json, c: Column)
    requires AttributeOk(a)
    ensures c == OutletColumn(outlet, a) <==> FromAttribute(outlet, a, c)
  {
    SaysMemberText(a, "name", MemberText(a, "name"));
    SaysMemberText(a, "value", c.value);
    if name :| Says(a, "name", name) && c.title == "outlet." + outlet.name + "." + name {
      SaysMemberText(a, "name", name);
    }
  }

  lemma {:induction false} OutletContent(outlet: Json, attributes: seq<Json>, c: Column)
    ensures c in OutletColumns(outlet, attributes) <==> exists a :: a in attributes && c == OutletColumn(outlet, a)
  {
    if attributes != [] {
      var before := attributes[..|attributes| - 1];
      assert attributes == before + [attributes[|attributes| - 1]];
      OutletContent(outlet, before, c);
    }
  }

  lemma OneOutletContent(outlet: Json, c: Column)
    requires OutletOk(outlet)
    ensures c in OutletColumns(outlet, Members(outlet)) <==> FromOutlet(outlet, c)
  {
    OutletContent(outlet, Members(outlet), c);
    forall a | a in Members(outlet)
      ensures c == OutletColumn(outlet, a) <==> FromAttribute(outlet, a, c)
    {
      AttributeContent(outlet, a, c);
    }
  }

  lemma {:induction false} OutletsContent(outlets: seq<Json>, c: Column)
    requires forall o :: o in outlets ==> OutletOk(o)
    ensures c in OutletsColumns(outlets) <==> FromOutlets(outlets, c)
  {
    if outlets != [] {
      var before, last := outlets[..|outlets| - 1], outlets[|outlets| - 1];
      assert outlets == before + [last];
      OutletsContent(before, c);
      OneOutletContent(last, c);
    }
  }

  lemma {:induction false} AttributesContent(members: seq<Json>, c: Column)
    ensures c in AttributeColumns(members) <==>
            exists b :: b in members && b.name != "read_only" && c == Column(b.name, TextOf(b))
  {
    if members != [] {
      var before := members[..|members| - 1];
      assert members == before + [members[|members| - 1]];
      AttributesContent(before, c);
    }
  }

  lemma {:induction false} ExtContent(items: seq<Json>, c: Column)
    ensures c in ExtColumns(items) <==> FromExtArray(items, c)
  {
    if items != [] {
      var before, last := items[..|items| - 1], items[|items| - 1];
      assert items == before + [last];
      ExtContent(before, c);
      AttributesContent(Members(last), c);
    }
  }

  /** What one member adds, by its name. */
  ghost predicate FromMember(members: seq<Json>, i: nat, c: Column)
    requires i < |members|
  {
    var name := members[i].name;
    || (!Reserved(name) && c == Column(name, TextOf(members[i])))
    || (name == "groups" && FromGroups(ItemsOf(members, name), c))
    || (name == "powers" && FromPowers(ItemsOf(members, name), c))
    || (name == "ips" && FromList(ItemsOf(members, name), "ip.", c))
    || (name == "macs" && FromList(ItemsOf(members, name), "mac.", c))
    || (name == "hostnames" && FromList(ItemsOf(members, name), "hostname.", c))
    || (name == "fqdns" && FromList(ItemsOf(members, name), "fqdn.", c))
    || (name == "outlets" && FromOutlets(ItemsOf(members, name), c))
    || (name == "ext" && var m := members[Find(members, name)];
        match m
        case Text(_, _, _) => false
        case Array(_, _, items) => FromExtArray(items, c)
        case Object(_, _, nested) => Content(nested, c))
  }

  lemma {:induction false} MemberContent(members: seq<Json>, i: nat, c: Column)
    requires i < |members| && MemberColumns(members, i).Ok?
    ensures c in MemberColumns(members, i).value <==> FromMember(members, i, c)
    decreases members, 0
  {
    var name := members[i].name;
    var m := members[Find(members, name)];
    if name == "ext" {
      if m.Array? {
        ExtContent(m.items, c);
      } else {
        assert m in members;
        ContentIsFlattened(m.members, c);
      }
    } else if name == "powers" {
      PowersContent(m.items, c);
    } else if name == "groups" {
      GroupContent(m.items, c);
    } else if name == "outlets" {
      OutletsContent(m.members, c);
    } else if IsList(name) {
      ListContent(ListPrefix(name), m.items, c);
    }
  }

  lemma FirstOfName(members: seq<Json>, key: string, c: Column)
    requires Find(members, key) < |members| && Reserved(key)
    ensures FromMember(members, Find(members, key), c) ==> Content(members, c)
  {
  }

  lemma ContentFromMembers(members: seq<Json>, c: Column)
    ensures Content(members, c) <==> exists i :: 0 <= i < |members| && FromMember(members, i, c)
  {
    if Content(members, c) {
      if FromOwnName(members, c) {
        var m :| m in members && !Reserved(m.name) && c == Column(m.name, TextOf(m));
        var i :| 0 <= i < |members| && members[i] == m;
        assert FromMember(members, i, c);
      } else {
        var key := KeyOf(members, c);
        assert FromMember(members, Find(members, key), c);
      }
    }
    if i :| 0 <= i < |members| && FromMember(members, i, c) {
      assert members[i] in members;
    }
  }

  /** A column that is not a member's own comes from the first member of one of these names. */
  lemma KeyOf(members: seq<Json>, c: Column) returns (key: string)
    requires Content(members, c) && !FromOwnName(members, c)
    ensures Find(members, key) < |members| && FromMember(members, Find(members, key), c)
  {
    if FromGroups(ItemsOf(members, "groups"), c) { key := "groups"; }
    else if FromPowers(ItemsOf(members, "powers"), c) { key := "powers"; }
    else if FromList(ItemsOf(members, "ips"), "ip.", c) { key := "ips"; }
    else if FromList(ItemsOf(members, "macs"), "mac.", c) { key := "macs"; }
    else if FromList(ItemsOf(members, "hostnames"), "hostname.", c) { key := "hostnames"; }
    else if FromList(ItemsOf(members, "fqdns"), "fqdn.", c) { key := "fqdns"; }
    else if FromOutlets(ItemsOf(members, "outlets"), c) { key := "outlets"; }
    else { key := "ext"; }
  }

  /** The columns of a flattened asset are exactly its content. */
  lemma {:induction false} ContentIsFlattened(members: seq<Json>, c: Column)
    requires Flatten(members, |members|).Ok?
    ensures c in Flatten(members, |members|).value <==> Content(members, c)
    decreases members, 1
  {
    if c in Flatten(members, |members|).value {
      var i := MemberOfColumn(members, |members|, c);
      MemberContent(members, i, c);
    }
    ContentFromMembers(members, c);
    if i :| 0 <= i < |members| && FromMember(members, i, c) {
      MemberIsFlattened(members, i, |members|, c);
      MemberContent(members, i, c);
    }
  }

  // ---------- which assets flatten ----------

  /** An attribute has its three keys, the first read_only being a truth value. */
  ghost predicate WellFormedAttribute(a: Json) {
    && Has(a, "name") && Has(a, "value")
    && exists k :: 0 <= k < |Members(a)| && Members(a)[k].name == "read_only" && Members(a)[k].isBool
         && forall i :: 0 <= i < k ==> Members(a)[i].name != "read_only"
  }

  lemma AttributeOkMeans(a: Json)
    ensures AttributeOk(a) <==> WellFormedAttribute(a)
  {
    HasIsMember(a, "name");
    HasIsMember(a, "value");
    var k := Find(Members(a), "read_only");
    assert k < |Members(a)| ==> Members(a)[k].name == "read_only";
  }

  ghost predicate WellFormedOutlet(o: Json) {
    o.Array? && forall a :: a in o.items ==> WellFormedAttribute(a)
  }

  lemma OutletOkMeans(o: Json)
    ensures OutletOk(o) <==> WellFormedOutlet(o)
  {
    forall a
      ensures AttributeOk(a) <==> WellFormedAttribute(a)
    {
      AttributeOkMeans(a);
    }
  }

  /** The member of this name, if there is one, has the form that its name asks for. */
  ghost predicate WellFormedMember(m: Json) {
    match m.name
    case "powers" => m.Array? && forall j :: j in m.items ==> Has(j, "src_name")
    case "groups" => m.Array? && forall j :: j in m.items ==> Has(j, "name")
    case "outlets" => m.Object? && forall o :: o in m.members ==> WellFormedOutlet(o)
    case "ips" => m.Array?
    case "macs" => m.Array?
    case "hostnames" => m.Array?
    case "fqdns" => m.Array?
    case "ext" => (m.Array? && forall j :: j in m.items ==> |Members(j)| == 2) || (m.Object? && WellFormed(m.members))
    case _ => true
  }

  /** The first member of every name has the form that its name asks for; the ones behind it are not looked at. */
  ghost predicate WellFormed(members: seq<Json>) {
    forall i :: 0 <= i < |members| && (forall j :: 0 <= j < i ==> members[j].name != members[i].name) ==>
      WellFormedMember(members[i])
  }

  ghost predicate MemberOk(members: seq<Json>, i: nat)
    requires i < |members|
  {
    MemberColumns(members, i).Ok?
  }

  lemma {:induction false} FlattensIfAllDo(members: seq<Json>, n: nat)
    requires n <= |members| && forall i :: 0 <= i < n ==> MemberOk(members, i)
    ensures Flatten(members, n).Ok?
    decreases n
  {
    if n > 0 {
      FlattensIfAllDo(members, n - 1);
      assert MemberOk(members, n - 1);
    }
  }

  lemma {:induction false} MemberFlattens(members: seq<Json>, i: nat)
    requires i < |members|
    ensures MemberOk(members, i) <==> WellFormedMember(members[Find(members, members[i].name)])
    decreases members, 0
  {
    var name := members[i].name;
    var m := members[Find(members, name)];
    assert m in members;
    if name == "ext" {
      if m.Object? {
        FlattensExactly(m.members);
      }
    } else if name == "powers" || name == "groups" {
      forall j
        ensures Has(j, "src_name") == HasMember(j, "src_name") && Has(j, "name") == HasMember(j, "name")
      {
        HasIsMember(j, "src_name");
        HasIsMember(j, "name");
      }
    } else if name == "outlets" {
      forall o
        ensures OutletOk(o) <==> WellFormedOutlet(o)
      {
        OutletOkMeans(o);
      }
    }
  }

  /** An asset flattens if and only if it is well-formed, nested attributes included. */
  lemma {:induction false} FlattensExactly(members: seq<Json>)
    ensures Flatten(members, |members|).Ok? <==> WellFormed(members)
    decreases members, 1
  {
    forall i | 0 <= i < |members|
      ensures MemberOk(members, i) <==> WellFormedMember(members[Find(members, members[i].name)])
    {
      MemberFlattens(members, i);
    }
    if WellFormed(members) {
      forall i | 0 <= i < |members|
        ensures MemberOk(members, i)
      {
        var k := Find(members, members[i].name);
        assert members[k].name == members[i].name && forall j :: 0 <= j < k ==> members[j].name != members[k].name;
      }
      FlattensIfAllDo(members, |members|);
    }
    if Flatten(members, |members|).Ok? {
      forall i | 0 <= i < |members| && forall j :: 0 <= j < i ==> members[j].name != members[i].name
        ensures WellFormedMember(members[i])
      {
        MemberIsFlattened(members, i, |members|, Column("", ""));
        assert MemberOk(members, i);
        assert Find(members, members[i].name) == i;
      }
    }
  }

  /** The informational members make no column. */
  lemma InformationalMembersAreLeftOut(members: seq<Json>, i: nat)
    requires i < |members|
    requires members[i].name in {"location_id", "location_uri", "power_devices_in_uri", "parents"}
    ensures MemberColumns(members, i) == Ok([])
  {
  }
}
