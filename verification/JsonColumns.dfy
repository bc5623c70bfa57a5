/** s_read_si: a JSON asset becomes one row of titled cells. */
module JsonColumns {
  import opened CsvTable

  /** A node of the parsed document, with the name it has in its parent; isBool: it can be read as a truth value. */
  datatype Json = Text(name: string, isBool: bool, text: string) | Array(name: string, isBool: bool, items: seq<Json>)
                | Object(name: string, isBool: bool, members: seq<Json>)

  datatype Column = Column(title: string, value: string)

  type Columns = seq<Column>

  function Members(j: Json): seq<Json> {
    match j
    case Text(_, _, _) => []
    case Array(_, _, items) => items
    case Object(_, _, members) => members
  }

  /** The text of a node; a node that holds other nodes has none. */
  function TextOf(j: Json): string {
    if j.Text? then j.text else ""
  }

  /** findMember: the first member of that name, |members| when there is none. */
  function Find(members: seq<Json>, name: string): (k: nat)
    ensures k <= |members|
    ensures k < |members| ==> members[k].name == name
    ensures forall i :: 0 <= i < k ==> members[i].name != name
  {
    if members == [] then 0
    else if members[0].name == name then 0
    else
      var k := Find(members[1..], name);
      assert forall i :: 1 <= i < k + 1 ==> members[i] == members[1..][i - 1];
      k + 1
  }

  predicate HasMember(j: Json, name: string) {
    Find(Members(j), name) < |Members(j)|
  }

  function MemberText(j: Json, name: string): string {
    var k := Find(Members(j), name);
    if k < |Members(j)| then TextOf(Members(j)[k]) else ""
  }

  // ---------- the columns of each kind of member ----------

  /** Columns prefix.1, prefix.2, ... for the texts of a list. */
  function ListColumns(prefix: string, items: seq<Json>): Columns {
    if items == [] then []
    else ListColumns(prefix, items[..|items| - 1]) +
         [Column(Numbered(prefix, |items|), TextOf(items[|items| - 1]))]
  }

  function GroupColumns(items: seq<Json>): Columns {
    if items == [] then []
    else GroupColumns(items[..|items| - 1]) +
         [Column(Numbered("group.", |items|), MemberText(items[|items| - 1], "name"))]
  }

  function Optional(j: Json, member: string, title: string): Columns {
    if HasMember(j, member) then [Column(title, MemberText(j, member))] else []
  }

  function PowerColumns(items: seq<Json>): Columns {
    if items == [] then []
    else PowerColumns(items[..|items| - 1]) + PowerColumn(items[|items| - 1], |items|)
  }

  /** The columns of the n-th power source. */
  function PowerColumn(item: Json, n: nat): Columns {
    [Column(Numbered("power_source.", n), MemberText(item, "src_name"))] +
    Optional(item, "src_socket", Numbered("power_plug_src.", n)) +
    Optional(item, "dest_socket", Numbered("power_input.", n))
  }

  lemma Reassociate(a: Columns, b: Columns, c: Columns)
    ensures a + b + c == a + (b + c)
  {
  }

  lemma OneMore(list: seq<Json>, i: nat)
    requires i < |list|
    ensures list[..i + 1] == list[..i] + [list[i]] && list[..i + 1][..i] == list[..i]
  {
  }

  predicate AllHave(items: seq<Json>, member: string) {
    forall j :: j in items ==> HasMember(j, member)
  }

  function OutletColumns(outlet: Json, attributes: seq<Json>): Columns {
    if attributes == [] then []
    else OutletColumns(outlet, attributes[..|attributes| - 1]) + [OutletColumn(outlet, attributes[|attributes| - 1])]
  }

  function OutletColumn(outlet: Json, attribute: Json): Column {
    Column("outlet." + outlet.name + "." + MemberText(attribute, "name"), MemberText(attribute, "value"))
  }

  /** All three keys are there, and the read_only mark is a truth value. */
  predicate AttributeOk(attribute: Json) {
    && HasMember(attribute, "name") && HasMember(attribute, "value") && HasMember(attribute, "read_only")
    && Members(attribute)[Find(Members(attribute), "read_only")].isBool
  }

  predicate OutletOk(outlet: Json) {
    outlet.Array? && forall a :: a in outlet.items ==> AttributeOk(a)
  }

  function OutletsColumns(outlets: seq<Json>): Columns {
    if outlets == [] then []
    else
      var last := outlets[|outlets| - 1];
      OutletsColumns(outlets[..|outlets| - 1]) + OutletColumns(last, Members(last))
  }

  /** The members of one ext attribute, without the read_only mark. */
  function AttributeColumns(members: seq<Json>): Columns {
    if members == [] then []
    else
      var last := members[|members| - 1];
      AttributeColumns(members[..|members| - 1]) +
      if last.name == "read_only" then [] else [Column(last.name, TextOf(last))]
  }

  function ExtColumns(items: seq<Json>): Columns {
    if items == [] then []
    else ExtColumns(items[..|items| - 1]) + AttributeColumns(Members(items[|items| - 1]))
  }

  predicate Ignored(name: string) {
    name == "location_id" || name == "location_uri" || name == "power_devices_in_uri" || name == "parents"
  }

  predicate IsList(name: string) {
    name == "ips" || name == "macs" || name == "hostnames" || name == "fqdns"
  }

  function ListPrefix(name: string): string
    requires IsList(name)
  {
    if name == "ips" then "ip." else if name == "macs" then "mac."
    else if name == "hostnames" then "hostname." else "fqdn."
  }

  /** What one member adds; members of a known name are read from the first of that name. */
  function MemberColumns(members: seq<Json>, i: nat): Result<Columns>
    requires i < |members|
    decreases members, 0
  {
    var name := members[i].name;
    var k := Find(members, name);
    assert k <= i;
    var m := members[k];
    if name == "ext" then
      if m.Array? then
        if forall a :: a in m.items ==> |Members(a)| == 2 then Ok(ExtColumns(m.items)) else Err
      else if m.Object? then
        assert m in members;
        Flatten(m.members, |m.members|)
      else Err
    else if Ignored(name) then Ok([])
    else if name == "powers" then if m.Array? && AllHave(m.items, "src_name") then Ok(PowerColumns(m.items)) else Err
    else if name == "groups" then if m.Array? && AllHave(m.items, "name") then Ok(GroupColumns(m.items)) else Err
    else if name == "outlets" then
      if m.Object? && forall o :: o in m.members ==> OutletOk(o) then Ok(OutletsColumns(m.members)) else Err
    else if IsList(name) then if m.Array? then Ok(ListColumns(ListPrefix(name), m.items)) else Err
    else Ok([Column(name, TextOf(members[i]))])
  }

  /** The columns of the first n members. */
  function Flatten(members: seq<Json>, n: nat): Result<Columns>
    requires n <= |members|
    decreases members, 1, n
  {
    if n == 0 then Ok([])
    else
      var before, last := Flatten(members, n - 1), MemberColumns(members, n - 1);
      if before.Ok? && last.Ok? then Ok(before.value + last.value) else Err
  }

  // ---------- the two rows that grow ----------

  function Titles(cols: Columns): (r: seq<string>)
    ensures |r| == |cols|
  {
    seq(|cols|, i requires 0 <= i < |cols| => cols[i].title)
  }

  function Values(cols: Columns): (r: seq<string>)
    ensures |r| == |cols|
  {
    seq(|cols|, i requires 0 <= i < |cols| => cols[i].value)
  }

  /** data[0] and data[1] of the source; columns is what they hold, column by column. */
  class Rows {
    var titles: seq<string>
    var values: seq<string>
    ghost var columns: Columns

    ghost predicate Valid()
      reads this
    {
      titles == Titles(columns) && values == Values(columns)
    }

    constructor ()
      ensures Valid() && columns == []
    {
      titles, values, columns := [], [], [];
    }

    method Push(title: string, value: string)
      requires Valid()
      modifies this
      ensures Valid() && columns == old(columns) + [Column(title, value)]
    {
      titles, values := titles + [title], values + [value];
      columns := columns + [Column(title, value)];
    }

    method PushPower(item: Json, n: nat)
      requires Valid()
      modifies this
      ensures Valid() && columns == old(columns) + PowerColumn(item, n)
    {
      Push(Numbered("power_source.", n), MemberText(item, "src_name"));
      // the sockets are optional
      if HasMember(item, "src_socket") {
        Push(Numbered("power_plug_src.", n), MemberText(item, "src_socket"));
      }
      if HasMember(item, "dest_socket") {
        Push(Numbered("power_input.", n), MemberText(item, "dest_socket"));
      }
    }

    /** process_powers_key. A failure leaves equally long rows with the columns before the faulty element. */
    method ProcessPowers(si: Json) returns (ok: bool)
      requires Valid()
      modifies this
      ensures Valid() && old(columns) <= columns
      ensures ok <==> si.Array? && AllHave(si.items, "src_name")
      ensures ok ==> columns == old(columns) + PowerColumns(si.items)
    {
      if !si.Array? {
        return false;
      }
      for i := 0 to |si.items|
        invariant Valid() && AllHave(si.items[..i], "src_name")
        invariant columns == old(columns) + PowerColumns(si.items[..i])
      {
        OneMore(si.items, i);
        var item := si.items[i];
        if !HasMember(item, "src_name") {
          return false;
        }
        Reassociate(old(columns), PowerColumns(si.items[..i]), PowerColumn(item, i + 1));
        PushPower(item, i + 1);
      }
      assert si.items[..|si.items|] == si.items;
      return true;
    }

    /** process_groups_key. */
    method ProcessGroups(si: Json) returns (ok: bool)
      requires Valid()
      modifies this
      ensures Valid() && old(columns) <= columns
      ensures ok <==> si.Array? && AllHave(si.items, "name")
      ensures ok ==> columns == old(columns) + GroupColumns(si.items)
    {
      if !si.Array? {
        return false;
      }
      for i := 0 to |si.items|
        invariant Valid() && AllHave(si.items[..i], "name")
        invariant columns == old(columns) + GroupColumns(si.items[..i])
      {
        OneMore(si.items, i);
        var item := si.items[i];
        if !HasMember(item, "name") {
          return false;
        }
        Push(Numbered("group.", i + 1), MemberText(item, "name"));
      }
      assert si.items[..|si.items|] == si.items;
      return true;
    }

    /** process_ips_key, process_macs_key, process_hostnames_key and process_fqdns_key. */
    method ProcessList(si: Json, prefix: string) returns (ok: bool)
      requires Valid()
      modifies this
      ensures Valid() && old(columns) <= columns
      ensures ok <==> si.Array?
      ensures ok ==> columns == old(columns) + ListColumns(prefix, si.items)
    {
      if !si.Array? {
        return false;
      }
      for i := 0 to |si.items|
        invariant Valid() && columns == old(columns) + ListColumns(prefix, si.items[..i])
      {
        assert si.items[..i + 1][..i] == si.items[..i];
        Push(Numbered(prefix, i + 1), TextOf(si.items[i]));
      }
      assert si.items[..|si.items|] == si.items;
      return true;
    }

    /** process_oneOutlet: the three conversions of an attribute fail together. */
    method ProcessOutlet(outlet: Json) returns (ok: bool)
      requires Valid()
      modifies this
      ensures Valid() && old(columns) <= columns
      ensures ok <==> OutletOk(outlet)
      ensures ok ==> columns == old(columns) + OutletColumns(outlet, Members(outlet))
    {
      if !outlet.Array? {
        return false;
      }
      for i := 0 to |outlet.items|
        invariant Valid() && columns == old(columns) + OutletColumns(outlet, outlet.items[..i])
        invariant forall a :: a in outlet.items[..i] ==> AttributeOk(a)
      {
        OneMore(outlet.items, i);
        var attribute := outlet.items[i];
        if !AttributeOk(attribute) {
          return false;
        }
        var column := OutletColumn(outlet, attribute);
        Push(column.title, column.value);
      }
      assert outlet.items[..|outlet.items|] == outlet.items;
      return true;
    }

    /** process_outlets_key. */
    method ProcessOutlets(si: Json) returns (ok: bool)
      requires Valid()
      modifies this
      ensures Valid() && old(columns) <= columns
      ensures ok <==> si.Object? && forall o :: o in si.members ==> OutletOk(o)
      ensures ok ==> columns == old(columns) + OutletsColumns(si.members)
    {
      if !si.Object? {
        return false;
      }
      for i := 0 to |si.members|
        invariant Valid() && columns == old(columns) + OutletsColumns(si.members[..i])
        invariant forall o :: o in si.members[..i] ==> OutletOk(o)
      {
        OneMore(si.members, i);
        var outlet := si.members[i];
        Reassociate(old(columns), OutletsColumns(si.members[..i]), OutletColumns(outlet, Members(outlet)));
        var done := ProcessOutlet(outlet);
        if !done {
          assert outlet in si.members;
          return false;
        }
      }
      assert si.members[..|si.members|] == si.members;
      return true;
    }

    /** The array form of process_ext_key: each element holds an attribute and its read_only mark. */
    method ProcessExtArray(items: seq<Json>) returns (ok: bool)
      requires Valid()
      modifies this
      ensures Valid() && old(columns) <= columns
      ensures ok <==> forall a :: a in items ==> |Members(a)| == 2
      ensures ok ==> columns == old(columns) + ExtColumns(items)
    {
      for i := 0 to |items|
        invariant Valid() && columns == old(columns) + ExtColumns(items[..i])
        invariant forall a :: a in items[..i] ==> |Members(a)| == 2
      {
        OneMore(items, i);
        var attribute := Members(items[i]);
        if |attribute| != 2 {
          return false;
        }
        ghost var before := columns;
        for k := 0 to 2
          invariant Valid() && columns == before + AttributeColumns(attribute[..k])
        {
          assert attribute[..k + 1][..k] == attribute[..k];
          if attribute[k].name != "read_only" {
            Push(attribute[k].name, TextOf(attribute[k]));
          }
        }
        assert attribute[..2] == attribute;
      }
      assert items[..|items|] == items;
      return true;
    }

    /** The body of the loop of s_read_si, with process_ext_key for the nested attributes. */
    method ReadMember(members: seq<Json>, i: nat) returns (ok: bool)
      requires Valid() && i < |members|
      modifies this
      ensures Valid() && old(columns) <= columns
      ensures ok <==> MemberColumns(members, i).Ok?
      ensures ok ==> columns == old(columns) + MemberColumns(members, i).value
      decreases members, 0
    {
      var name := members[i].name;
      var m := members[Find(members, name)];
      if name == "ext" {
        if m.Array? {
          ok := ProcessExtArray(m.items);
        } else if m.Object? {
          assert m in members;
          ok := ReadSi(m.members);
        } else {
          ok := false;
        }
      } else if Ignored(name) {
        ok := true;
      } else if name == "powers" {
        ok := ProcessPowers(m);
      } else if name == "groups" {
        ok := ProcessGroups(m);
      } else if name == "outlets" {
        ok := ProcessOutlets(m);
      } else if IsList(name) {
        ok := ProcessList(m, ListPrefix(name));
      } else {
        Push(name, TextOf(members[i]));
        ok := true;
      }
    }

    /** s_read_si on the members of an object. */
    method ReadSi(members: seq<Json>) returns (ok: bool)
      requires Valid()
      modifies this
      ensures Valid() && old(columns) <= columns
      ensures ok <==> Flatten(members, |members|).Ok?
      ensures ok ==> columns == old(columns) + Flatten(members, |members|).value
      decreases members, 1
    {
      ghost var before := columns;
      for i := 0 to |members|
        invariant Valid() && Flatten(members, i).Ok?
        invariant columns == before + Flatten(members, i).value
      {
        var done := ReadMember(members, i);
        if !done {
          ErrStays(members, i + 1, |members|);
          return false;
        }
        Reassociate(before, Flatten(members, i).value, MemberColumns(members, i).value);
      }
      return true;
    }
  }

  lemma {:induction false} ErrStays(members: seq<Json>, i: nat, n: nat)
    requires i <= n <= |members| && Flatten(members, i).Err?
    ensures Flatten(members, n).Err?
    decreases n - i
  {
    if i < n {
      ErrStays(members, i, n - 1);
    }
  }
}
