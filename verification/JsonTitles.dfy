/** Which titles a JSON asset flattens to, told from its members alone. */
module JsonTitles {
  import opened Common
  import opened CsvTable
  import opened JsonColumns

  predicate HasOwnMeaning(name: string) {
    name == "ext" || Ignored(name) || name == "powers" || name == "groups" || name == "outlets" || IsList(name)
  }

  // ---------- names that become titles as they are ----------

  /** The attributes in the array form of ext. */
  function AttributeNames(items: seq<Json>): set<string> {
    set a, b | a in items && b in Members(a) && b.name != "read_only" :: CiStrip(b.name)
  }

  /** The stripped names of all members, nested ones included, that are columns under their own name. */
  function OwnNames(members: seq<Json>): set<string> {
    var e := Find(members, "ext");
    (set m | m in members && !HasOwnMeaning(m.name) :: CiStrip(m.name)) +
    if e == |members| then {}
    else
      match members[e]
      case Text(_, _, _) => {}
      case Array(_, _, items) => AttributeNames(items)
      case Object(_, _, nested) => OwnNames(nested)
  }

  // ---------- lists that become numbered titles ----------

  predicate IsPrefix(prefix: string) {
    || prefix == "group." || prefix == "power_source." || prefix == "power_plug_src." || prefix == "power_input."
    || prefix == "ip." || prefix == "mac." || prefix == "hostname." || prefix == "fqdn."
  }

  /** The list whose elements make the titles with this prefix. */
  function Key(prefix: string): string
    requires IsPrefix(prefix)
  {
    if prefix == "group." then "groups" else if prefix == "ip." then "ips" else if prefix == "mac." then "macs"
    else if prefix == "hostname." then "hostnames" else if prefix == "fqdn." then "fqdns" else "powers"
  }

  function ItemsOf(members: seq<Json>, key: string): seq<Json> {
    var k := Find(members, key);
    if k < |members| then Members(members[k]) else []
  }

  /** An element of the list makes a title with this prefix; only the sockets are optional. */
  predicate Given(item: Json, prefix: string) {
    && (prefix == "power_plug_src." ==> HasMember(item, "src_socket"))
    && (prefix == "power_input." ==> HasMember(item, "dest_socket"))
  }

  /** The text of that title's cell. */
  function ItemText(item: Json, prefix: string): string {
    if prefix == "group." then MemberText(item, "name")
    else if prefix == "power_source." then MemberText(item, "src_name")
    else if prefix == "power_plug_src." then MemberText(item, "src_socket")
    else if prefix == "power_input." then MemberText(item, "dest_socket")
    else TextOf(item)
  }

  predicate ListedHere(members: seq<Json>, prefix: string, n: nat)
    requires IsPrefix(prefix)
  {
    var items := ItemsOf(members, Key(prefix));
    1 <= n <= |items| && Given(items[n - 1], prefix)
  }

  /** A list of the nested attributes has the element. */
  predicate ListedBelow(members: seq<Json>, prefix: string, n: nat)
    requires IsPrefix(prefix)
    decreases members, 0
  {
    var e := Find(members, "ext");
    e < |members| && members[e].Object? && Listed(members[e].members, prefix, n)
  }

  predicate Listed(members: seq<Json>, prefix: string, n: nat)
    requires IsPrefix(prefix)
    decreases members, 1
  {
    ListedHere(members, prefix, n) || ListedBelow(members, prefix, n)
  }

  // ---------- titles are told apart ----------

  lemma {:induction false} DigitsHaveNoDot(n: nat)
    ensures '.' !in Decimal(n)
  {
    if n >= 10 {
      DigitsHaveNoDot(n / 10);
    }
  }

  lemma PrefixEndsInDot(p: string)
    requires IsPrefix(p)
    ensures p != [] && forall i :: 0 <= i < |p| ==> (p[i] == '.' <==> i == |p| - 1)
  {
  }

  /** The only dot of a numbered title ends its prefix. */
  lemma OneDot(p: string, n: nat)
    requires IsPrefix(p)
    ensures var t := Numbered(p, n); forall i :: 0 <= i < |t| ==> (t[i] == '.' <==> i == |p| - 1)
  {
    PrefixEndsInDot(p);
    DigitsHaveNoDot(n);
  }

  lemma SamePrefix(p: string, m: nat, q: string, n: nat)
    requires IsPrefix(p) && IsPrefix(q) && Numbered(p, m) == Numbered(q, n)
    ensures p == q
  {
    OneDot(p, m);
    OneDot(q, n);
    PrefixEndsInDot(p);
    PrefixEndsInDot(q);
    var t := Numbered(p, m);
    assert t[|p| - 1] == '.' && |p| == |q|;
    assert p == t[..|p|] && q == t[..|q|];
  }

  lemma TitlesDiffer(p: string, m: nat, q: string, n: nat)
    requires IsPrefix(p) && IsPrefix(q)
    ensures CiStrip(Numbered(p, m)) == Numbered(q, n) <==> p == q && m == n
  {
    NumberedTitles(p, n, m);
    if Numbered(p, m) == Numbered(q, n) {
      SamePrefix(p, m, q, n);
    }
  }

  // ---------- the titles of each kind of member ----------

  ghost predicate Makes(cols: Columns, title: string) {
    exists c :: c in cols && CiStrip(c.title) == title
  }

  lemma MakesOne(c: Column, title: string)
    ensures Makes([c], title) <==> CiStrip(c.title) == title
  {
    assert c in [c];
  }

  lemma MakesEither(a: Columns, b: Columns, title: string)
    ensures Makes(a + b, title) <==> Makes(a, title) || Makes(b, title)
  {
    assert forall c :: c in a + b <==> c in a || c in b;
  }

  lemma {:induction false} GroupTitles(items: seq<Json>, p: string, n: nat)
    requires IsPrefix(p)
    ensures Makes(GroupColumns(items), Numbered(p, n)) <==> p == "group." && 1 <= n <= |items|
  {
    if items != [] {
      var before, k := items[..|items| - 1], |items|;
      var c := Column(Numbered("group.", k), MemberText(items[k - 1], "name"));
      GroupTitles(before, p, n);
      TitlesDiffer("group.", k, p, n);
      MakesOne(c, Numbered(p, n));
      MakesEither(GroupColumns(before), [c], Numbered(p, n));
    }
  }

  lemma {:induction false} ListTitles(prefix: string, items: seq<Json>, p: string, n: nat)
    requires IsPrefix(prefix) && IsPrefix(p)
    ensures Makes(ListColumns(prefix, items), Numbered(p, n)) <==> p == prefix && 1 <= n <= |items|
  {
    if items != [] {
      var before, k := items[..|items| - 1], |items|;
      var c := Column(Numbered(prefix, k), TextOf(items[k - 1]));
      ListTitles(prefix, before, p, n);
      TitlesDiffer(prefix, k, p, n);
      MakesOne(c, Numbered(p, n));
      MakesEither(ListColumns(prefix, before), [c], Numbered(p, n));
    }
  }

  lemma OptionalTitle(item: Json, member: string, prefix: string, k: nat, p: string, n: nat)
    requires IsPrefix(prefix) && IsPrefix(p)
    ensures Makes(Optional(item, member, Numbered(prefix, k)), Numbered(p, n)) <==>
            HasMember(item, member) && p == prefix && n == k
  {
    TitlesDiffer(prefix, k, p, n);
    MakesOne(Column(Numbered(prefix, k), MemberText(item, member)), Numbered(p, n));
  }

  lemma PowerTitle(item: Json, k: nat, p: string, n: nat)
    requires IsPrefix(p)
    ensures Makes(PowerColumn(item, k), Numbered(p, n)) <==> Key(p) == "powers" && n == k && Given(item, p)
  {
    var source := Column(Numbered("power_source.", k), MemberText(item, "src_name"));
    var plug := Optional(item, "src_socket", Numbered("power_plug_src.", k));
    var input := Optional(item, "dest_socket", Numbered("power_input.", k));
    TitlesDiffer("power_source.", k, p, n);
    MakesOne(source, Numbered(p, n));
    OptionalTitle(item, "src_socket", "power_plug_src.", k, p, n);
    OptionalTitle(item, "dest_socket", "power_input.", k, p, n);
    MakesEither([source], plug, Numbered(p, n));
    MakesEither([source] + plug, input, Numbered(p, n));
  }

  lemma {:induction false} PowerTitles(items: seq<Json>, p: string, n: nat)
    requires IsPrefix(p)
    ensures Makes(PowerColumns(items), Numbered(p, n)) <==>
            Key(p) == "powers" && 1 <= n <= |items| && Given(items[n - 1], p)
  {
    if items != [] {
      var before, k := items[..|items| - 1], |items|;
      PowerTitles(before, p, n);
      PowerTitle(items[k - 1], k, p, n);
      MakesEither(PowerColumns(before), PowerColumn(items[k - 1], k), Numbered(p, n));
    }
  }

  lemma {:induction false} OutletTitles(outlet: Json, attributes: seq<Json>)
    ensures forall c :: c in OutletColumns(outlet, attributes) ==> CiStrip(c.title) != [] && CiStrip(c.title)[0] == 'o'
  {
    if attributes != [] {
      OutletTitles(outlet, attributes[..|attributes| - 1]);
    }
  }

  /** No numbered title looks like an outlet's. */
  lemma {:induction false} OutletsTitles(outlets: seq<Json>, p: string, n: nat)
    requires IsPrefix(p)
    ensures !Makes(OutletsColumns(outlets), Numbered(p, n))
  {
    if outlets != [] {
      var before, last := outlets[..|outlets| - 1], outlets[|outlets| - 1];
      OutletsTitles(before, p, n);
      OutletTitles(last, Members(last));
      assert Numbered(p, n)[0] == p[0] != 'o';
      MakesEither(OutletsColumns(before), OutletColumns(last, Members(last)), Numbered(p, n));
    }
  }

  lemma {:induction false} AttributeTitles(members: seq<Json>, title: string)
    ensures Makes(AttributeColumns(members), title) <==>
            exists b :: b in members && b.name != "read_only" && CiStrip(b.name) == title
  {
    if members != [] {
      var before, last := members[..|members| - 1], members[|members| - 1];
      assert members == before + [last];
      AttributeTitles(before, title);
      var cols := if last.name == "read_only" then [] else [Column(last.name, TextOf(last))];
      MakesOne(Column(last.name, TextOf(last)), title);
      MakesEither(AttributeColumns(before), cols, title);
    }
  }

  lemma {:induction false} ExtTitles(items: seq<Json>, title: string)
    ensures Makes(ExtColumns(items), title) <==> title in AttributeNames(items)
  {
    if items != [] {
      var before, last := items[..|items| - 1], items[|items| - 1];
      assert items == before + [last];
      ExtTitles(before, title);
      AttributeTitles(Members(last), title);
      MakesEither(ExtColumns(before), AttributeColumns(Members(last)), title);
      assert AttributeNames(items) == AttributeNames(before) + AttributeNames([last]);
      assert title in AttributeNames([last]) <==>
             exists b :: b in Members(last) && b.name != "read_only" && CiStrip(b.name) == title;
    }
  }

  // ---------- the titles of an asset ----------

  /** The columns of every member are among those of the asset. */
  lemma {:induction false} MemberIsFlattened(members: seq<Json>, i: nat, n: nat, c: Column)
    requires i < n <= |members| && Flatten(members, n).Ok?
    ensures MemberColumns(members, i).Ok?
    ensures c in MemberColumns(members, i).value ==> c in Flatten(members, n).value
    decreases n
  {
    if i < n - 1 {
      MemberIsFlattened(members, i, n - 1, c);
    }
  }

  /** And every column of the asset is one of some member. */
  lemma {:induction false} MemberOfColumn(members: seq<Json>, n: nat, c: Column) returns (i: nat)
    requires n <= |members| && Flatten(members, n).Ok? && c in Flatten(members, n).value
    ensures i < n && MemberColumns(members, i).Ok? && c in MemberColumns(members, i).value
    decreases n
  {
    if c in MemberColumns(members, n - 1).value {
      i := n - 1;
    } else {
      i := MemberOfColumn(members, n - 1, c);
    }
  }

  /** The title comes from member i. */
  ghost predicate MadeBy(members: seq<Json>, i: nat, prefix: string, n: nat)
    requires i < |members| && IsPrefix(prefix)
  {
    var name, title := members[i].name, Numbered(prefix, n);
    if name == "ext" then
      match members[Find(members, "ext")]
      case Text(_, _, _) => false
      case Array(_, _, items) => title in AttributeNames(items)
      case Object(_, _, nested) => title in OwnNames(nested) || Listed(nested, prefix, n)
    else if HasOwnMeaning(name) then name == Key(prefix) && ListedHere(members, prefix, n)
    else CiStrip(name) == title
  }

  lemma MadeBySome(members: seq<Json>, prefix: string, n: nat)
    requires IsPrefix(prefix)
    ensures (exists i :: 0 <= i < |members| && MadeBy(members, i, prefix, n)) <==>
            Numbered(prefix, n) in OwnNames(members) || Listed(members, prefix, n)
  {
    var title, e, k := Numbered(prefix, n), Find(members, "ext"), Find(members, Key(prefix));
    if m :| m in members && !HasOwnMeaning(m.name) && CiStrip(m.name) == title {
      var i :| 0 <= i < |members| && members[i] == m;
      assert MadeBy(members, i, prefix, n);
    }
    if e < |members| {
      assert MadeBy(members, e, prefix, n) ==>
          title in OwnNames(members) || ListedBelow(members, prefix, n);
    }
    if ListedHere(members, prefix, n) {
      assert k < |members| && MadeBy(members, k, prefix, n);
    }
  }

  lemma {:induction false} MemberTitles(members: seq<Json>, i: nat, prefix: string, n: nat)
    requires i < |members| && MemberColumns(members, i).Ok? && IsPrefix(prefix)
    ensures Makes(MemberColumns(members, i).value, Numbered(prefix, n)) <==> MadeBy(members, i, prefix, n)
    decreases members, 0
  {
    var name, title := members[i].name, Numbered(prefix, n);
    var m := members[Find(members, name)];
    if name == "ext" {
      if m.Array? {
        ExtTitles(m.items, title);
      } else {
        assert m in members;
        TitlesOfAsset(m.members, prefix, n);
      }
    } else if Ignored(name) {
    } else if name == "powers" {
      PowerTitles(m.items, prefix, n);
    } else if name == "groups" {
      GroupTitles(m.items, prefix, n);
    } else if name == "outlets" {
      OutletsTitles(m.members, prefix, n);
    } else if IsList(name) {
      ListTitles(ListPrefix(name), m.items, prefix, n);
    } else {
      MakesOne(Column(name, TextOf(members[i])), title);
    }
  }

  /** A numbered title is made exactly by a list that has the element, or by a member of that very name. */
  lemma {:induction false} TitlesOfAsset(members: seq<Json>, prefix: string, n: nat)
    requires Flatten(members, |members|).Ok? && IsPrefix(prefix)
    ensures Makes(Flatten(members, |members|).value, Numbered(prefix, n)) <==>
            Numbered(prefix, n) in OwnNames(members) || Listed(members, prefix, n)
    decreases members, 1
  {
    var title, cols := Numbered(prefix, n), Flatten(members, |members|).value;
    if Makes(cols, title) {
      var c :| c in cols && CiStrip(c.title) == title;
      var i := MemberOfColumn(members, |members|, c);
      MemberTitles(members, i, prefix, n);
    }
    if i :| 0 <= i < |members| && MadeBy(members, i, prefix, n) {
      MemberIsFlattened(members, i, |members|, Column("", ""));
      MemberTitles(members, i, prefix, n);
      var c :| c in MemberColumns(members, i).value && CiStrip(c.title) == title;
      MemberIsFlattened(members, i, |members|, c);
    }
    MadeBySome(members, prefix, n);
  }
}
