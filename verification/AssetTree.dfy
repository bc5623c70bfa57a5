/** The parent relation of the asset table, and the recursive walk that collects everything below an asset. */
module AssetTree {
  import opened Common

  datatype AssetType = Datacenter | Room | RowOfRacks | Rack | Group | Device | OtherType

  /** parent is 0 when there is none; logical is the internal name in the logical_asset attribute, "" when unset. */
  datatype Asset = Asset(id: nat, name: string, typ: AssetType, parent: nat, logical: string, active: bool)

  /** Ids are unique and every asset lies deeper than its parent, so that no asset is above itself. */
  ghost predicate Forest(rows: seq<Asset>, depth: nat -> nat, height: nat) {
    && (forall i, j :: 0 <= i < j < |rows| ==> rows[i].id != rows[j].id)
    && (forall a :: a in rows ==> depth(a.parent) < depth(a.id) <= height)
  }

  ghost function Above(depth: nat -> nat, height: nat, id: nat): nat {
    if depth(id) <= height then height - depth(id) + 1 else 0
  }

  /** x lies strictly below top: its parent is top or lies below it. */
  ghost predicate Below(rows: seq<Asset>, depth: nat -> nat, height: nat, x: nat, top: nat)
    requires Forest(rows, depth, height)
    decreases depth(x)
  {
    exists a :: a in rows && a.id == x && (a.parent == top || Below(rows, depth, height, a.parent, top))
  }

  lemma SameRow(rows: seq<Asset>, depth: nat -> nat, height: nat, a: Asset, b: Asset)
    requires Forest(rows, depth, height) && a in rows && b in rows && a.id == b.id
    ensures a == b
  {
  }

  lemma {:induction false} BelowIsDeeper(rows: seq<Asset>, depth: nat -> nat, height: nat, x: nat, top: nat)
    requires Forest(rows, depth, height) && Below(rows, depth, height, x, top)
    ensures depth(x) > depth(top)
    decreases depth(x)
  {
    var a :| a in rows && a.id == x && (a.parent == top || Below(rows, depth, height, a.parent, top));
    if a.parent != top {
      BelowIsDeeper(rows, depth, height, a.parent, top);
    }
  }

  lemma {:induction false} BelowIsTransitive(rows: seq<Asset>, depth: nat -> nat, height: nat, x: nat, y: nat, z: nat)
    requires Forest(rows, depth, height)
    requires Below(rows, depth, height, x, y) && Below(rows, depth, height, y, z)
    ensures Below(rows, depth, height, x, z)
    decreases depth(x)
  {
    var a :| a in rows && a.id == x && (a.parent == y || Below(rows, depth, height, a.parent, y));
    if a.parent != y {
      BelowIsTransitive(rows, depth, height, a.parent, y, z);
    }
  }

  /** Below top means: a child of top, or below a child of top. */
  lemma {:induction false} BelowFromTheTop(rows: seq<Asset>, depth: nat -> nat, height: nat, x: nat, top: nat)
    requires Forest(rows, depth, height)
    ensures Below(rows, depth, height, x, top) <==>
            exists c :: c in rows && c.parent == top && (c.id == x || Below(rows, depth, height, x, c.id))
    decreases depth(x)
  {
    if Below(rows, depth, height, x, top) {
      var a :| a in rows && a.id == x && (a.parent == top || Below(rows, depth, height, a.parent, top));
      if a.parent != top {
        BelowFromTheTop(rows, depth, height, a.parent, top);
      }
    }
    forall c | c in rows && c.parent == top && Below(rows, depth, height, x, c.id)
      ensures Below(rows, depth, height, x, top)
    {
      assert Below(rows, depth, height, c.id, top);
      BelowIsTransitive(rows, depth, height, x, c.id, top);
    }
  }

  /** Two assets above the same one lie on one line. */
  lemma {:induction false} AboveIsALine(rows: seq<Asset>, depth: nat -> nat, height: nat, x: nat, p: nat, q: nat)
    requires Forest(rows, depth, height)
    requires Below(rows, depth, height, x, p) && Below(rows, depth, height, x, q)
    ensures p == q || Below(rows, depth, height, p, q) || Below(rows, depth, height, q, p)
    decreases depth(x)
  {
    var a :| a in rows && a.id == x && (a.parent == p || Below(rows, depth, height, a.parent, p));
    assert a.parent == q || Below(rows, depth, height, a.parent, q) by {
      var b :| b in rows && b.id == x && (b.parent == q || Below(rows, depth, height, b.parent, q));
      SameRow(rows, depth, height, a, b);
    }
    if a.parent != p && a.parent != q {
      AboveIsALine(rows, depth, height, a.parent, p, q);
    }
  }

  /** The subtrees of two siblings have nothing in common. */
  lemma SiblingsAreApart(rows: seq<Asset>, depth: nat -> nat, height: nat, c: Asset, d: Asset, x: nat)
    requires Forest(rows, depth, height) && c in rows && d in rows && c.parent == d.parent && c.id != d.id
    requires c.id == x || Below(rows, depth, height, x, c.id)
    ensures x != d.id && !Below(rows, depth, height, x, d.id)
  {
    NotBelowSibling(rows, depth, height, c, d);
    NotBelowSibling(rows, depth, height, d, c);
    if Below(rows, depth, height, x, d.id) && c.id != x {
      AboveIsALine(rows, depth, height, x, c.id, d.id);
    }
  }

  lemma NotBelowSibling(rows: seq<Asset>, depth: nat -> nat, height: nat, c: Asset, d: Asset)
    requires Forest(rows, depth, height) && c in rows && d in rows && c.parent == d.parent && c.id != d.id
    ensures !Below(rows, depth, height, c.id, d.id)
  {
    if Below(rows, depth, height, c.id, d.id) {
      var b :| b in rows && b.id == c.id && (b.parent == d.id || Below(rows, depth, height, b.parent, d.id));
      SameRow(rows, depth, height, b, c);
      if b.parent != d.id {
        BelowIsDeeper(rows, depth, height, b.parent, d.id);
      }
      assert false;
    }
  }

  // ---------- collectChildren ----------

  /** What the walk over the rows from i on adds for parent id: each child's own subtree, then the child. */
  ghost function Collected(rows: seq<Asset>, depth: nat -> nat, height: nat, id: nat, i: nat): seq<Asset>
    requires Forest(rows, depth, height) && i <= |rows|
    decreases Above(depth, height, id), |rows| - i
  {
    if i == |rows| then []
    else
      assert rows[i] in rows;
      if rows[i].parent == id then
        Collected(rows, depth, height, rows[i].id, 0) + [rows[i]] + Collected(rows, depth, height, id, i + 1)
      else Collected(rows, depth, height, id, i + 1)
  }

  /** The walk finds exactly the assets strictly below id. */
  lemma {:induction false} CollectedAreBelow(
      rows: seq<Asset>, depth: nat -> nat, height: nat, id: nat, i: nat, a: Asset)
    requires Forest(rows, depth, height) && i <= |rows|
    ensures a in Collected(rows, depth, height, id, i) <==>
            a in rows && exists k :: (
              i <= k < |rows| && rows[k].parent == id
              && (rows[k] == a || Below(rows, depth, height, a.id, rows[k].id)))
    decreases Above(depth, height, id), |rows| - i
  {
    if i < |rows| {
      var c := rows[i];
      assert c in rows;
      CollectedAreBelow(rows, depth, height, id, i + 1, a);
      if c.parent == id {
        CollectedAreBelow(rows, depth, height, c.id, 0, a);
        BelowFromTheTop(rows, depth, height, a.id, c.id);
        assert a in rows ==>
            (Below(rows, depth, height, a.id, c.id) <==> a in Collected(rows, depth, height, c.id, 0)) by {
          if a in rows && Below(rows, depth, height, a.id, c.id) {
            var d :| d in rows && d.parent == c.id && (d.id == a.id || Below(rows, depth, height, a.id, d.id));
            var k :| 0 <= k < |rows| && rows[k] == d;
            if d.id == a.id {
              SameRow(rows, depth, height, d, a);
            }
          }
        }
      }
    }
  }

  lemma DescendantsCollected(rows: seq<Asset>, depth: nat -> nat, height: nat, id: nat, a: Asset)
    requires Forest(rows, depth, height)
    ensures a in Collected(rows, depth, height, id, 0) <==> a in rows && Below(rows, depth, height, a.id, id)
  {
    CollectedAreBelow(rows, depth, height, id, 0, a);
    BelowFromTheTop(rows, depth, height, a.id, id);
    if a in rows && Below(rows, depth, height, a.id, id) {
      var c :| c in rows && c.parent == id && (c.id == a.id || Below(rows, depth, height, a.id, c.id));
      var k :| 0 <= k < |rows| && rows[k] == c;
      if c.id == a.id {
        SameRow(rows, depth, height, c, a);
      }
    }
  }

  /** No asset appears twice, and none before an asset below it. */
  ghost predicate BottomUp(rows: seq<Asset>, depth: nat -> nat, height: nat, list: seq<Asset>)
    requires Forest(rows, depth, height)
  {
    forall i, j :: 0 <= i < j < |list| ==>
      list[i].id != list[j].id && !Below(rows, depth, height, list[j].id, list[i].id)
  }

  lemma {:induction false} CollectedIsBottomUp(rows: seq<Asset>, depth: nat -> nat, height: nat, id: nat, i: nat)
    requires Forest(rows, depth, height) && i <= |rows|
    ensures BottomUp(rows, depth, height, Collected(rows, depth, height, id, i))
    decreases Above(depth, height, id), |rows| - i
  {
    if i < |rows| {
      var c := rows[i];
      assert c in rows;
      CollectedIsBottomUp(rows, depth, height, id, i + 1);
      if c.parent == id {
        CollectedIsBottomUp(rows, depth, height, c.id, 0);
        var under, rest := Collected(rows, depth, height, c.id, 0), Collected(rows, depth, height, id, i + 1);
        forall a | a in under
          ensures a.id != c.id && !Below(rows, depth, height, c.id, a.id)
          ensures a.id == c.id || Below(rows, depth, height, a.id, c.id)
        {
          DescendantsCollected(rows, depth, height, c.id, a);
          BelowIsDeeper(rows, depth, height, a.id, c.id);
          if Below(rows, depth, height, c.id, a.id) {
            BelowIsDeeper(rows, depth, height, c.id, a.id);
          }
        }
        forall a, b | (a == c || a in under) && b in rest
          ensures a.id != b.id && !Below(rows, depth, height, b.id, a.id)
        {
          RestIsApart(rows, depth, height, id, i, a, b);
        }
        BottomUpAppends(rows, depth, height, under, c, rest);
      }
    }
  }

  /** What is collected for the later children has nothing to do with the subtree of child i. */
  lemma RestIsApart(rows: seq<Asset>, depth: nat -> nat, height: nat, id: nat, i: nat, a: Asset, b: Asset)
    requires Forest(rows, depth, height) && i < |rows| && rows[i].parent == id
    requires rows[i] == a || Below(rows, depth, height, a.id, rows[i].id)
    requires b in Collected(rows, depth, height, id, i + 1)
    ensures a.id != b.id && !Below(rows, depth, height, b.id, a.id)
  {
    CollectedAreBelow(rows, depth, height, id, i + 1, b);
    var k :| i + 1 <= k < |rows| && rows[k].parent == id
      && (rows[k] == b || Below(rows, depth, height, b.id, rows[k].id));
    SiblingsAreApart(rows, depth, height, rows[k], rows[i], b.id);
    if Below(rows, depth, height, b.id, a.id) && a != rows[i] {
      BelowIsTransitive(rows, depth, height, b.id, a.id, rows[i].id);
    }
  }

  lemma BottomUpAppends(rows: seq<Asset>, depth: nat -> nat, height: nat,
                        under: seq<Asset>, c: Asset, rest: seq<Asset>)
    requires Forest(rows, depth, height)
    requires BottomUp(rows, depth, height, under) && BottomUp(rows, depth, height, rest)
    requires forall a :: a in under ==> a.id != c.id && !Below(rows, depth, height, c.id, a.id)
    requires forall a, b :: (a == c || a in under) && b in rest ==>
               a.id != b.id && !Below(rows, depth, height, b.id, a.id)
    ensures BottomUp(rows, depth, height, under + [c] + rest)
  {
    var n := |under|;
    var list := under + [c] + rest;
    forall i, j | 0 <= i < j < |list|
      ensures list[i].id != list[j].id && !Below(rows, depth, height, list[j].id, list[i].id)
    {
      if j > n {
        assert list[j] == rest[j - n - 1] && list[j] in rest;
        if i > n {
          assert list[i] == rest[i - n - 1];
        } else if i < n {
          assert list[i] == under[i] && list[i] in under;
        }
      } else {
        assert list[i] == under[i] && list[i] in under;
      }
    }
  }

  /** An asset of the table that has an id of the list is found; -1 when there is none. */
  function IndexOf(list: seq<Asset>, id: nat): (k: int)
    ensures k == -1 || 0 <= k < |list|
    ensures k >= 0 ==> list[k].id == id
    ensures k == -1 ==> forall a :: a in list ==> a.id != id
  {
    if list == [] then -1
    else if list[|list| - 1].id == id then |list| - 1
    else IndexOf(list[..|list| - 1], id)
  }

  datatype Collection = Refused | Collection(list: seq<Asset>)

  /** checkAndAddInfo: keep ids unique, refuse rackcontroller-0. */
  method CheckAndAdd(list: seq<Asset>, item: Asset) returns (r: Collection)
    ensures r.Refused? <==> item.name == RC0 && forall a :: a in list ==> a.id != item.id
    ensures r.Collection? ==>
              r.list == if exists a :: a in list && a.id == item.id then list else list + [item]
  {
    if IndexOf(list, item.id) == -1 {
      if item.name == RC0 {
        return Refused;
      }
      return Collection(list + [item]);
    }
    return Collection(list);
  }

  ghost predicate ContainsRC0(list: seq<Asset>) {
    exists a :: a in list && a.name == RC0
  }

  /**
   * collectChildren: appends everything below id to list, bottom up, and refuses when rackcontroller-0 is
   * among it. list holds what the walk has collected so far, elsewhere in the tree.
   */
  method CollectChildren(rows: seq<Asset>, id: nat, list: seq<Asset>, ghost depth: nat -> nat, ghost height: nat)
    returns (r: Collection)
    requires Forest(rows, depth, height)
    requires forall a, b :: a in list && b in Collected(rows, depth, height, id, 0) ==> a.id != b.id
    ensures r.Refused? <==> ContainsRC0(Collected(rows, depth, height, id, 0))
    ensures r.Collection? ==> r.list == list + Collected(rows, depth, height, id, 0)
    decreases Above(depth, height, id)
  {
    var acc := list;
    ghost var all := Collected(rows, depth, height, id, 0);
    CollectedIsBottomUp(rows, depth, height, id, 0);
    ghost var done: seq<Asset> := [];
    for i := 0 to |rows|
      invariant all == done + Collected(rows, depth, height, id, i)
      invariant acc == list + done && !ContainsRC0(done)
    {
      ghost var rest := Collected(rows, depth, height, id, i);
      var item := rows[i];
      assert item in rows;
      if item.parent == id {
        ghost var under := Collected(rows, depth, height, item.id, 0);
        ghost var later := Collected(rows, depth, height, id, i + 1);
        assert rest == under + [item] + later;
        Splits(list, done, under, item, later, all);
        var sub := CollectChildren(rows, item.id, acc, depth, height);
        if sub.Refused? {
          return Refused;
        }
        var added := CheckAndAdd(sub.list, item);
        if added.Refused? {
          return Refused;
        }
        acc := added.list;
        done := done + under + [item];
      }
    }
    return Collection(acc);
  }

  ghost predicate DistinctIds(list: seq<Asset>) {
    forall i, j :: 0 <= i < j < |list| ==> list[i].id != list[j].id
  }

  lemma Splits(list: seq<Asset>, done: seq<Asset>, under: seq<Asset>, item: Asset, later: seq<Asset>, all: seq<Asset>)
    requires all == done + (under + [item] + later) && DistinctIds(all)
    requires forall a, b :: a in list && b in all ==> a.id != b.id
    ensures forall a, b :: a in list + done && b in under ==> a.id != b.id
    ensures forall a :: a in list + done + under ==> a.id != item.id
    ensures ContainsRC0(under) || item.name == RC0 ==> ContainsRC0(all)
    ensures ContainsRC0(done + under + [item]) <==> ContainsRC0(done) || ContainsRC0(under) || item.name == RC0
    ensures list + done + under + [item] == list + (done + under + [item])
    ensures all == done + under + [item] + later
  {
    var n, m := |done|, |under|;
    assert all[n + m] == item;
    assert item in done + under + [item];
    forall b | b in under
      ensures b in all && b.id != item.id && forall a :: a in done ==> a.id != b.id
    {
      var k :| 0 <= k < m && under[k] == b;
      assert all[n + k] == b;
      forall a | a in done
        ensures a.id != b.id
      {
        var q :| 0 <= q < n && done[q] == a;
        assert all[q] == a;
      }
    }
    forall a | a in done
      ensures a.id != item.id
    {
      var q :| 0 <= q < n && done[q] == a;
      assert all[q] == a;
    }
  }
}
