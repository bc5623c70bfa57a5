/** Deleting assets, one at a time and in batches, with the transactions that do it. */
module AssetDelete {
  import opened Common
  import opened AssetTree

  datatype PowerLink = PowerLink(src: nat, dest: nat)

  /** The tables a delete touches; monitors holds the assets with a monitoring counterpart. */
  datatype Db = Db(assets: seq<Asset>, groups: set<(nat, nat)>, links: seq<PowerLink>, monitors: set<nat>)

  /** Which statement of a transaction the database refuses, and whether the deactivation agent fails. */
  datatype Faults = Faults(groups: bool, convert: bool, relation: bool, links: bool, element: bool, agent: bool)

  datatype Reason = NotFound | ProtectedRC0 | HasChildren | IsLinked | LogicalAsset | LastDatacenter
                  | Database | AgentFailed | UnknownType

  /** Deleted is status 1 with the row gone, Ignored status 1 with nothing done, Failed status 0. */
  datatype Reply = Deleted | Ignored | Failed(reason: Reason)

  function Without(assets: seq<Asset>, id: nat): (r: seq<Asset>)
    ensures forall a :: a in r <==> a in assets && a.id != id
  {
    if assets == [] then []
    else
      var rest, a := Without(assets[..|assets| - 1], id), assets[|assets| - 1];
      assert assets == assets[..|assets| - 1] + [a];
      if a.id == id then rest else rest + [a]
  }

  function LinksFrom(links: seq<PowerLink>, src: nat): (r: seq<nat>)
    ensures forall d :: d in r <==> PowerLink(src, d) in links
  {
    if links == [] then []
    else
      var rest, l := LinksFrom(links[..|links| - 1], src), links[|links| - 1];
      assert links == links[..|links| - 1] + [l];
      if l.src == src then rest + [l.dest] else rest
  }

  function LinksNotTo(links: seq<PowerLink>, dest: nat): (r: seq<PowerLink>)
    ensures forall l :: l in r <==> l in links && l.dest != dest
  {
    if links == [] then []
    else
      var rest, l := LinksNotTo(links[..|links| - 1], dest), links[|links| - 1];
      assert links == links[..|links| - 1] + [l];
      if l.dest == dest then rest else rest + [l]
  }

  function WithoutMember(groups: set<(nat, nat)>, id: nat): set<(nat, nat)> {
    set g | g in groups && g.1 != id
  }

  function WithoutGroup(groups: set<(nat, nat)>, id: nat): set<(nat, nat)> {
    set g | g in groups && g.0 != id
  }

  predicate HasDatacenter(db: Db) {
    exists a :: a in db.assets && a.typ == Datacenter
  }

  predicate OtherDatacenter(db: Db, id: nat) {
    exists a :: a in db.assets && a.typ == Datacenter && a.id != id
  }

  /** count_keytag: some asset has the name in its logical_asset attribute. */
  predicate IsLogicalAsset(db: Db, name: string) {
    exists a :: a in db.assets && a.logical == name
  }

  function AfterDcDelete(db: Db, id: nat): Db {
    db.(assets := Without(db.assets, id), groups := WithoutMember(db.groups, id), monitors := db.monitors - {id})
  }

  function AfterGroupDelete(db: Db, id: nat): Db {
    db.(assets := Without(db.assets, id), groups := WithoutGroup(db.groups, id))
  }

  function AfterDeviceDelete(db: Db, id: nat): Db {
    AfterDcDelete(db, id).(links := LinksNotTo(db.links, id))
  }

  function AfterDelete(db: Db, item: Asset): Db {
    match item.typ
    case Group => AfterGroupDelete(db, item.id)
    case Device => AfterDeviceDelete(db, item.id)
    case _ => AfterDcDelete(db, item.id)
  }

  /** The asset with the id, if any, is the recorded one. */
  ghost predicate Recorded(db: Db, item: Asset) {
    forall a :: a in db.assets && a.id == item.id ==> a == item
  }

  /** One run of the transaction for an asset; deactivate tells that the agent is asked afterwards. */
  datatype Attempt = Attempt(item: Asset, deactivate: bool, faults: Faults)

  predicate IsContainer(typ: AssetType) {
    typ == Datacenter || typ == Room || typ == RowOfRacks || typ == Rack
  }

  /** The database refuses some statement of the transaction for this type. */
  predicate Refuses(f: Faults, typ: AssetType) {
    || (typ != OtherType && (f.groups || f.element))
    || (IsContainer(typ) && (f.convert || f.relation))
    || (typ == Device && (f.links || f.relation))
  }

  function ReplyTo(overrideLastDc: bool, db: Db, a: Attempt): Reply {
    if IsLogicalAsset(db, a.item.name) then Failed(LogicalAsset)
    else if a.item.typ == OtherType then Failed(UnknownType)
    else if IsContainer(a.item.typ) && !overrideLastDc && !OtherDatacenter(db, a.item.id) then Failed(LastDatacenter)
    else if Refuses(a.faults, a.item.typ) then Failed(Database)
    else if a.item.typ == Device && a.deactivate && a.faults.agent then Failed(AgentFailed)
    else Deleted
  }

  /** The row is gone also when only the agent failed. */
  predicate RowGone(r: Reply) {
    r.Deleted? || r == Failed(AgentFailed)
  }

  function AfterAttempt(overrideLastDc: bool, db: Db, a: Attempt): Db {
    if RowGone(ReplyTo(overrideLastDc, db, a)) then AfterDelete(db, a.item) else db
  }

  class AssetDb {
    var db: Db
    const overrideLastDc: bool

    constructor (db: Db, overrideLastDc: bool)
      ensures this.db == db && this.overrideLastDc == overrideLastDc
    {
      this.db := db;
      this.overrideLastDc := overrideLastDc;
    }

    /** delete_dc_room_row_rack: one transaction, refused for the last data center unless overridden. */
    method DeleteDcRoomRowRack(id: nat, f: Faults) returns (r: Reply)
      modifies this
      ensures r == if !overrideLastDc && !OtherDatacenter(old(db), id) then Failed(LastDatacenter)
                   else if f.groups || f.convert || f.relation || f.element then Failed(Database)
                   else Deleted
      ensures db == if r.Deleted? then AfterDcDelete(old(db), id) else old(db)
    {
      var begin := db;
      if !overrideLastDc && !OtherDatacenter(db, id) {
        return Failed(LastDatacenter);
      }
      if f.groups {
        return Failed(Database);
      }
      db := db.(groups := WithoutMember(db.groups, id));
      if f.convert {
        db := begin;
        return Failed(Database);
      }
      if f.relation {
        db := begin;
        return Failed(Database);
      }
      db := db.(monitors := db.monitors - {id});
      if f.element {
        db := begin;
        return Failed(Database);
      }
      db := db.(assets := Without(db.assets, id));
      return Deleted;
    }

    method DeleteGroup(id: nat, f: Faults) returns (r: Reply)
      modifies this
      ensures r == if f.groups || f.element then Failed(Database) else Deleted
      ensures db == if r.Deleted? then AfterGroupDelete(old(db), id) else old(db)
    {
      var begin := db;
      if f.groups {
        return Failed(Database);
      }
      db := db.(groups := WithoutGroup(db.groups, id));
      if f.element {
        db := begin;
        return Failed(Database);
      }
      db := db.(assets := Without(db.assets, id));
      return Deleted;
    }

    /** delete_device; deactivate tells that a description for the deactivation agent was passed. */
    method DeleteDevice(id: nat, deactivate: bool, f: Faults) returns (r: Reply)
      modifies this
      ensures r == if f.groups || f.links || f.relation || f.element then Failed(Database)
                   else if deactivate && f.agent then Failed(AgentFailed)
                   else Deleted
      ensures db == if r == Failed(Database) then old(db) else AfterDeviceDelete(old(db), id)
    {
      var begin := db;
      if f.groups {
        return Failed(Database);
      }
      db := db.(groups := WithoutMember(db.groups, id));
      if f.links {
        db := begin;
        return Failed(Database);
      }
      db := db.(links := LinksNotTo(db.links, id));
      if f.relation {
        db := begin;
        return Failed(Database);
      }
      db := db.(monitors := db.monitors - {id});
      if f.element {
        db := begin;
        return Failed(Database);
      }
      db := db.(assets := Without(db.assets, id));
      // the agent is asked only after the commit
      if deactivate && f.agent {
        return Failed(AgentFailed);
      }
      return Deleted;
    }

    /** The check for a logical_asset reference and the switch over the types, the same for one id and for many. */
    method DeleteByType(a: Attempt) returns (r: Reply)
      modifies this
      ensures r == ReplyTo(overrideLastDc, old(db), a)
      ensures db == AfterAttempt(overrideLastDc, old(db), a)
    {
      var id := a.item.id;
      if IsLogicalAsset(db, a.item.name) {
        return Failed(LogicalAsset);
      }
      match a.item.typ {
        case Datacenter => r := DeleteDcRoomRowRack(id, a.faults);
        case Room => r := DeleteDcRoomRowRack(id, a.faults);
        case RowOfRacks => r := DeleteDcRoomRowRack(id, a.faults);
        case Rack => r := DeleteDcRoomRowRack(id, a.faults);
        case Group => r := DeleteGroup(id, a.faults);
        case Device => r := DeleteDevice(id, a.deactivate, a.faults);
        case OtherType => r := Failed(UnknownType);
      }
    }

    /**
     * delete_item for one id. A failed delete leaves every table alone, with one exception: the device is
     * already gone when the agent then fails to deactivate it. The last data center always stays.
     */
    method DeleteItem(id: nat, f: Faults, ghost depth: nat -> nat, ghost height: nat) returns (r: Reply)
      requires Forest(db.assets, depth, height)
      modifies this
      ensures Forest(db.assets, depth, height)
      ensures r == Failed(NotFound) <==> forall a :: a in old(db).assets ==> a.id != id
      ensures r.Ignored? <==> exists a :: a in old(db).assets && a.id == id && a.name == RC0
      ensures forall a :: a in old(db).assets && a.id == id && a.name != RC0 ==>
                r == ReplyTo(overrideLastDc, old(db), Attempt(a, a.active, f))
                && db == AfterAttempt(overrideLastDc, old(db), Attempt(a, a.active, f))
      ensures db != old(db) <==> RowGone(r)
      ensures r == Failed(AgentFailed) <==>
                f.agent && !(f.groups || f.links || f.relation || f.element)
                && exists a :: a in old(db).assets && a.id == id && a.active && a.typ == Device && a.name != RC0
                         && !IsLogicalAsset(old(db), a.name)
      ensures RowGone(r) ==> exists a :: (
                a in old(db).assets && a.id == id
                && a.name != RC0 && !IsLogicalAsset(old(db), a.name) && db == AfterDelete(old(db), a))
      ensures !overrideLastDc && HasDatacenter(old(db)) ==> HasDatacenter(db)
    {
      var k := IndexOf(db.assets, id);
      if k == -1 {
        return Failed(NotFound);
      }
      var a := db.assets[k];
      if a.name == RC0 {
        return Ignored;
      }
      SameId(db, a);
      AttemptOnRow(overrideLastDc, db, Attempt(a, a.active, f), depth, height);
      r := DeleteByType(Attempt(a, a.active, f));
    }

    /** deleteAsset: one step of a batch. The status of the asset is never filled in, so the agent is not asked. */
    method DeleteAsset(item: Asset, f: Faults) returns (r: Reply)
      requires Recorded(db, item)
      modifies this
      ensures r == ReplyTo(overrideLastDc, old(db), Attempt(item, false, f))
      ensures db == AfterAttempt(overrideLastDc, old(db), Attempt(item, false, f))
      ensures r.Deleted? || r.Failed?
      ensures db == if r.Deleted? then AfterDelete(old(db), item) else old(db)
      ensures IsLogicalAsset(old(db), item.name) || item.typ == OtherType ==> r.Failed?
      ensures DistinctIds(old(db).assets) ==> DistinctIds(db.assets)
      ensures !overrideLastDc && HasDatacenter(old(db)) ==> HasDatacenter(db)
    {
      KeepsDatacenter(db, item);
      if DistinctIds(db.assets) {
        WithoutKeepsIdsUnique(db.assets, item.id);
      }
      r := DeleteByType(Attempt(item, false, f));
    }
  }

  /** What a transaction on a row of the table keeps. */
  lemma AttemptOnRow(overrideLastDc: bool, db: Db, t: Attempt, depth: nat -> nat, height: nat)
    requires Forest(db.assets, depth, height) && t.item in db.assets
    ensures var r, db' := ReplyTo(overrideLastDc, db, t), AfterAttempt(overrideLastDc, db, t);
            && Forest(db'.assets, depth, height)
            && (db' != db <==> RowGone(r))
            && (RowGone(r) ==> db' == AfterDelete(db, t.item) && !IsLogicalAsset(db, t.item.name))
            && (r == Failed(AgentFailed) <==>
                  t.faults.agent && !(t.faults.groups || t.faults.links || t.faults.relation || t.faults.element)
                  && t.deactivate && t.item.typ == Device && !IsLogicalAsset(db, t.item.name))
            && (!overrideLastDc && HasDatacenter(db) ==> HasDatacenter(db'))
            && !r.Ignored? && r != Failed(NotFound)
  {
    SameId(db, t.item);
    KeepsDatacenter(db, t.item);
    KeepsForest(db, t.item, depth, height);
    DeleteChanges(db, t.item);
  }

  lemma SameId(db: Db, item: Asset)
    requires DistinctIds(db.assets) && item in db.assets
    ensures Recorded(db, item)
  {
  }

  lemma KeepsDatacenter(db: Db, item: Asset)
    requires Recorded(db, item)
    ensures HasDatacenter(db) && (item.typ == Group || item.typ == Device || OtherDatacenter(db, item.id)) ==>
            HasDatacenter(AfterDelete(db, item))
  {
    if HasDatacenter(db) && (item.typ == Group || item.typ == Device) {
      var dc :| dc in db.assets && dc.typ == Datacenter;
      assert dc in AfterDelete(db, item).assets;
    } else if dc :| dc in db.assets && dc.typ == Datacenter && dc.id != item.id {
      assert dc in AfterDelete(db, item).assets;
    }
  }

  lemma KeepsForest(db: Db, item: Asset, depth: nat -> nat, height: nat)
    requires Forest(db.assets, depth, height)
    ensures Forest(AfterDelete(db, item).assets, depth, height)
  {
    WithoutKeepsIdsUnique(db.assets, item.id);
  }

  lemma {:induction false} WithoutKeepsIdsUnique(assets: seq<Asset>, id: nat)
    requires DistinctIds(assets)
    ensures DistinctIds(Without(assets, id))
  {
    if assets != [] {
      WithoutKeepsIdsUnique(assets[..|assets| - 1], id);
    }
  }

  lemma DeleteChanges(db: Db, item: Asset)
    requires item in db.assets
    ensures AfterDelete(db, item) != db
  {
    assert item !in AfterDelete(db, item).assets;
  }

  // ---------- transactions, told over the rows of the tables ----------

  /** Exactly when a row goes, and for what reason it stays, the first that applies. */
  lemma ReplyMeans(overrideLastDc: bool, db: Db, a: Attempt)
    ensures var r, typ, f := ReplyTo(overrideLastDc, db, a), a.item.typ, a.faults;
            var referred := exists x :: x in db.assets && x.logical == a.item.name;
            var last := typ != Group && typ != Device && !overrideLastDc &&
                        forall x :: x in db.assets && x.typ == Datacenter ==> x.id == a.item.id;
            var refused := f.groups || f.element || (typ != Group && f.relation) ||
                           (if typ == Device then f.links else typ != Group && f.convert);
            && (r == Failed(LogicalAsset) <==> referred)
            && (r == Failed(UnknownType) <==> !referred && typ == OtherType)
            && (r == Failed(LastDatacenter) <==> !referred && typ != OtherType && last)
            && (r == Failed(Database) <==> !referred && typ != OtherType && !last && refused)
            && (r == Failed(AgentFailed) <==>
                  !referred && !refused && typ == Device && a.deactivate && f.agent)
            && (r.Deleted? <==>
                  !referred && typ != OtherType && !last && !refused && !(typ == Device && a.deactivate && f.agent))
  {
  }

  /** What a transaction leaves in each table. A device takes the links to it along, the links from it stay. */
  lemma TablesAfter(overrideLastDc: bool, db: Db, a: Attempt)
    ensures var r, id, db' := ReplyTo(overrideLastDc, db, a), a.item.id, AfterAttempt(overrideLastDc, db, a);
            if r.Deleted? || r == Failed(AgentFailed) then
              && (forall x :: x in db'.assets <==> x in db.assets && x.id != id)
              && (forall l :: l in db'.links <==> l in db.links && (a.item.typ == Device ==> l.dest != id))
              && (forall g :: g in db'.groups <==> g in db.groups && (if a.item.typ == Group then g.0 else g.1) != id)
              && (forall m :: m in db'.monitors <==> m in db.monitors && (a.item.typ != Group ==> m != id))
            else db' == db
  {
  }

  /** A device is deleted, and reported as not deleted, when the agent fails after the commit. */
  lemma AgentFailsAfterCommit()
    ensures var device := Asset(7, "ups-7", Device, 0, "", true);
            var db := Db([device], {}, [], {});
            var attempt := Attempt(device, device.active, Faults(false, false, false, false, false, true));
            && ReplyTo(false, db, attempt) == Failed(AgentFailed)
            && device in db.assets && device !in AfterAttempt(false, db, attempt).assets
  {
    var device := Asset(7, "ups-7", Device, 0, "", true);
    var db := Db([device], {}, [], {});
    assert device.logical != device.name;
  }

  /** With the override the last data center does go. */
  lemma OverrideEmpties()
    ensures var dc := Asset(1, "datacenter-1", Datacenter, 0, "", false);
            var db := Db([dc], {}, [], {});
            var attempt := Attempt(dc, false, Faults(false, false, false, false, false, false));
            && HasDatacenter(db)
            && HasDatacenter(AfterAttempt(false, db, attempt)) && !HasDatacenter(AfterAttempt(true, db, attempt))
  {
    var dc := Asset(1, "datacenter-1", Datacenter, 0, "", false);
    var db := Db([dc], {}, [], {});
    assert dc in db.assets && dc.logical != dc.name;
  }
}
