/** The persistence layer: one record type per table (app/models), the
    tables held as sequences in insertion order, the id sequences of the
    serial primary keys, and the integrity constraints the schema declares.
    A successful commit is modelled as the row being in its table at once;
    a constraint violation leaves the tables as they were. */
module Store {
  import opened Common

  /** `additional_data` (JSONB), abstracted to a flat map of strings. */
  type Payload = map<string, string>

  datatype Asset = Asset(
    id: int,
    name: string,
    assetType: string,
    uniqueId: string,
    description: Option<string>,
    status: Option<string>,
    userId: int)

  /** One row of asset_locations. `location` is the WKT text the row was inserted
      with; `longitude` and `latitude` are what ST_X and ST_Y read back from it. */
  datatype Fix = Fix(
    id: int,
    assetId: int,
    timestamp: int,
    longitude: real,
    latitude: real,
    location: string,
    additionalData: Payload)

  /** One row of geo_zones; `zone` is the polygon's WKT text. */
  datatype Zone = Zone(id: int, assetId: int, name: string, zone: string, createdAt: int)

  datatype Alert = Alert(
    id: int,
    assetId: int,
    alertType: string,
    message: string,
    triggeredAt: int,
    resolved: bool)

  datatype Role = AdminRole | UserRole

  datatype User = User(
    id: int,
    username: string,
    email: string,
    password: string,
    role: Role,
    disabled: bool)

  /** The whole database as a value: the five tables and the next value of
      each table's id sequence. */
  datatype Tables = Tables(
    assets: seq<Asset>,
    fixes: seq<Fix>,
    zones: seq<Zone>,
    alerts: seq<Alert>,
    users: seq<User>,
    nextAssetId: int,
    nextFixId: int,
    nextZoneId: int,
    nextAlertId: int,
    nextUserId: int)

  predicate HasAsset(assets: seq<Asset>, id: int) {
    exists a :: a in assets && a.id == id
  }

  predicate HasUser(users: seq<User>, id: int) {
    exists u :: u in users && u.id == id
  }

  /** The constraints of app/models the operations rely on: every id sequence
      starts at 1, asset ids are unique and below the asset sequence,
      `assets.unique_id`, `users.username` and `users.email` are unique, and the
      foreign keys
      `assets.user_id`, `asset_locations.asset_id`, `geo_zones.asset_id` and
      `geo_alerts.asset_id`. */
  predicate Consistent(t: Tables) {
    && 1 <= t.nextAssetId && 1 <= t.nextFixId && 1 <= t.nextZoneId
    && 1 <= t.nextAlertId && 1 <= t.nextUserId
    && (forall i, j :: 0 <= i < j < |t.assets| ==>
          t.assets[i].id != t.assets[j].id && t.assets[i].uniqueId != t.assets[j].uniqueId)
    && (forall a :: a in t.assets ==> 1 <= a.id < t.nextAssetId && HasUser(t.users, a.userId))
    && (forall f :: f in t.fixes ==> HasAsset(t.assets, f.assetId))
    && (forall z :: z in t.zones ==> HasAsset(t.assets, z.assetId))
    && (forall g :: g in t.alerts ==> HasAsset(t.assets, g.assetId))
    && (forall i, j :: 0 <= i < j < |t.users| ==>
          t.users[i].username != t.users[j].username && t.users[i].email != t.users[j].email)
  }

  const EmptyTables := Tables([], [], [], [], [], 1, 1, 1, 1, 1)

  /** The database session: each table is a sequence field that the CRUD
      operations reassign. */
  class Database {
    var assets: seq<Asset>
    var fixes: seq<Fix>
    var zones: seq<Zone>
    var alerts: seq<Alert>
    var users: seq<User>
    var nextAssetId: int
    var nextFixId: int
    var nextZoneId: int
    var nextAlertId: int
    var nextUserId: int

    function Snapshot(): Tables
      reads this
    {
      Tables(assets, fixes, zones, alerts, users,
             nextAssetId, nextFixId, nextZoneId, nextAlertId, nextUserId)
    }

    ghost predicate Valid()
      reads this
    {
      Consistent(Snapshot())
    }

    constructor ()
      ensures Valid() && Snapshot() == EmptyTables
    {
      assets, fixes, zones, alerts, users := [], [], [], [], [];
      nextAssetId, nextFixId, nextZoneId, nextAlertId, nextUserId := 1, 1, 1, 1, 1;
    }
  }

  /** `SELECT ... WHERE asset_id = :id ORDER BY timestamp DESC LIMIT 1`: a fix of
      the asset with the greatest timestamp, or None when it has no fix. SQL leaves
      the order of equal timestamps open; this query returns the earliest
      inserted of them. */
  function LatestFix(fixes: seq<Fix>, assetId: int): (r: Option<Fix>)
    ensures r.None? <==> forall f :: f in fixes ==> f.assetId != assetId
    ensures r.Some? ==> r.value in fixes && r.value.assetId == assetId
    ensures r.Some? ==> forall f :: f in fixes && f.assetId == assetId ==> f.timestamp <= r.value.timestamp
    decreases |fixes|
  {
    if |fixes| == 0 then None
    else
      var init := fixes[..|fixes| - 1];
      var last := fixes[|fixes| - 1];
      assert fixes == init + [last];
      var prev := LatestFix(init, assetId);
      if last.assetId == assetId && (prev.None? || last.timestamp > prev.value.timestamp)
      then Some(last)
      else prev
  }

  /** Drawing the next zone id keeps every constraint. */
  lemma DrawZoneIdKeeps(t: Tables)
    requires Consistent(t)
    ensures Consistent(t.(nextZoneId := t.nextZoneId + 1))
  {
  }

  /** A zone row whose asset exists may be added. */
  lemma AddZoneKeeps(t: Tables, z: Zone)
    requires Consistent(t) && HasAsset(t.assets, z.assetId)
    ensures Consistent(t.(zones := t.zones + [z]))
  {
    assert forall y :: y in t.zones + [z] ==> y in t.zones || y == z;
  }

  /** An alert row whose asset exists may be added, drawing the next alert id. */
  lemma AddAlertKeeps(t: Tables, g: Alert)
    requires Consistent(t) && HasAsset(t.assets, g.assetId)
    ensures Consistent(t.(alerts := t.alerts + [g], nextAlertId := t.nextAlertId + 1))
  {
    assert forall y :: y in t.alerts + [g] ==> y in t.alerts || y == g;
  }

  /** An asset row with a fresh id, a new `unique_id` and an existing owner may be
      added, drawing the next asset id. */
  lemma AddAssetKeeps(t: Tables, a: Asset)
    requires Consistent(t)
    requires a.id == t.nextAssetId && HasUser(t.users, a.userId)
    requires forall b :: b in t.assets ==> b.uniqueId != a.uniqueId
    ensures Consistent(t.(assets := t.assets + [a], nextAssetId := t.nextAssetId + 1))
  {
    var s := t.assets + [a];
    forall i, j | 0 <= i < j < |s| ensures s[i].id != s[j].id && s[i].uniqueId != s[j].uniqueId {
      if j == |t.assets| {
        assert s[i] == t.assets[i] && s[i] in t.assets;
      }
    }
    forall f | f in t.fixes ensures HasAsset(s, f.assetId) {
      var b :| b in t.assets && b.id == f.assetId;
      assert b in s;
    }
    forall z | z in t.zones ensures HasAsset(s, z.assetId) {
      var b :| b in t.assets && b.id == z.assetId;
      assert b in s;
    }
    forall g | g in t.alerts ensures HasAsset(s, g.assetId) {
      var b :| b in t.assets && b.id == g.assetId;
      assert b in s;
    }
  }

  /** An asset row may be rewritten in place when its id stays, its `unique_id`
      is not another row's and its owner exists. */
  lemma ReplaceAssetKeeps(t: Tables, i: nat, a: Asset)
    requires Consistent(t) && i < |t.assets|
    requires a.id == t.assets[i].id && HasUser(t.users, a.userId)
    requires forall j :: 0 <= j < |t.assets| && j != i ==> t.assets[j].uniqueId != a.uniqueId
    ensures Consistent(t.(assets := t.assets[i := a]))
  {
    var s := t.assets[i := a];
    forall b | b in s ensures 1 <= b.id < t.nextAssetId && HasUser(t.users, b.userId) {
      var k :| 0 <= k < |s| && s[k] == b;
      if k != i { assert t.assets[k] in t.assets; } else { assert t.assets[i] in t.assets; }
    }
    forall f | f in t.fixes ensures HasAsset(s, f.assetId) {
      var b :| b in t.assets && b.id == f.assetId;
      var k :| 0 <= k < |t.assets| && t.assets[k] == b;
      assert s[k].id == b.id && s[k] in s;
    }
    forall z | z in t.zones ensures HasAsset(s, z.assetId) {
      var b :| b in t.assets && b.id == z.assetId;
      var k :| 0 <= k < |t.assets| && t.assets[k] == b;
      assert s[k].id == b.id && s[k] in s;
    }
    forall g | g in t.alerts ensures HasAsset(s, g.assetId) {
      var b :| b in t.assets && b.id == g.assetId;
      var k :| 0 <= k < |t.assets| && t.assets[k] == b;
      assert s[k].id == b.id && s[k] in s;
    }
  }

  /** Removing row `i` keeps every other asset id present. */
  lemma RemoveKeepsOtherAssets(assets: seq<Asset>, i: nat, id: int)
    requires i < |assets| && HasAsset(assets, id) && id != assets[i].id
    ensures HasAsset(assets[..i] + assets[i + 1..], id)
  {
    var b :| b in assets && b.id == id;
    var k :| 0 <= k < |assets| && assets[k] == b;
    var s := assets[..i] + assets[i + 1..];
    if k < i {
      assert s[k] == b;
    } else {
      assert k > i;
      assert s[k - 1] == b;
    }
  }

  /** An asset row that no fix, zone or alert references may be removed. */
  lemma RemoveAssetKeeps(t: Tables, i: nat)
    requires Consistent(t) && i < |t.assets|
    requires forall f :: f in t.fixes ==> f.assetId != t.assets[i].id
    requires forall z :: z in t.zones ==> z.assetId != t.assets[i].id
    requires forall g :: g in t.alerts ==> g.assetId != t.assets[i].id
    ensures Consistent(t.(assets := t.assets[..i] + t.assets[i + 1..]))
  {
    var s := t.assets[..i] + t.assets[i + 1..];
    forall p, q | 0 <= p < q < |s| ensures s[p].id != s[q].id && s[p].uniqueId != s[q].uniqueId {
      var p', q' := if p < i then p else p + 1, if q < i then q else q + 1;
      assert s[p] == t.assets[p'] && s[q] == t.assets[q'];
    }
    forall b | b in s ensures b in t.assets {
      var k :| 0 <= k < |s| && s[k] == b;
      assert s[k] == t.assets[if k < i then k else k + 1];
    }
    forall f | f in t.fixes ensures HasAsset(s, f.assetId) {
      RemoveKeepsOtherAssets(t.assets, i, f.assetId);
    }
    forall z | z in t.zones ensures HasAsset(s, z.assetId) {
      RemoveKeepsOtherAssets(t.assets, i, z.assetId);
    }
    forall g | g in t.alerts ensures HasAsset(s, g.assetId) {
      RemoveKeepsOtherAssets(t.assets, i, g.assetId);
    }
  }

  /** A user row whose username and email are new may be added, drawing the next
      user id. */
  lemma AddUserKeeps(t: Tables, u: User)
    requires Consistent(t)
    requires forall v :: v in t.users ==> v.username != u.username && v.email != u.email
    ensures Consistent(t.(users := t.users + [u], nextUserId := t.nextUserId + 1))
  {
    var s := t.users + [u];
    forall i, j | 0 <= i < j < |s|
      ensures s[i].username != s[j].username && s[i].email != s[j].email
    {
      if j == |t.users| {
        assert s[i] == t.users[i] && s[i] in t.users;
      }
    }
    forall a | a in t.assets ensures HasUser(s, a.userId) {
      var v :| v in t.users && v.id == a.userId;
      assert v in s;
    }
  }
}
