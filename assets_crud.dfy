/** The asset operations of app/crud/assets_crud.py: lookup by id, paging,
    insert, patch-style update and delete. The database constraints of
    app/models decide which inserts, updates and deletes commit. */
module AssetsCrud {
  import opened Common
  import opened Store

  /** A validated `AssetCreate`; `status` is "active" when the client omits it. */
  datatype AssetCreate = AssetCreate(
    name: string,
    assetType: string,
    uniqueId: string,
    description: Option<string>,
    status: Option<string>,
    userId: int)

  /** A validated `AssetUpdate`: None is a field the client did not supply. */
  datatype AssetUpdate = AssetUpdate(
    name: Option<string>,
    assetType: Option<string>,
    uniqueId: Option<string>,
    description: Option<string>,
    status: Option<string>,
    userId: Option<int>)

  const DefaultStatus := "active"

  /** Building an `AssetCreate` from a request body. `status` is None when the
      body omits the key, `Some(None)` when it sends `null`; only an omitted
      status takes the default. */
  function ValidateAssetCreate(name: string, assetType: string, uniqueId: string,
                               description: Option<string>, status: Option<Option<string>>,
                               userId: int): (r: AssetCreate)
    ensures r.name == name && r.assetType == assetType && r.uniqueId == uniqueId
    ensures r.description == description && r.userId == userId
    ensures status.None? ==> r.status == Some(DefaultStatus)
    ensures status.Some? ==> r.status == status.value
  {
    AssetCreate(name, assetType, uniqueId, description,
                if status.None? then Some(DefaultStatus) else status.value, userId)
  }

  /** The `status` column's value after the insert. The ORM leaves a None
      attribute out of the INSERT, so the column default "active" fills an
      explicit `null`; any given status is stored as it is. */
  function StoredStatus(status: Option<string>): (r: Option<string>)
    ensures r.Some?
    ensures status.Some? ==> r == status
    ensures status.None? ==> r == Some(DefaultStatus)
  {
    if status.None? then Some(DefaultStatus) else status
  }

  /** `get_assets`' defaults for `skip` and `limit`. */
  const DefaultSkip := 0
  const DefaultLimit := 100

  const UniqueIdTaken := IntegrityError("assets_unique_id_key")
  const OwnerMissing := IntegrityError("assets_user_id_fkey")

  /** The position of the first asset row with that id. */
  function FindAsset(assets: seq<Asset>, id: int): (r: Option<nat>)
    ensures r.None? <==> !HasAsset(assets, id)
    ensures r.Some? ==> r.value < |assets| && assets[r.value].id == id
                        && forall j :: 0 <= j < r.value ==> assets[j].id != id
  {
    if |assets| == 0 then None
    else if assets[0].id == id then Some(0)
    else
      assert assets == [assets[0]] + assets[1..];
      match FindAsset(assets[1..], id)
      case None => None
      case Some(k) => Some(k + 1)
  }

  /** `get_asset`: the asset with that id, or None. */
  function GetAsset(assets: seq<Asset>, id: int): (r: Option<Asset>)
    ensures r.None? <==> !HasAsset(assets, id)
    ensures r.Some? ==> r.value in assets && r.value.id == id
  {
    match FindAsset(assets, id)
    case None => None
    case Some(i) => Some(assets[i])
  }

  /** With ids unique, the asset found is the only row with that id. */
  lemma GetAssetIsTheRow(t: Tables, i: nat)
    requires Consistent(t) && i < |t.assets|
    ensures GetAsset(t.assets, t.assets[i].id) == Some(t.assets[i])
    ensures FindAsset(t.assets, t.assets[i].id) == Some(i)
  {
    forall j | 0 <= j < |t.assets| && j != i ensures t.assets[j].id != t.assets[i].id {
      if j < i { assert t.assets[j].id != t.assets[i].id; }
    }
  }

  function Min(a: int, b: int): int { if a <= b then a else b }

  /** `get_assets`: `OFFSET skip LIMIT limit` over the table in store order;
      PostgreSQL rejects a negative offset first, then a negative limit. */
  function GetAssets(assets: seq<Asset>, skip: int, limit: int): (r: Result<seq<Asset>>)
    ensures skip < 0 ==> r == Err(DataError("OFFSET must not be negative"))
    ensures skip >= 0 && limit < 0 ==> r == Err(DataError("LIMIT must not be negative"))
    ensures r.Ok? <==> skip >= 0 && limit >= 0
    ensures r.Ok? ==> && |r.value| == Min(limit, if skip <= |assets| then |assets| - skip else 0)
                      && forall i :: 0 <= i < |r.value| ==> r.value[i] == assets[skip + i]
  {
    if skip < 0 then Err(DataError("OFFSET must not be negative"))
    else if limit < 0 then Err(DataError("LIMIT must not be negative"))
    else
      var lo := Min(skip, |assets|);
      var hi := Min(lo + limit, |assets|);
      Ok(assets[lo..hi])
  }

  /** Two consecutive pages together are the page of their combined size. */
  lemma {:induction false} ConsecutivePages(assets: seq<Asset>, skip: nat, a: nat, b: nat)
    ensures GetAssets(assets, skip, a).value + GetAssets(assets, skip + a, b).value
            == GetAssets(assets, skip, a + b).value
  {
    var p := GetAssets(assets, skip, a).value;
    var q := GetAssets(assets, skip + a, b).value;
    var w := GetAssets(assets, skip, a + b).value;
    assert |p| + |q| == |w|;
    forall i | 0 <= i < |w| ensures (p + q)[i] == w[i] {
      if i >= |p| {
        assert (p + q)[i] == q[i - |p|];
        assert |p| == a;
      }
    }
  }

  /** `get_assets()` with its defaults: never refused, and the first 100 assets
      of the table, or all of them when there are fewer. */
  lemma DefaultPage(assets: seq<Asset>)
    ensures GetAssets(assets, DefaultSkip, DefaultLimit).Ok?
    ensures GetAssets(assets, DefaultSkip, DefaultLimit).value
            == if |assets| <= 100 then assets else assets[..100]
  {
    var p := GetAssets(assets, DefaultSkip, DefaultLimit).value;
    var w := if |assets| <= 100 then assets else assets[..100];
    assert |p| == |w|;
    forall i | 0 <= i < |p| ensures p[i] == w[i] {
      assert p[i] == assets[i];
    }
  }

  /** `create_asset`: the id is drawn from the sequence before the insert, so
      it is used up even when the insert fails; a `null` status is stored as
      the column default, which the refresh reads back; the unique index on `unique_id`
      is checked before the foreign key to the owner. */
  method CreateAsset(db: Database, data: AssetCreate) returns (r: Result<Asset>)
    requires db.Valid()
    modifies db
    ensures db.Valid()
    ensures var taken := exists a :: a in old(db.assets) && a.uniqueId == data.uniqueId;
            && (taken ==> r == Err(UniqueIdTaken))
            && (!taken && !HasUser(old(db.users), data.userId) ==> r == Err(OwnerMissing))
            && (r.Ok? <==> !taken && HasUser(old(db.users), data.userId))
    ensures r.Ok? ==>
              && r.value == Asset(old(db.nextAssetId), data.name, data.assetType, data.uniqueId,
                                  data.description, StoredStatus(data.status), data.userId)
              && r.value.status.Some?
              && db.Snapshot() == old(db.Snapshot()).(assets := old(db.assets) + [r.value],
                                                       nextAssetId := old(db.nextAssetId) + 1)
    ensures r.Err? ==> db.Snapshot() == old(db.Snapshot()).(nextAssetId := old(db.nextAssetId) + 1)
  {
    var row := Asset(db.nextAssetId, data.name, data.assetType, data.uniqueId,
                     data.description, StoredStatus(data.status), data.userId);
    ghost var before := db.Snapshot();
    db.nextAssetId := db.nextAssetId + 1;
    assert db.Snapshot() == before.(nextAssetId := before.nextAssetId + 1);
    if exists a :: a in db.assets && a.uniqueId == data.uniqueId {
      return Err(UniqueIdTaken);
    }
    if !HasUser(db.users, data.userId) {
      return Err(OwnerMissing);
    }
    AddAssetKeeps(before, row);
    db.assets := db.assets + [row];
    r := Ok(row);
  }

  /** The fields `update_asset` assigns: each supplied field overwrites the
      row's, every other field keeps its value. */
  function ApplyPatch(a: Asset, p: AssetUpdate): (r: Asset)
    ensures r.id == a.id
    ensures p.name.Some? ==> r.name == p.name.value
    ensures p.name.None? ==> r.name == a.name
    ensures p.assetType.Some? ==> r.assetType == p.assetType.value
    ensures p.assetType.None? ==> r.assetType == a.assetType
    ensures p.uniqueId.Some? ==> r.uniqueId == p.uniqueId.value
    ensures p.uniqueId.None? ==> r.uniqueId == a.uniqueId
    ensures p.description.Some? ==> r.description == p.description
    ensures p.description.None? ==> r.description == a.description
    ensures p.status.Some? ==> r.status == p.status
    ensures p.status.None? ==> r.status == a.status
    ensures p.userId.Some? ==> r.userId == p.userId.value
    ensures p.userId.None? ==> r.userId == a.userId
  {
    Asset(a.id, Pick(p.name, a.name), Pick(p.assetType, a.assetType), Pick(p.uniqueId, a.uniqueId),
          if p.description.Some? then p.description else a.description,
          if p.status.Some? then p.status else a.status,
          Pick(p.userId, a.userId))
  }

  /** The supplied value, or the old one when the field is None. */
  function Pick<T>(supplied: Option<T>, current: T): T {
    if supplied.Some? then supplied.value else current
  }

  const EmptyPatch := AssetUpdate(None, None, None, None, None, None)

  /** A patch that supplies nothing leaves the row as it is, applying one patch
      twice is applying it once, and a patch can never clear `description` or
      `status` back to NULL. */
  lemma PatchLaws(a: Asset, p: AssetUpdate)
    ensures ApplyPatch(a, EmptyPatch) == a
    ensures ApplyPatch(ApplyPatch(a, p), p) == ApplyPatch(a, p)
    ensures a.description.Some? ==> ApplyPatch(a, p).description.Some?
    ensures a.status.Some? ==> ApplyPatch(a, p).status.Some?
  {
  }

  /** The patch `q` after `p`: each field of `q` that is supplied wins. */
  function Then(p: AssetUpdate, q: AssetUpdate): AssetUpdate {
    AssetUpdate(
      if q.name.Some? then q.name else p.name,
      if q.assetType.Some? then q.assetType else p.assetType,
      if q.uniqueId.Some? then q.uniqueId else p.uniqueId,
      if q.description.Some? then q.description else p.description,
      if q.status.Some? then q.status else p.status,
      if q.userId.Some? then q.userId else p.userId)
  }

  /** Two updates in a row have the effect of their merged patch. */
  lemma PatchesCompose(a: Asset, p: AssetUpdate, q: AssetUpdate)
    ensures ApplyPatch(ApplyPatch(a, p), q) == ApplyPatch(a, Then(p, q))
  {
  }

  /** The assignments of `update_asset` to the loaded row: each field that is
      not None is assigned in turn, and the result is the patched row. */
  method AssignFields(a: Asset, patch: AssetUpdate) returns (row: Asset)
    ensures row == ApplyPatch(a, patch)
  {
    row := a;
    if patch.name.Some? {
      row := row.(name := patch.name.value);
    }
    if patch.assetType.Some? {
      row := row.(assetType := patch.assetType.value);
    }
    if patch.uniqueId.Some? {
      row := row.(uniqueId := patch.uniqueId.value);
    }
    if patch.description.Some? {
      row := row.(description := patch.description);
    }
    if patch.status.Some? {
      row := row.(status := patch.status);
    }
    if patch.userId.Some? {
      row := row.(userId := patch.userId.value);
    }
  }

  /** Whether a row other than the `i`-th already holds `row`'s `unique_id`. */
  predicate UniqueIdClash(assets: seq<Asset>, i: int, row: Asset) {
    exists j :: 0 <= j < |assets| && j != i && assets[j].uniqueId == row.uniqueId
  }

  /** `update_asset`: None for a missing id; otherwise the supplied fields are
      assigned one by one and committed. The function checks no uniqueness
      itself, so a `unique_id` another row holds, or an owner that does not exist,
      is rejected by the database at commit and nothing changes. */
  method UpdateAsset(db: Database, assetId: int, patch: AssetUpdate) returns (r: Result<Option<Asset>>)
    requires db.Valid()
    modifies db
    ensures db.Valid()
    ensures !HasAsset(old(db.assets), assetId) ==> r == Ok(None) && db.Snapshot() == old(db.Snapshot())
    ensures HasAsset(old(db.assets), assetId) ==>
              var i := FindAsset(old(db.assets), assetId).value;
              var row := ApplyPatch(old(db.assets)[i], patch);
              var clash := UniqueIdClash(old(db.assets), i, row);
              && (clash ==> r == Err(UniqueIdTaken))
              && (!clash && !HasUser(old(db.users), row.userId) ==> r == Err(OwnerMissing))
              && (r.Ok? <==> !clash && HasUser(old(db.users), row.userId))
              && (r.Err? ==> db.Snapshot() == old(db.Snapshot()))
              && (r.Ok? ==> r == Ok(Some(row))
                            && db.Snapshot() == old(db.Snapshot()).(assets := old(db.assets)[i := row]))
  {
    var found := FindAsset(db.assets, assetId);
    if found.None? {
      return Ok(None);
    }
    var i := found.value;
    var row := AssignFields(db.assets[i], patch);
    if UniqueIdClash(db.assets, i, row) {
      return Err(UniqueIdTaken);
    }
    if !HasUser(db.users, row.userId) {
      return Err(OwnerMissing);
    }
    ReplaceAssetKeeps(db.Snapshot(), i, row);
    db.assets := db.assets[i := row];
    r := Ok(Some(row));
  }

  /** Whether any fix, zone or alert refers to the asset. */
  predicate Referenced(t: Tables, assetId: int) {
    || (exists f :: f in t.fixes && f.assetId == assetId)
    || (exists z :: z in t.zones && z.assetId == assetId)
    || (exists g :: g in t.alerts && g.assetId == assetId)
  }

  /** `delete_asset`: None for a missing id; otherwise the row is deleted and
      returned. The ORM first sets `asset_id` to NULL in the asset's locations,
      which their NOT NULL constraint rejects, and the foreign keys of
      geo_zones and geo_alerts reject the delete itself; then nothing changes. */
  method DeleteAsset(db: Database, assetId: int) returns (r: Result<Option<Asset>>)
    requires db.Valid()
    modifies db
    ensures db.Valid()
    ensures !HasAsset(old(db.assets), assetId) ==> r == Ok(None) && db.Snapshot() == old(db.Snapshot())
    ensures HasAsset(old(db.assets), assetId) ==>
              (r.Err? <==> Referenced(old(db.Snapshot()), assetId))
    ensures r.Err? ==> r.error.IntegrityError? && db.Snapshot() == old(db.Snapshot())
    ensures r.Ok? ==> (r.value.Some? <==> HasAsset(old(db.assets), assetId))
    ensures r.Ok? && r.value.Some? ==>
              var i := FindAsset(old(db.assets), assetId).value;
              && r.value.value == old(db.assets)[i]
              && db.Snapshot() == old(db.Snapshot()).(assets := old(db.assets)[..i] + old(db.assets)[i + 1..])
  {
    ghost var before := db.Snapshot();
    var found := FindAsset(db.assets, assetId);
    if found.None? {
      return Ok(None);
    }
    var i := found.value;
    if exists f :: f in db.fixes && f.assetId == assetId {
      return Err(IntegrityError("asset_locations_asset_id_not_null"));
    }
    if exists z :: z in db.zones && z.assetId == assetId {
      return Err(IntegrityError("geo_zones_asset_id_fkey"));
    }
    if exists g :: g in db.alerts && g.assetId == assetId {
      return Err(IntegrityError("geo_alerts_asset_id_fkey"));
    }
    assert !Referenced(before, assetId);
    var row := db.assets[i];
    RemoveAssetKeeps(before, i);
    db.assets := db.assets[..i] + db.assets[i + 1..];
    assert db.Snapshot() == before.(assets := before.assets[..i] + before.assets[i + 1..]);
    r := Ok(Some(row));
  }

  /** After a delete the id is gone: ids are unique, so no other row carries it. */
  lemma DeletedIdIsGone(t: Tables, assetId: int)
    requires Consistent(t) && HasAsset(t.assets, assetId)
    ensures var i := FindAsset(t.assets, assetId).value;
            !HasAsset(t.assets[..i] + t.assets[i + 1..], assetId)
  {
    var i := FindAsset(t.assets, assetId).value;
    var s := t.assets[..i] + t.assets[i + 1..];
    assert forall j :: i < j < |t.assets| ==> t.assets[j].id != assetId by {
      forall j | i < j < |t.assets| ensures t.assets[j].id != assetId {
        assert t.assets[i].id != t.assets[j].id;
      }
    }
    forall k | 0 <= k < |s| ensures s[k].id != assetId {
      if k < i {
        assert s[k] == t.assets[k];
      } else {
        assert s[k] == t.assets[k + 1];
      }
    }
  }
}
