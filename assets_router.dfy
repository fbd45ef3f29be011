/** The asset endpoints of app/router/assets_router.py: the duplicate
    `unique_id` rule in front of `create_asset`, and the 404 mapping of a
    missing asset around the lookups, updates and deletes. */
module AssetsRouter {
  import opened Common
  import opened Store
  import opened AssetsCrud

  const DuplicateUniqueId := HttpError(400, "Asset with this unique_id already exists")
  const AssetNotFound := HttpError(404, "Asset not found")
  const DeletedMessage := "Asset deleted successfully"

  /** Whether some asset already carries that `unique_id`. */
  predicate UniqueIdInUse(assets: seq<Asset>, uniqueId: string) {
    exists a :: a in assets && a.uniqueId == uniqueId
  }

  /** `create_new_asset`: a `unique_id` already in use is refused with 400 before
      anything is inserted; otherwise the asset is created and its stored fields,
      a `null` status read back as "active", are returned. An unknown owner makes the insert fail. */
  method CreateNewAsset(db: Database, asset: AssetCreate) returns (r: Result<Asset>)
    requires db.Valid()
    modifies db
    ensures db.Valid()
    ensures UniqueIdInUse(old(db.assets), asset.uniqueId) ==>
              r == Err(DuplicateUniqueId) && db.Snapshot() == old(db.Snapshot())
    ensures !UniqueIdInUse(old(db.assets), asset.uniqueId) ==>
              && (r.Ok? <==> HasUser(old(db.users), asset.userId))
              && (r.Err? ==> r == Err(OwnerMissing)
                             && db.Snapshot() == old(db.Snapshot()).(nextAssetId := old(db.nextAssetId) + 1))
    ensures r.Ok? ==>
              && db.Snapshot() == old(db.Snapshot()).(assets := old(db.assets) + [r.value],
                                                       nextAssetId := old(db.nextAssetId) + 1)
              && r.value.id == old(db.nextAssetId)
              && r.value.name == asset.name && r.value.assetType == asset.assetType
              && r.value.uniqueId == asset.uniqueId && r.value.description == asset.description
              && r.value.status == StoredStatus(asset.status) && r.value.userId == asset.userId
              && GetAsset(db.assets, r.value.id) == Some(r.value)
  {
    if UniqueIdInUse(db.assets, asset.uniqueId) {
      return Err(DuplicateUniqueId);
    }
    r := CreateAsset(db, asset);
    if r.Ok? {
      GetAssetIsTheRow(db.Snapshot(), |db.assets| - 1);
    }
  }

  /** `read_assets`: the page `get_assets` returns. */
  function ReadAssets(assets: seq<Asset>, skip: int, limit: int): (r: Result<seq<Asset>>)
    ensures r.Ok? <==> skip >= 0 && limit >= 0
    ensures r.Ok? ==> |r.value| <= limit && forall a :: a in r.value ==> a in assets
  {
    GetAssets(assets, skip, limit)
  }

  /** `read_asset`: the asset with that id, 404 when there is none. */
  function ReadAsset(assets: seq<Asset>, assetId: int): (r: Result<Asset>)
    ensures r.Err? <==> !HasAsset(assets, assetId)
    ensures r.Err? ==> r.error == AssetNotFound
    ensures r.Ok? ==> r.value in assets && r.value.id == assetId
  {
    match GetAsset(assets, assetId)
    case None => Err(AssetNotFound)
    case Some(a) => Ok(a)
  }

  /** `update_existing_asset`: 404 for a missing id, otherwise the updated row;
      a commit the database rejects (a `unique_id` another row holds, an owner
      that does not exist) propagates, and every other update succeeds. */
  method UpdateExistingAsset(db: Database, assetId: int, patch: AssetUpdate) returns (r: Result<Asset>)
    requires db.Valid()
    modifies db
    ensures db.Valid()
    ensures !HasAsset(old(db.assets), assetId) ==>
              r == Err(AssetNotFound) && db.Snapshot() == old(db.Snapshot())
    ensures HasAsset(old(db.assets), assetId) ==>
              var i := FindAsset(old(db.assets), assetId).value;
              var row := ApplyPatch(old(db.assets)[i], patch);
              && (UniqueIdClash(old(db.assets), i, row) ==> r == Err(UniqueIdTaken))
              && (!UniqueIdClash(old(db.assets), i, row) && !HasUser(old(db.users), row.userId) ==>
                    r == Err(OwnerMissing))
              && (r.Ok? <==> !UniqueIdClash(old(db.assets), i, row) && HasUser(old(db.users), row.userId))
    ensures r.Err? ==> db.Snapshot() == old(db.Snapshot())
    ensures r.Ok? ==> && HasAsset(old(db.assets), assetId)
                      && r.value == ApplyPatch(GetAsset(old(db.assets), assetId).value, patch)
                      && GetAsset(db.assets, assetId) == Some(r.value)
                      && db.Snapshot() == old(db.Snapshot()).(assets := old(db.assets)[
                           FindAsset(old(db.assets), assetId).value := r.value])
  {
    var updated := UpdateAsset(db, assetId, patch);
    match updated
    case Err(e) => r := Err(e);
    case Ok(None) => r := Err(AssetNotFound);
    case Ok(Some(row)) =>
      var i := FindAsset(old(db.assets), assetId).value;
      assert db.assets[i] == row;
      GetAssetIsTheRow(db.Snapshot(), i);
      r := Ok(row);
  }

  /** `delete_existing_asset`: 404 for a missing id, otherwise the success
      message once the row is gone; a rejected delete propagates. */
  method DeleteExistingAsset(db: Database, assetId: int) returns (r: Result<string>)
    requires db.Valid()
    modifies db
    ensures db.Valid()
    ensures !HasAsset(old(db.assets), assetId) ==>
              r == Err(AssetNotFound) && db.Snapshot() == old(db.Snapshot())
    ensures HasAsset(old(db.assets), assetId) ==> (r.Err? <==> Referenced(old(db.Snapshot()), assetId))
    ensures r.Err? ==> db.Snapshot() == old(db.Snapshot())
    ensures r.Ok? ==> && r.value == DeletedMessage && !HasAsset(db.assets, assetId)
                      && |db.assets| == |old(db.assets)| - 1
                      && var i := FindAsset(old(db.assets), assetId).value;
                         db.Snapshot() == old(db.Snapshot()).(assets := old(db.assets)[..i]
                                                                        + old(db.assets)[i + 1..])
  {
    ghost var before := db.Snapshot();
    var deleted := DeleteAsset(db, assetId);
    match deleted
    case Err(e) => r := Err(e);
    case Ok(None) => r := Err(AssetNotFound);
    case Ok(Some(_)) =>
      DeletedIdIsGone(before, assetId);
      r := Ok(DeletedMessage);
  }
}
