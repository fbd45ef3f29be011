/** The location store operations of app/crud/locations_crud.py: appending
    a fix, the latest fix of an asset, and the filtered, ordered, limited
    history of an asset's fixes. */
module LocationsCrud {
  import opened Common
  import opened Store
  import opened LocationsSchema

  /** `LIMIT` of the history query when the caller gives none. */
  const DefaultHistoryLimit := 100

  /** The WKT `f"SRID=4326;POINT({longitude} {latitude})"`; `fmt` is Python's
      rendering of a float. */
  function PointWkt(longitude: real, latitude: real, fmt: real -> string): string {
    "SRID=4326;POINT(" + fmt(longitude) + " " + fmt(latitude) + ")"
  }

  /** `create_asset_location`: inserts one fix. A missing timestamp becomes `now`
      and missing `additional_data` becomes `{}`. The id is drawn from the
      sequence before the insert, so it is used up even when the foreign key
      on `asset_id` rejects the row. */
  method CreateAssetLocation(db: Database, assetId: int, location: LocationCreate,
                             now: int, fmt: real -> string)
    returns (r: Result<Fix>)
    requires db.Valid()
    modifies db
    ensures db.Valid()
    ensures r.Ok? <==> HasAsset(old(db.assets), assetId)
    ensures r.Ok? ==>
      && r.value.id == old(db.nextFixId)
      && r.value.assetId == assetId
      && r.value.latitude == location.latitude
      && r.value.longitude == location.longitude
      && r.value.location == PointWkt(location.longitude, location.latitude, fmt)
      && r.value.timestamp == (if location.timestamp.Some? then location.timestamp.value else now)
      && r.value.additionalData
         == (if location.additionalData.Some? then location.additionalData.value else map[])
      && db.Snapshot() == old(db.Snapshot()).(fixes := old(db.fixes) + [r.value],
                                                nextFixId := old(db.nextFixId) + 1)
    ensures r.Err? ==>
      && r.error == IntegrityError("asset_locations_asset_id_fkey")
      && db.Snapshot() == old(db.Snapshot()).(nextFixId := old(db.nextFixId) + 1)
  {
    var point := PointWkt(location.longitude, location.latitude, fmt);
    var timestamp := if location.timestamp.Some? then location.timestamp.value else now;
    var data := if location.additionalData.Some? then location.additionalData.value else map[];
    var row := Fix(db.nextFixId, assetId, timestamp, location.longitude, location.latitude,
                   point, data);
    db.nextFixId := db.nextFixId + 1;
    if !HasAsset(db.assets, assetId) {
      return Err(IntegrityError("asset_locations_asset_id_fkey"));
    }
    db.fixes := db.fixes + [row];
    r := Ok(row);
  }

  /** `get_latest_asset_location`: None when the asset has no fix; otherwise the
      latest fix as a `LocationResponse`, whose construction fails when the
      stored coordinates are out of range. */
  function GetLatestAssetLocation(fixes: seq<Fix>, assetId: int): (r: Result<Option<LocationResponse>>)
    ensures r == Ok(None) <==> forall f :: f in fixes ==> f.assetId != assetId
    ensures r.Ok? && r.value.Some? ==>
      && r.value.value.assetId == assetId
      && (exists f :: f in fixes && f.assetId == assetId && f.id == r.value.value.id
                      && f.timestamp == r.value.value.timestamp
                      && f.latitude == r.value.value.latitude
                      && f.longitude == r.value.value.longitude)
      && forall f :: f in fixes && f.assetId == assetId ==> f.timestamp <= r.value.value.timestamp
    ensures r.Err? ==>
      && r.error.ValidationError?
      && exists f :: f in fixes && f.assetId == assetId
                     && !(LatitudeInRange(f.latitude) && LongitudeInRange(f.longitude))
    // only the one row the query returns is validated
    ensures var latest := LatestFix(fixes, assetId);
            && (r.Err? <==> latest.Some? && !(LatitudeInRange(latest.value.latitude)
                                               && LongitudeInRange(latest.value.longitude)))
            && (r.Ok? && r.value.Some? ==> r.value.value.id == latest.value.id)
  {
    match LatestFix(fixes, assetId)
    case None => Ok(None)
    case Some(f) =>
      match ValidateLocationResponse(RecordOf(f))
      case Err(e) => Err(e)
      case Ok(v) => Ok(Some(v))
  }

  /** The `WHERE` clause of the history query: the asset, and each bound only when
      it is supplied, both inclusive. */
  predicate InWindow(f: Fix, assetId: int, startTime: Option<int>, endTime: Option<int>) {
    && f.assetId == assetId
    && (startTime.Some? ==> f.timestamp >= startTime.value)
    && (endTime.Some? ==> f.timestamp <= endTime.value)
  }

  function Matching(fixes: seq<Fix>, assetId: int, startTime: Option<int>, endTime: Option<int>)
    : (r: seq<Fix>)
    ensures forall f :: f in r <==> f in fixes && InWindow(f, assetId, startTime, endTime)
    ensures forall f :: InWindow(f, assetId, startTime, endTime) ==>
              multiset(r)[f] == multiset(fixes)[f]
    ensures forall f :: !InWindow(f, assetId, startTime, endTime) ==> multiset(r)[f] == 0
  {
    if |fixes| == 0 then []
    else
      var rest := Matching(fixes[1..], assetId, startTime, endTime);
      assert fixes == [fixes[0]] + fixes[1..];
      if InWindow(fixes[0], assetId, startTime, endTime) then [fixes[0]] + rest else rest
  }

  /** `ORDER BY timestamp DESC` */
  predicate DescendingByTime(s: seq<Fix>) {
    forall i, j :: 0 <= i < j < |s| ==> s[i].timestamp >= s[j].timestamp
  }

  lemma PrependDescending(x: Fix, s: seq<Fix>)
    requires DescendingByTime(s)
    requires forall g :: g in s ==> g.timestamp <= x.timestamp
    ensures DescendingByTime([x] + s)
  {
    var r := [x] + s;
    forall i, j | 0 <= i < j < |r| ensures r[i].timestamp >= r[j].timestamp {
      if i == 0 {
        assert r[j] == s[j - 1];
      } else {
        assert r[i] == s[i - 1] && r[j] == s[j - 1];
      }
    }
  }

  lemma HeadIsNewest(s: seq<Fix>)
    requires DescendingByTime(s) && |s| > 0
    ensures forall g :: g in s ==> g.timestamp <= s[0].timestamp
  {
    forall g | g in s ensures g.timestamp <= s[0].timestamp {
      var j :| 0 <= j < |s| && s[j] == g;
      if j > 0 { assert s[0].timestamp >= s[j].timestamp; }
    }
  }

  function InsertDescending(f: Fix, s: seq<Fix>): (r: seq<Fix>)
    requires DescendingByTime(s)
    ensures DescendingByTime(r)
    ensures forall g :: g in r ==> g == f || g in s
    ensures multiset(r) == multiset(s) + multiset{f}
  {
    if |s| == 0 then [f]
    else if f.timestamp >= s[0].timestamp then
      HeadIsNewest(s);
      PrependDescending(f, s);
      [f] + s
    else
      var rest := InsertDescending(f, s[1..]);
      HeadIsNewest(s);
      assert forall g :: g in rest ==> g.timestamp <= s[0].timestamp;
      PrependDescending(s[0], rest);
      assert s == [s[0]] + s[1..];
      [s[0]] + rest
  }

  function SortDescending(s: seq<Fix>): (r: seq<Fix>)
    ensures DescendingByTime(r)
    ensures multiset(r) == multiset(s)
  {
    if |s| == 0 then []
    else
      assert s == [s[0]] + s[1..];
      InsertDescending(s[0], SortDescending(s[1..]))
  }

  /** The rows the history query returns, before each becomes a `LocationResponse`. */
  function HistoryRows(fixes: seq<Fix>, assetId: int, startTime: Option<int>,
                       endTime: Option<int>, limit: nat): (r: seq<Fix>)
    ensures DescendingByTime(r) && |r| <= limit
    ensures multiset(r) <= multiset(Matching(fixes, assetId, startTime, endTime))
  {
    var sorted := SortDescending(Matching(fixes, assetId, startTime, endTime));
    if |sorted| <= limit then sorted
    else
      PrefixDescending(sorted, limit);
      PrefixDrawn(sorted, limit);
      sorted[..limit]
  }

  /** `[LocationResponse(**row) for row in results]`: fails at the first row
      that is not a valid response. */
  function ToResponses(rows: seq<Fix>): (r: Result<seq<LocationResponse>>)
    ensures r.Ok? <==> forall f :: f in rows ==> LatitudeInRange(f.latitude) && LongitudeInRange(f.longitude)
    ensures r.Ok? ==> |r.value| == |rows| && forall i :: 0 <= i < |rows| ==>
              r.value[i] == LocationResponse(rows[i].id, rows[i].assetId, rows[i].latitude,
                                             rows[i].longitude, rows[i].timestamp,
                                             Some(rows[i].additionalData))
    ensures r.Err? ==> r.error.ValidationError?
  {
    if |rows| == 0 then Ok([])
    else
      assert rows == [rows[0]] + rows[1..];
      match ValidateLocationResponse(RecordOf(rows[0]))
      case Err(e) => Err(e)
      case Ok(v) =>
        match ToResponses(rows[1..])
        case Err(e) => Err(e)
        case Ok(vs) => Ok([v] + vs)
  }

  /** `get_asset_location_history`: PostgreSQL rejects a negative `LIMIT`. */
  function GetAssetLocationHistory(fixes: seq<Fix>, assetId: int, startTime: Option<int>,
                                   endTime: Option<int>, limit: int)
    : (r: Result<seq<LocationResponse>>)
    ensures limit < 0 ==> r == Err(DataError("LIMIT must not be negative"))
    ensures limit >= 0 ==> r == ToResponses(HistoryRows(fixes, assetId, startTime, endTime, limit))
    ensures r.Err? ==> r.error.DataError? || r.error.ValidationError?
    ensures r.Ok? ==>
      var n := |Matching(fixes, assetId, startTime, endTime)|;
      && |r.value| == (if n <= limit then n else limit)
      && ResponsesInWindow(r.value, assetId, startTime, endTime)
      && ResponsesNewestFirst(r.value)
  {
    if limit < 0 then Err(DataError("LIMIT must not be negative"))
    else
      HistoryRowsSpec(fixes, assetId, startTime, endTime, limit);
      ResponsesKeepRows(HistoryRows(fixes, assetId, startTime, endTime, limit), assetId, startTime, endTime);
      ToResponses(HistoryRows(fixes, assetId, startTime, endTime, limit))
  }

  /** Every response is of the asset and inside the window. */
  predicate ResponsesInWindow(rs: seq<LocationResponse>, assetId: int, startTime: Option<int>,
                              endTime: Option<int>) {
    forall i :: 0 <= i < |rs| ==>
      && rs[i].assetId == assetId
      && (startTime.Some? ==> rs[i].timestamp >= startTime.value)
      && (endTime.Some? ==> rs[i].timestamp <= endTime.value)
  }

  /** The responses are newest first. */
  predicate ResponsesNewestFirst(rs: seq<LocationResponse>) {
    forall i, j :: 0 <= i < j < |rs| ==> rs[i].timestamp >= rs[j].timestamp
  }

  /** Turning rows into responses keeps their window and their order. */
  lemma ResponsesKeepRows(rows: seq<Fix>, assetId: int, startTime: Option<int>, endTime: Option<int>)
    requires forall f :: f in rows ==> InWindow(f, assetId, startTime, endTime)
    requires DescendingByTime(rows)
    ensures ToResponses(rows).Ok? ==>
              && |ToResponses(rows).value| == |rows|
              && ResponsesInWindow(ToResponses(rows).value, assetId, startTime, endTime)
              && ResponsesNewestFirst(ToResponses(rows).value)
  {
    if ToResponses(rows).Ok? {
      var rs := ToResponses(rows).value;
      forall i | 0 <= i < |rs|
        ensures rs[i].assetId == assetId
        ensures startTime.Some? ==> rs[i].timestamp >= startTime.value
        ensures endTime.Some? ==> rs[i].timestamp <= endTime.value
      {
        assert rows[i] in rows;
      }
    }
  }

  /** The call without a `limit`: never refused by the database, and at most the
      100 newest matching fixes. */
  lemma DefaultHistoryLimitCall(fixes: seq<Fix>, assetId: int, startTime: Option<int>,
                                endTime: Option<int>)
    ensures var r := GetAssetLocationHistory(fixes, assetId, startTime, endTime, DefaultHistoryLimit);
            && (r.Err? ==> r.error.ValidationError?)
            && (r.Ok? ==> |r.value| <= 100
                          && (|Matching(fixes, assetId, startTime, endTime)| <= 100 ==>
                                |r.value| == |Matching(fixes, assetId, startTime, endTime)|))
  {
  }

  /** Taking a prefix of a newest-first sequence keeps the newest elements. */
  lemma TakeNewest(sorted: seq<Fix>, k: nat)
    requires DescendingByTime(sorted)
    requires k <= |sorted|
    ensures forall f, g :: (f in multiset(sorted) - multiset(sorted[..k]) && g in sorted[..k])
                           ==> f.timestamp <= g.timestamp
  {
    assert sorted == sorted[..k] + sorted[k..];
    assert multiset(sorted) - multiset(sorted[..k]) == multiset(sorted[k..]);
    forall f: Fix, g: Fix | f in multiset(sorted) - multiset(sorted[..k]) && g in sorted[..k]
      ensures f.timestamp <= g.timestamp
    {
      assert f in sorted[k..];
      var i :| k <= i < |sorted| && sorted[i] == f;
      var j :| 0 <= j < k && sorted[j] == g;
    }
  }

  /** The history rows are the first `min(limit, n)` of the newest-first
      ordering of the `n` matching fixes. */
  lemma HistoryRowsArePrefix(fixes: seq<Fix>, assetId: int, startTime: Option<int>,
                             endTime: Option<int>, limit: nat)
    ensures var m := Matching(fixes, assetId, startTime, endTime);
            var k := if |m| <= limit then |m| else limit;
            HistoryRows(fixes, assetId, startTime, endTime, limit) == SortDescending(m)[..k]
  {
    var m := Matching(fixes, assetId, startTime, endTime);
    assert |SortDescending(m)| == |m| by {
      assert |multiset(SortDescending(m))| == |multiset(m)|;
    }
  }

  lemma PrefixDrawn(sorted: seq<Fix>, k: nat)
    requires k <= |sorted|
    ensures multiset(sorted[..k]) <= multiset(sorted)
    ensures k == |sorted| ==> multiset(sorted[..k]) == multiset(sorted)
  {
    assert sorted == sorted[..k] + sorted[k..];
  }

  lemma PrefixDescending(sorted: seq<Fix>, k: nat)
    requires k <= |sorted| && DescendingByTime(sorted)
    ensures DescendingByTime(sorted[..k])
  {
  }

  /** What the history query promises: every row is a fix of the asset inside the
      window, the rows are newest first, there are `min(limit, n)` of them for `n`
      matching fixes (all of them when there are no more than `limit`), they are drawn from
      the matching fixes, and no matching fix left out is newer than a row kept. */
  lemma HistoryRowsSpec(fixes: seq<Fix>, assetId: int, startTime: Option<int>,
                        endTime: Option<int>, limit: nat)
    ensures var rows := HistoryRows(fixes, assetId, startTime, endTime, limit);
      && (forall f :: f in rows ==> f in fixes && InWindow(f, assetId, startTime, endTime))
      && DescendingByTime(rows)
      && |rows| == (if |Matching(fixes, assetId, startTime, endTime)| <= limit
                    then |Matching(fixes, assetId, startTime, endTime)| else limit)
      && multiset(rows) <= multiset(Matching(fixes, assetId, startTime, endTime))
      && (|Matching(fixes, assetId, startTime, endTime)| <= limit ==>
            multiset(rows) == multiset(Matching(fixes, assetId, startTime, endTime)))
      && (forall f, g :: (f in multiset(Matching(fixes, assetId, startTime, endTime)) - multiset(rows)
                          && g in rows) ==> f.timestamp <= g.timestamp)
  {
    var m := Matching(fixes, assetId, startTime, endTime);
    var sorted := SortDescending(m);
    var rows := HistoryRows(fixes, assetId, startTime, endTime, limit);
    var k := if |m| <= limit then |m| else limit;
    HistoryRowsArePrefix(fixes, assetId, startTime, endTime, limit);
    assert |sorted| == |m| by {
      assert |multiset(sorted)| == |multiset(m)|;
    }
    assert rows == sorted[..k];
    TakeNewest(sorted, k);
    PrefixDrawn(sorted, k);
    PrefixDescending(sorted, k);
    forall f | f in rows ensures f in fixes && InWindow(f, assetId, startTime, endTime) {
      assert f in multiset(rows);
      assert f in multiset(m);
      assert f in m;
    }
  }
}
