/** The periodic sweeps of app/tasks/bg_tasks.py: the staleness query, the
    containment check the fence sweep uses, and the two sweeps, each of which
    creates one alert per request through `create_geo_alert` and stops at the
    first exception it raises. Every alert is committed by `create_geo_alert`
    itself, so the `rollback` on the error path has nothing left to undo. */
module BgTasks {
  import opened Common
  import opened Store
  import opened GeoCrud

  /** `timedelta(minutes=10)`, in seconds. */
  const StaleWindow := 600

  /** No fix of the asset is at or after `now - 10 minutes`. */
  predicate IsStale(fixes: seq<Fix>, assetId: int, now: int) {
    forall f :: f in fixes && f.assetId == assetId ==> f.timestamp < now - StaleWindow
  }

  /** `get_stale_assets`: the assets whose id is not among the asset ids of the
      recent fixes, in store order. */
  function StaleAssets(assets: seq<Asset>, fixes: seq<Fix>, now: int): (r: seq<Asset>)
    ensures forall a :: a in r <==> a in assets && IsStale(fixes, a.id, now)
    ensures forall a :: multiset(r)[a] == if IsStale(fixes, a.id, now) then multiset(assets)[a] else 0
    ensures |r| <= |assets|
  {
    if |assets| == 0 then []
    else
      var rest := StaleAssets(assets[1..], fixes, now);
      assert assets == [assets[0]] + assets[1..];
      if IsStale(fixes, assets[0].id, now) then [assets[0]] + rest else rest
  }

  lemma {:induction false} StaleAssetsAppend(left: seq<Asset>, right: seq<Asset>, fixes: seq<Fix>, now: int)
    ensures StaleAssets(left + right, fixes, now)
            == StaleAssets(left, fixes, now) + StaleAssets(right, fixes, now)
    decreases |left|
  {
    if |left| > 0 {
      assert (left + right)[1..] == left[1..] + right;
      StaleAssetsAppend(left[1..], right, fixes, now);
    } else {
      assert left + right == right;
    }
  }

  /** The stale assets keep the table's order: each asset contributes itself,
      once, exactly when it is stale, at its own place. */
  lemma StaleAssetsInOrder(left: seq<Asset>, a: Asset, right: seq<Asset>, fixes: seq<Fix>, now: int)
    ensures StaleAssets(left + [a] + right, fixes, now)
            == StaleAssets(left, fixes, now) + (if IsStale(fixes, a.id, now) then [a] else [])
               + StaleAssets(right, fixes, now)
  {
    StaleAssetsAppend(left + [a], right, fixes, now);
    StaleAssetsAppend(left, [a], fixes, now);
    assert [a][1..] == [];
    assert StaleAssets([a][1..], fixes, now) == [];
    var one := if IsStale(fixes, a.id, now) then [a] else [];
    assert StaleAssets([a], fixes, now) == one by {
      assert one == (if IsStale(fixes, [a][0].id, now) then [[a][0]] + [] else []);
    }
  }

  /** Staleness seen from the latest fix: the asset has none, or it is older than
      the window. A fix exactly at the threshold is fresh. */
  lemma StaleIffLatestIsOld(fixes: seq<Fix>, assetId: int, now: int)
    ensures IsStale(fixes, assetId, now) <==>
            LatestFix(fixes, assetId).None?
            || LatestFix(fixes, assetId).value.timestamp < now - StaleWindow
  {
    var latest := LatestFix(fixes, assetId);
    if latest.Some? && latest.value.timestamp >= now - StaleWindow {
      assert !IsStale(fixes, assetId, now) by {
        assert latest.value in fixes && latest.value.assetId == assetId;
      }
    }
  }

  /** The result of `check_asset_in_zone1`: `(bool(zone_exists), lon, lat)`. */
  datatype FenceReport = FenceReport(inZone: bool, longitude: Option<real>, latitude: Option<real>)

  /** `check_asset_in_zone1`: no fix gives `(False, None, None)`; otherwise whether
      some zone of the asset contains the latest fix, and the fix's coordinates
      only in that case. */
  function CheckAssetInZone1(fixes: seq<Fix>, zones: seq<Zone>, assetId: int,
                             contains: (Zone, real, real) -> bool): (r: FenceReport)
    ensures LatestFix(fixes, assetId).None? ==> r == FenceReport(false, None, None)
    ensures r.inZone <==>
      LatestFix(fixes, assetId).Some?
      && exists z :: z in zones && z.assetId == assetId
                     && contains(z, LatestFix(fixes, assetId).value.longitude,
                                 LatestFix(fixes, assetId).value.latitude)
    ensures r.inZone ==> r.longitude == Some(LatestFix(fixes, assetId).value.longitude)
                         && r.latitude == Some(LatestFix(fixes, assetId).value.latitude)
    ensures !r.inZone ==> r.longitude.None? && r.latitude.None?
  {
    match LatestFix(fixes, assetId)
    case None => FenceReport(false, None, None)
    case Some(f) =>
      var found := ContainingZones(zones, assetId, f.longitude, f.latitude, contains);
      assert |found| > 0 ==> found[0] in found;
      if |found| > 0 then FenceReport(true, Some(f.longitude), Some(f.latitude))
      else FenceReport(false, None, None)
  }

  /** The sweep's check and the endpoint's check (`check_asset_in_zone`) agree on
      containment, and on the coordinates whenever the sweep reports any. */
  lemma FenceCheckAgreesWithEndpoint(fixes: seq<Fix>, zones: seq<Zone>, assetId: int,
                                     contains: (Zone, real, real) -> bool)
    ensures var sweep := CheckAssetInZone1(fixes, zones, assetId, contains);
            var endpoint := CheckAssetInZone(fixes, zones, assetId, contains);
            && (endpoint.Err? <==> LatestFix(fixes, assetId).None?)
            && (endpoint.Ok? ==> endpoint.value.inZone == sweep.inZone)
            && (sweep.inZone ==> sweep.longitude == Some(endpoint.value.longitude)
                                 && sweep.latitude == Some(endpoint.value.latitude))
  {
  }

  /** The fence check with the coordinates the alert message evidently wants:
      the latest fix's, whenever there is one. */
  function CheckAssetInZoneFixed(fixes: seq<Fix>, zones: seq<Zone>, assetId: int,
                                 contains: (Zone, real, real) -> bool): (r: FenceReport)
    ensures r.inZone == CheckAssetInZone1(fixes, zones, assetId, contains).inZone
    ensures LatestFix(fixes, assetId).None? ==> r == FenceReport(false, None, None)
    ensures LatestFix(fixes, assetId).Some? ==>
      r.longitude == Some(LatestFix(fixes, assetId).value.longitude)
      && r.latitude == Some(LatestFix(fixes, assetId).value.latitude)
  {
    match LatestFix(fixes, assetId)
    case None => FenceReport(false, None, None)
    case Some(f) =>
      FenceReport(CheckAssetInZone1(fixes, zones, assetId, contains).inZone,
                  Some(f.longitude), Some(f.latitude))
  }

  /** A fix at its asset's greatest timestamp. */
  predicate IsLatestRow(fixes: seq<Fix>, f: Fix) {
    forall g :: g in fixes && g.assetId == f.assetId ==> g.timestamp <= f.timestamp
  }

  /** The rows of `candidates` that are latest rows of `fixes`, in order. */
  function LatestAmong(fixes: seq<Fix>, candidates: seq<Fix>): (r: seq<Fix>)
    ensures forall f :: f in r <==> f in candidates && IsLatestRow(fixes, f)
    ensures forall f :: multiset(r)[f] == if IsLatestRow(fixes, f) then multiset(candidates)[f] else 0
    ensures |r| <= |candidates|
  {
    if |candidates| == 0 then []
    else
      var rest := LatestAmong(fixes, candidates[1..]);
      assert candidates == [candidates[0]] + candidates[1..];
      if IsLatestRow(fixes, candidates[0]) then [candidates[0]] + rest else rest
  }

  lemma {:induction false} LatestAmongAppend(fixes: seq<Fix>, left: seq<Fix>, right: seq<Fix>)
    ensures LatestAmong(fixes, left + right) == LatestAmong(fixes, left) + LatestAmong(fixes, right)
    decreases |left|
  {
    if |left| > 0 {
      assert (left + right)[1..] == left[1..] + right;
      LatestAmongAppend(fixes, left[1..], right);
    } else {
      assert left + right == right;
    }
  }

  /** The latest rows keep the candidates' order: each candidate contributes
      itself, once, exactly when it is a latest row, at its own place. */
  lemma LatestAmongInOrder(fixes: seq<Fix>, left: seq<Fix>, f: Fix, right: seq<Fix>)
    ensures LatestAmong(fixes, left + [f] + right)
            == LatestAmong(fixes, left) + (if IsLatestRow(fixes, f) then [f] else [])
               + LatestAmong(fixes, right)
  {
    LatestAmongAppend(fixes, left + [f], right);
    LatestAmongAppend(fixes, left, [f]);
    assert [f][1..] == [];
    assert LatestAmong(fixes, [f][1..]) == [];
    var one := if IsLatestRow(fixes, f) then [f] else [];
    assert LatestAmong(fixes, [f]) == one by {
      assert one == (if IsLatestRow(fixes, [f][0]) then [[f][0]] + [] else []);
    }
  }

  /** The join of `check_geo_fences`: every fix whose timestamp equals the
      maximum timestamp of its asset's fixes. */
  function LatestRows(fixes: seq<Fix>): (r: seq<Fix>)
    ensures forall f :: f in r <==> f in fixes && IsLatestRow(fixes, f)
    ensures forall f :: multiset(r)[f] == if IsLatestRow(fixes, f) then multiset(fixes)[f] else 0
  {
    LatestAmong(fixes, fixes)
  }

  /** Every asset with a fix has a row in the join, and every tied latest fix is
      a row of its own. */
  lemma LatestRowsCoverAssets(fixes: seq<Fix>, assetId: int)
    ensures (exists f :: f in LatestRows(fixes) && f.assetId == assetId)
            <==> (exists f :: f in fixes && f.assetId == assetId)
  {
    if exists f :: f in fixes && f.assetId == assetId {
      var latest := LatestFix(fixes, assetId).value;
      assert latest in LatestRows(fixes);
    }
  }

  /** Two fixes of one asset sharing its greatest timestamp are both rows. */
  lemma TiedFixesAreBothRows(fixes: seq<Fix>, f: Fix, g: Fix)
    requires f in fixes && g in fixes && f.assetId == g.assetId && f.timestamp == g.timestamp
    requires forall h :: h in fixes && h.assetId == f.assetId ==> h.timestamp <= f.timestamp
    ensures f in LatestRows(fixes) && g in LatestRows(fixes)
  {
  }

  /** One call of `create_geo_alert` a sweep makes. */
  datatype AlertRequest = AlertRequest(assetId: int, alertType: string, message: string)

  /** `f"{x}"` for an optional float; None renders as "None". */
  function OptionalText(x: Option<real>, fmt: real -> string): string {
    if x.None? then "None" else fmt(x.value)
  }

  /** `f"Asset {id} exited geo-fence at {lon},{lat}"` */
  function ExitMessage(assetId: int, lon: Option<real>, lat: Option<real>, fmt: real -> string): string {
    "Asset " + IntToString(assetId) + " exited geo-fence at "
    + OptionalText(lon, fmt) + "," + OptionalText(lat, fmt)
  }

  /** `f"Asset {id} has no updates for 10+ minutes"` */
  function StaleMessage(assetId: int): string {
    "Asset " + IntToString(assetId) + " has no updates for 10+ minutes"
  }

  /** The requests of the fence loop, in row order, with the coordinates
      `check_asset_in_zone1` returned; FenceRequestsSpec states what they are. */
  function FenceRequests(rows: seq<Fix>, fixes: seq<Fix>, zones: seq<Zone>,
                         contains: (Zone, real, real) -> bool, fmt: real -> string)
    : seq<AlertRequest>
  {
    if |rows| == 0 then []
    else
      var report := CheckAssetInZone1(fixes, zones, rows[0].assetId, contains);
      var rest := FenceRequests(rows[1..], fixes, zones, contains, fmt);
      if report.inZone then rest
      else
        [AlertRequest(rows[0].assetId, "exit_zone",
                      ExitMessage(rows[0].assetId, report.longitude, report.latitude, fmt))] + rest
  }

  /** One `exit_zone` request per row outside every zone of its asset and none for
      a row inside one; each request's message carries `None` for both coordinates. */
  lemma FenceRequestsSpec(rows: seq<Fix>, fixes: seq<Fix>, zones: seq<Zone>,
                          contains: (Zone, real, real) -> bool, fmt: real -> string)
    ensures var r := FenceRequests(rows, fixes, zones, contains, fmt);
      && |r| <= |rows|
      && (forall q :: q in r ==>
            && q.alertType == "exit_zone"
            && !CheckAssetInZone1(fixes, zones, q.assetId, contains).inZone
            && q.message == ExitMessage(q.assetId, None, None, fmt)
            && exists f :: f in rows && f.assetId == q.assetId)
      && ((forall f :: f in rows ==> !CheckAssetInZone1(fixes, zones, f.assetId, contains).inZone)
          ==> |r| == |rows| && forall i :: 0 <= i < |rows| ==> r[i].assetId == rows[i].assetId)
      && ((forall f :: f in rows ==> CheckAssetInZone1(fixes, zones, f.assetId, contains).inZone)
          ==> r == [])
  {
    FenceRequestsShape(rows, fixes, zones, contains, fmt);
    FenceRequestsAllOut(rows, fixes, zones, contains, fmt);
    FenceRequestsAllIn(rows, fixes, zones, contains, fmt);
  }

  lemma {:induction false} FenceRequestsAppend(left: seq<Fix>, right: seq<Fix>, fixes: seq<Fix>,
                                               zones: seq<Zone>, contains: (Zone, real, real) -> bool,
                                               fmt: real -> string)
    ensures FenceRequests(left + right, fixes, zones, contains, fmt)
            == FenceRequests(left, fixes, zones, contains, fmt) + FenceRequests(right, fixes, zones, contains, fmt)
    decreases |left|
  {
    if |left| > 0 {
      assert (left + right)[1..] == left[1..] + right;
      FenceRequestsAppend(left[1..], right, fixes, zones, contains, fmt);
    } else {
      assert left + right == right;
    }
  }

  /** The fence loop, row by row: a row outside every zone of its asset adds
      exactly one `exit_zone` request at its own place, with `None` coordinates
      in the message, and a row inside a zone adds none. */
  lemma FenceRequestsPerRow(left: seq<Fix>, f: Fix, right: seq<Fix>, fixes: seq<Fix>,
                            zones: seq<Zone>, contains: (Zone, real, real) -> bool, fmt: real -> string)
    ensures FenceRequests(left + [f] + right, fixes, zones, contains, fmt)
            == FenceRequests(left, fixes, zones, contains, fmt)
               + (if CheckAssetInZone1(fixes, zones, f.assetId, contains).inZone then []
                  else [AlertRequest(f.assetId, "exit_zone", ExitMessage(f.assetId, None, None, fmt))])
               + FenceRequests(right, fixes, zones, contains, fmt)
  {
    FenceRequestsAppend(left + [f], right, fixes, zones, contains, fmt);
    FenceRequestsAppend(left, [f], fixes, zones, contains, fmt);
    assert [f][1..] == [];
  }

  /** Each fence request is an exit request, with `None` coordinates, for the
      asset of some row that is outside all its zones. */
  lemma {:induction false} FenceRequestsShape(rows: seq<Fix>, fixes: seq<Fix>, zones: seq<Zone>,
                                              contains: (Zone, real, real) -> bool, fmt: real -> string)
    ensures var r := FenceRequests(rows, fixes, zones, contains, fmt);
      && |r| <= |rows|
      && forall q :: q in r ==>
            && q.alertType == "exit_zone"
            && !CheckAssetInZone1(fixes, zones, q.assetId, contains).inZone
            && q.message == ExitMessage(q.assetId, None, None, fmt)
            && exists f :: f in rows && f.assetId == q.assetId
    decreases |rows|
  {
    if |rows| > 0 {
      FenceRequestsShape(rows[1..], fixes, zones, contains, fmt);
      assert forall f :: f in rows[1..] ==> f in rows;
    }
  }

  /** With every row outside its zones, there is one request per row, in order. */
  lemma {:induction false} FenceRequestsAllOut(rows: seq<Fix>, fixes: seq<Fix>, zones: seq<Zone>,
                                               contains: (Zone, real, real) -> bool, fmt: real -> string)
    ensures var r := FenceRequests(rows, fixes, zones, contains, fmt);
      (forall f :: f in rows ==> !CheckAssetInZone1(fixes, zones, f.assetId, contains).inZone)
      ==> |r| == |rows| && forall i :: 0 <= i < |rows| ==> r[i].assetId == rows[i].assetId
    decreases |rows|
  {
    if |rows| > 0 {
      FenceRequestsAllOut(rows[1..], fixes, zones, contains, fmt);
      assert forall f :: f in rows[1..] ==> f in rows;
      assert rows[0] in rows;
    }
  }

  /** With every row inside some zone, there are no requests. */
  lemma {:induction false} FenceRequestsAllIn(rows: seq<Fix>, fixes: seq<Fix>, zones: seq<Zone>,
                                              contains: (Zone, real, real) -> bool, fmt: real -> string)
    ensures (forall f :: f in rows ==> CheckAssetInZone1(fixes, zones, f.assetId, contains).inZone)
            ==> FenceRequests(rows, fixes, zones, contains, fmt) == []
    decreases |rows|
  {
    if |rows| > 0 {
      FenceRequestsAllIn(rows[1..], fixes, zones, contains, fmt);
      assert forall f :: f in rows[1..] ==> f in rows;
      assert rows[0] in rows;
    }
  }


  /** The requests of the stale loop: one `stale_data` alert per stale asset, in order. */
  function StaleRequests(stale: seq<Asset>): (r: seq<AlertRequest>)
    ensures |r| == |stale|
    ensures forall i :: 0 <= i < |stale| ==>
              r[i] == AlertRequest(stale[i].id, "stale_data", StaleMessage(stale[i].id))
  {
    if |stale| == 0 then []
    else [AlertRequest(stale[0].id, "stale_data", StaleMessage(stale[0].id))] + StaleRequests(stale[1..])
  }

  /** `create_geo_alert` for one request against the tables `t`. */
  function Attempt(t: Tables, q: AlertRequest, now: int, id: int): Result<GeoAlertResponse> {
    NewGeoAlert(t.fixes, q.assetId, q.alertType, q.message, now, id)
  }

  /** The number of alerts the run added. */
  function Added(before: Tables, after: Tables): int {
    |after.alerts| - |before.alerts|
  }

  /** A sweep's loop over its requests: each request commits one alert, and the
      first exception stops the loop and is re-raised. */
  function RunAlerts(t: Tables, reqs: seq<AlertRequest>, now: int): (Tables, Outcome)
    decreases |reqs|
  {
    if |reqs| == 0 then (t, Pass)
    else
      match Attempt(t, reqs[0], now, t.nextAlertId)
      case Err(e) => (t, Fail(e))
      case Ok(a) =>
        RunAlerts(t.(alerts := t.alerts + [AlertRow(a)], nextAlertId := t.nextAlertId + 1),
                  reqs[1..], now)
  }

  /** One step of a run that creates its first alert. */
  lemma RunAlertsStepOk(t: Tables, reqs: seq<AlertRequest>, now: int, a: GeoAlertResponse)
    requires |reqs| > 0 && Attempt(t, reqs[0], now, t.nextAlertId) == Ok(a)
    ensures RunAlerts(t, reqs, now)
            == RunAlerts(t.(alerts := t.alerts + [AlertRow(a)], nextAlertId := t.nextAlertId + 1),
                         reqs[1..], now)
  {
  }

  /** One step of a run whose first request raises. */
  lemma RunAlertsStepErr(t: Tables, reqs: seq<AlertRequest>, now: int, e: Error)
    requires |reqs| > 0 && Attempt(t, reqs[0], now, t.nextAlertId) == Err(e)
    ensures RunAlerts(t, reqs, now) == (t, Fail(e))
  {
  }

  /** What a run changes: only the alerts table and its id sequence; the alerts
      already there stay, and one id is drawn per alert added. */
  lemma {:induction false} RunAlertsFrame(t: Tables, reqs: seq<AlertRequest>, now: int)
    ensures var r := RunAlerts(t, reqs, now);
      && r.0 == t.(alerts := r.0.alerts, nextAlertId := r.0.nextAlertId)
      && |t.alerts| <= |r.0.alerts| <= |t.alerts| + |reqs|
      && r.0.alerts[..|t.alerts|] == t.alerts
      && r.0.nextAlertId == t.nextAlertId + Added(t, r.0)
    decreases |reqs|
  {
    if |reqs| > 0 {
      var first := Attempt(t, reqs[0], now, t.nextAlertId);
      if first.Ok? {
        var next := t.(alerts := t.alerts + [AlertRow(first.value)], nextAlertId := t.nextAlertId + 1);
        RunAlertsFrame(next, reqs[1..], now);
        var r := RunAlerts(next, reqs[1..], now);
        assert r.0.alerts[..|t.alerts|] == t.alerts by {
          assert r.0.alerts[..|next.alerts|][..|t.alerts|] == next.alerts[..|t.alerts|];
        }
      }
    }
  }

  /** The j-th alert a run adds is the one the j-th request creates. */
  lemma {:induction false} RunAlertsCreated(t: Tables, reqs: seq<AlertRequest>, now: int, j: int)
    requires 0 <= j < Added(t, RunAlerts(t, reqs, now).0)
    ensures j < |reqs|
    ensures Attempt(t, reqs[j], now, t.nextAlertId + j).Ok?
    ensures RunAlerts(t, reqs, now).0.alerts[|t.alerts| + j]
            == AlertRow(Attempt(t, reqs[j], now, t.nextAlertId + j).value)
    decreases |reqs|
  {
    RunAlertsFrame(t, reqs, now);
    var first := Attempt(t, reqs[0], now, t.nextAlertId);
    var next := t.(alerts := t.alerts + [AlertRow(first.value)], nextAlertId := t.nextAlertId + 1);
    var r := RunAlerts(next, reqs[1..], now);
    RunAlertsFrame(next, reqs[1..], now);
    if j == 0 {
      assert r.0.alerts[..|next.alerts|][|t.alerts|] == next.alerts[|t.alerts|];
    } else {
      RunAlertsCreated(next, reqs[1..], now, j - 1);
      assert reqs[1..][j - 1] == reqs[j];
    }
  }

  /** A run passes exactly when every request got its alert; otherwise it raises
      the exception of the first request that did not. */
  lemma {:induction false} RunAlertsOutcome(t: Tables, reqs: seq<AlertRequest>, now: int)
    ensures var r := RunAlerts(t, reqs, now);
      && (r.1.Pass? <==> Added(t, r.0) == |reqs|)
      && (r.1.Fail? ==> 0 <= Added(t, r.0) < |reqs|
                        && Attempt(t, reqs[Added(t, r.0)], now, r.0.nextAlertId) == Err(r.1.error))
    decreases |reqs|
  {
    RunAlertsFrame(t, reqs, now);
    if |reqs| > 0 {
      var first := Attempt(t, reqs[0], now, t.nextAlertId);
      if first.Ok? {
        var next := t.(alerts := t.alerts + [AlertRow(first.value)], nextAlertId := t.nextAlertId + 1);
        RunAlertsOutcome(next, reqs[1..], now);
        RunAlertsFrame(next, reqs[1..], now);
        var r := RunAlerts(next, reqs[1..], now);
        if r.1.Fail? {
          assert reqs[1..][Added(next, r.0)] == reqs[Added(t, r.0)];
        }
      }
    }
  }

  /** `check_geo_fences` as a function of the tables. */
  function FenceSweep(t: Tables, now: int, contains: (Zone, real, real) -> bool, fmt: real -> string)
    : (Tables, Outcome)
  {
    RunAlerts(t, FenceRequests(LatestRows(t.fixes), t.fixes, t.zones, contains, fmt), now)
  }

  /** `check_stale_locations` as a function of the tables. */
  function StaleSweep(t: Tables, now: int): (Tables, Outcome) {
    RunAlerts(t, StaleRequests(StaleAssets(t.assets, t.fixes, now)), now)
  }

  /** Every exit alert the fence sweep commits reads "... at None,None": the check
      it relies on returns coordinates only for assets inside a zone, and alerts
      are raised only for assets outside every zone. */
  lemma ExitAlertsCarryNoCoordinates(t: Tables, now: int, contains: (Zone, real, real) -> bool,
                                     fmt: real -> string)
    ensures var after := FenceSweep(t, now, contains, fmt).0;
            forall j :: |t.alerts| <= j < |after.alerts| ==>
              after.alerts[j].alertType == "exit_zone"
              && after.alerts[j].message
                 == "Asset " + IntToString(after.alerts[j].assetId) + " exited geo-fence at None,None"
  {
    var reqs := FenceRequests(LatestRows(t.fixes), t.fixes, t.zones, contains, fmt);
    RunAlertsFrame(t, reqs, now);
    var after := FenceSweep(t, now, contains, fmt).0;
    assert after == RunAlerts(t, reqs, now).0;
    forall j | |t.alerts| <= j < |after.alerts|
      ensures after.alerts[j].alertType == "exit_zone"
      ensures after.alerts[j].message
              == "Asset " + IntToString(after.alerts[j].assetId) + " exited geo-fence at None,None"
    {
      var k := j - |t.alerts|;
      AddedAlertMatchesRequest(t, reqs, now, j);
      var g, q := after.alerts[j], reqs[k];
      assert j - |t.alerts| == k;
      assert RunAlerts(t, reqs, now).0.alerts[j].message == reqs[k].message;
      assert g.alertType == q.alertType && g.message == q.message && g.assetId == q.assetId;
      FenceRequestMessage(LatestRows(t.fixes), t.fixes, t.zones, contains, fmt, k);
      ExitMessageWithoutCoordinates(q.assetId, fmt);
    }
  }

  /** Every fence request is an `exit_zone` request whose message has no coordinates. */
  lemma FenceRequestMessage(rows: seq<Fix>, fixes: seq<Fix>, zones: seq<Zone>,
                            contains: (Zone, real, real) -> bool, fmt: real -> string, k: int)
    requires 0 <= k < |FenceRequests(rows, fixes, zones, contains, fmt)|
    ensures var q := FenceRequests(rows, fixes, zones, contains, fmt)[k];
            q.alertType == "exit_zone" && q.message == ExitMessage(q.assetId, None, None, fmt)
  {
    FenceRequestsSpec(rows, fixes, zones, contains, fmt);
    assert FenceRequests(rows, fixes, zones, contains, fmt)[k] in FenceRequests(rows, fixes, zones, contains, fmt);
  }

  /** The alert at position `j` among those a run adds carries the matching
      request's asset, type and message, the run's clock and `resolved = False`. */
  lemma AddedAlertMatchesRequest(t: Tables, reqs: seq<AlertRequest>, now: int, j: int)
    requires |t.alerts| <= j < |RunAlerts(t, reqs, now).0.alerts|
    ensures j - |t.alerts| < |reqs|
    ensures var g := RunAlerts(t, reqs, now).0.alerts[j];
            var q := reqs[j - |t.alerts|];
            && g.assetId == q.assetId && g.alertType == q.alertType
            && g.message == q.message && g.triggeredAt == now && !g.resolved
  {
    var k := j - |t.alerts|;
    RunAlertsCreated(t, reqs, now, k);
    assert |t.alerts| + k == j;
    NewGeoAlertSpec(t.fixes, reqs[k].assetId, reqs[k].alertType, reqs[k].message, now,
                    t.nextAlertId + k);
  }

  lemma ExitMessageWithoutCoordinates(assetId: int, fmt: real -> string)
    ensures ExitMessage(assetId, None, None, fmt)
            == "Asset " + IntToString(assetId) + " exited geo-fence at None,None"
  {
  }

  /** With the corrected check, an exit alert's message carries the latest fix. */
  lemma FixedExitMessageCarriesFix(fixes: seq<Fix>, zones: seq<Zone>, assetId: int,
                                   contains: (Zone, real, real) -> bool, fmt: real -> string)
    requires exists f :: f in fixes && f.assetId == assetId
    ensures var report := CheckAssetInZoneFixed(fixes, zones, assetId, contains);
            var latest := LatestFix(fixes, assetId).value;
            ExitMessage(assetId, report.longitude, report.latitude, fmt)
            == "Asset " + IntToString(assetId) + " exited geo-fence at "
               + fmt(latest.longitude) + "," + fmt(latest.latitude)
  {
  }

  /** The fence sweep never raises the 404: each row it visits is a fix of its asset. */
  lemma FenceSweepNeverMissesFix(t: Tables, now: int, contains: (Zone, real, real) -> bool,
                                 fmt: real -> string)
    ensures FenceSweep(t, now, contains, fmt).1 != Fail(NoLocation)
  {
    var reqs := FenceRequests(LatestRows(t.fixes), t.fixes, t.zones, contains, fmt);
    FenceRequestsSpec(LatestRows(t.fixes), t.fixes, t.zones, contains, fmt);
    RunAlertsOutcome(t, reqs, now);
    var r := FenceSweep(t, now, contains, fmt);
    if r.1.Fail? {
      var q := reqs[Added(t, r.0)];
      assert q in reqs;
      var f :| f in LatestRows(t.fixes) && f.assetId == q.assetId;
      assert f in t.fixes;
      NewGeoAlertSpec(t.fixes, q.assetId, q.alertType, q.message, now, r.0.nextAlertId);
    }
  }

  /** The stale sweep stops at a never-fixed stale asset: it raises, and no alert
      is committed for that asset or any after it. When every stale asset before it
      has a latest fix with valid coordinates, exactly those get an alert and the
      exception is the 404. */
  lemma StaleSweepStopsAtNeverFixed(t: Tables, now: int, k: int)
    requires 0 <= k < |StaleAssets(t.assets, t.fixes, now)|
    requires forall f :: f in t.fixes ==> f.assetId != StaleAssets(t.assets, t.fixes, now)[k].id
    ensures StaleSweep(t, now).1.Fail?
    ensures Added(t, StaleSweep(t, now).0) <= k
    ensures (forall j :: 0 <= j < k ==>
               var id := StaleAssets(t.assets, t.fixes, now)[j].id;
               LatestFix(t.fixes, id).Some?
               && IsValidCoordinate(LatestFix(t.fixes, id).value.latitude,
                                    LatestFix(t.fixes, id).value.longitude))
            ==> Added(t, StaleSweep(t, now).0) == k && StaleSweep(t, now).1 == Fail(NoLocation)
  {
    var stale := StaleAssets(t.assets, t.fixes, now);
    var reqs := StaleRequests(stale);
    var r := StaleSweep(t, now);
    RunAlertsFrame(t, reqs, now);
    RunAlertsOutcome(t, reqs, now);
    var n := Added(t, r.0);
    assert reqs[k].assetId == stale[k].id;
    NewGeoAlertSpec(t.fixes, reqs[k].assetId, reqs[k].alertType, reqs[k].message, now,
                    t.nextAlertId + k);
    NewGeoAlertSpec(t.fixes, reqs[k].assetId, reqs[k].alertType, reqs[k].message, now,
                    r.0.nextAlertId);
    if k < n {
      RunAlertsCreated(t, reqs, now, k);
    }
    if forall j :: 0 <= j < k ==>
         var id := stale[j].id;
         LatestFix(t.fixes, id).Some?
         && IsValidCoordinate(LatestFix(t.fixes, id).value.latitude,
                              LatestFix(t.fixes, id).value.longitude)
    {
    }
  }

  /** One iteration of the fence loop, on the first of `rows`: checks its asset
      and, when it is outside every zone, creates the `exit_zone` alert. */
  method VisitFenceRow(db: Database, rows: seq<Fix>, now: int,
                       contains: (Zone, real, real) -> bool, fmt: real -> string)
    returns (r: Outcome)
    requires db.Valid() && |rows| > 0
    modifies db
    ensures db.Valid()
    ensures db.fixes == old(db.fixes) && db.zones == old(db.zones)
    ensures var reqs := FenceRequests(rows, old(db.fixes), old(db.zones), contains, fmt);
            var rest := FenceRequests(rows[1..], old(db.fixes), old(db.zones), contains, fmt);
            && (r.Fail? ==> RunAlerts(old(db.Snapshot()), reqs, now) == (db.Snapshot(), r))
            && (r.Pass? ==> RunAlerts(old(db.Snapshot()), reqs, now) == RunAlerts(db.Snapshot(), rest, now))
  {
    ghost var before := db.Snapshot();
    ghost var reqs := FenceRequests(rows, db.fixes, db.zones, contains, fmt);
    ghost var rest := FenceRequests(rows[1..], db.fixes, db.zones, contains, fmt);
    var report := CheckAssetInZone1(db.fixes, db.zones, rows[0].assetId, contains);
    if report.inZone {
      return Pass;
    }
    var message := ExitMessage(rows[0].assetId, report.longitude, report.latitude, fmt);
    assert reqs == [AlertRequest(rows[0].assetId, "exit_zone", message)] + rest;
    var created := CreateGeoAlert(db, rows[0].assetId, "exit_zone", message, now);
    if created.Err? {
      RunAlertsStepErr(before, reqs, now, created.error);
      return Fail(created.error);
    }
    RunAlertsStepOk(before, reqs, now, created.value);
    assert db.Snapshot() == before.(alerts := before.alerts + [AlertRow(created.value)],
                                    nextAlertId := before.nextAlertId + 1);
    assert reqs[1..] == rest;
    r := Pass;
  }

  /** `check_geo_fences`: visits the rows of the join in order, checks each one's
      asset and creates an `exit_zone` alert for each row outside every zone; the
      first exception stops the loop and is re-raised. */
  method CheckGeoFences(db: Database, now: int, contains: (Zone, real, real) -> bool,
                        fmt: real -> string)
    returns (r: Outcome)
    requires db.Valid()
    modifies db
    ensures db.Valid()
    ensures (db.Snapshot(), r) == FenceSweep(old(db.Snapshot()), now, contains, fmt)
  {
    var rows := LatestRows(db.fixes);
    ghost var fixes, zones := db.fixes, db.zones;
    assert rows[0..] == rows;
    var i := 0;
    while i < |rows|
      invariant 0 <= i <= |rows|
      invariant db.Valid()
      invariant db.fixes == fixes && db.zones == zones
      invariant RunAlerts(db.Snapshot(), FenceRequests(rows[i..], fixes, zones, contains, fmt), now)
                == FenceSweep(old(db.Snapshot()), now, contains, fmt)
    {
      var visited := VisitFenceRow(db, rows[i..], now, contains, fmt);
      if visited.Fail? {
        return visited;
      }
      assert rows[i..][1..] == rows[i + 1..];
      i := i + 1;
    }
    return Pass;
  }

  /** `check_stale_locations`: one `stale_data` alert per stale asset, in order;
      the first exception stops the loop and is re-raised. */
  method CheckStaleLocations(db: Database, now: int) returns (r: Outcome)
    requires db.Valid()
    modifies db
    ensures db.Valid()
    ensures (db.Snapshot(), r) == StaleSweep(old(db.Snapshot()), now)
  {
    var stale := StaleAssets(db.assets, db.fixes, now);
    ghost var reqs := StaleRequests(stale);
    assert reqs[0..] == reqs;
    assert RunAlerts(db.Snapshot(), reqs, now) == StaleSweep(old(db.Snapshot()), now);
    var i := 0;
    while i < |stale|
      invariant 0 <= i <= |stale|
      invariant db.Valid()
      invariant RunAlerts(db.Snapshot(), reqs[i..], now) == StaleSweep(old(db.Snapshot()), now)
    {
      assert reqs[i..][0] == reqs[i] && reqs[i..][1..] == reqs[i + 1..];
      ghost var before := db.Snapshot();
      var created := CreateGeoAlert(db, stale[i].id, "stale_data", StaleMessage(stale[i].id), now);
      if created.Err? {
        RunAlertsStepErr(before, reqs[i..], now, created.error);
        return Fail(created.error);
      }
      RunAlertsStepOk(before, reqs[i..], now, created.value);
      assert db.Snapshot() == before.(alerts := before.alerts + [AlertRow(created.value)],
                                      nextAlertId := before.nextAlertId + 1);
      assert RunAlerts(db.Snapshot(), reqs[i + 1..], now) == StaleSweep(old(db.Snapshot()), now);
      i := i + 1;
    }
    return Pass;
  }
}
