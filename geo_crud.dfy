/** Geofence and alert operations of app/crud/geo_crud.py: building a
    zone's WKT and reading its coordinates back from the text the database
    returns, the on-demand containment check, the coordinate range rule,
    and the creation of one alert from an asset's latest fix. */
module GeoCrud {
  import opened Common
  import opened Store
  import opened PyStr
  import LocationsSchema

  datatype GeoZoneCreate = GeoZoneCreate(name: string, coordinates: seq<seq<real>>, assetId: int)

  datatype GeoZoneResponse = GeoZoneResponse(
    id: int,
    assetId: int,
    name: string,
    coordinates: seq<seq<real>>,
    createdAt: int)

  datatype GeoAlertResponse = GeoAlertResponse(
    id: int,
    assetId: int,
    alertType: string,
    message: string,
    latitude: real,
    longitude: real,
    triggeredAt: int,
    resolved: bool)

  /** The result of `check_asset_in_zone`: `(bool(count), longitude, latitude)`. */
  datatype ZoneReport = ZoneReport(inZone: bool, longitude: real, latitude: real)

  const NoLocation := HttpError(404, "No recent location found for asset")
  const InvalidCoordinates := HttpError(400, "Invalid latitude or longitude values.")

  /** The characters of the argument of `result.strip("POLYGON(()))")`. */
  const PolygonStripChars: set<char> := {'P', 'O', 'L', 'Y', 'G', 'N', '(', ')'}

  /** `f"{lon} {lat}"`; `fmt` is Python's rendering of a float. */
  function PairText(lon: real, lat: real, fmt: real -> string): string {
    fmt(lon) + " " + fmt(lat)
  }

  /** `[f"{lon} {lat}" for lon, lat in coordinates]`: unpacking an inner list
      that does not hold exactly two numbers raises ValueError. */
  function PairTexts(coordinates: seq<seq<real>>, fmt: real -> string): (r: Result<seq<string>>)
    ensures r.Ok? <==> forall i :: 0 <= i < |coordinates| ==> |coordinates[i]| == 2
    ensures r.Ok? ==> |r.value| == |coordinates|
    ensures r.Ok? ==> forall i :: 0 <= i < |coordinates| ==>
              r.value[i] == PairText(coordinates[i][0], coordinates[i][1], fmt)
    ensures r.Err? ==> r.error.ValueError?
  {
    if |coordinates| == 0 then Ok([])
    else if |coordinates[0]| != 2 then Err(ValueError("wrong number of values to unpack"))
    else
      match PairTexts(coordinates[1..], fmt)
      case Err(e) => Err(e)
      case Ok(rest) =>
        Ok([PairText(coordinates[0][0], coordinates[0][1], fmt)] + rest)
  }

  /** The polygon text without its SRID, `"POLYGON((" + coords + "))"`. */
  function RingWkt(pairs: seq<string>): string {
    "POLYGON((" + Join(pairs, ",") + "))"
  }

  /** `f"SRID=4326;POLYGON(({coords}))"` with the pairs joined by commas. */
  function PolygonWkt(coordinates: seq<seq<real>>, fmt: real -> string): (r: Result<string>)
    ensures r.Ok? <==> PairTexts(coordinates, fmt).Ok?
    ensures r.Ok? ==> r.value == "SRID=4326;" + RingWkt(PairTexts(coordinates, fmt).value)
  {
    match PairTexts(coordinates, fmt)
    case Err(e) => Err(e)
    case Ok(pairs) => Ok("SRID=4326;" + RingWkt(pairs))
  }

  /** `[float(x) for x in words]`; `toFloat` is Python's `float`, None where it raises. */
  function ParseFloats(words: seq<string>, toFloat: string -> Option<real>): (r: Result<seq<real>>)
    ensures r.Ok? <==> forall i :: 0 <= i < |words| ==> toFloat(words[i]).Some?
    ensures r.Ok? ==> |r.value| == |words|
                      && forall i :: 0 <= i < |words| ==> r.value[i] == toFloat(words[i]).value
  {
    if |words| == 0 then Ok([])
    else
      match toFloat(words[0])
      case None => Err(ValueError("could not convert string to float"))
      case Some(x) =>
        match ParseFloats(words[1..], toFloat)
        case Err(e) => Err(e)
        case Ok(rest) => Ok([x] + rest)
  }

  /** `[[float(x) for x in coord.strip().split()] for coord in pieces]` */
  function ParsePieces(pieces: seq<string>, toFloat: string -> Option<real>)
    : (r: Result<seq<seq<real>>>)
    ensures r.Ok? <==> forall i :: 0 <= i < |pieces| ==>
              ParseFloats(Words(Strip(pieces[i], Whitespace)), toFloat).Ok?
    ensures r.Ok? ==> |r.value| == |pieces|
    ensures r.Ok? ==> forall i :: 0 <= i < |pieces| ==>
              r.value[i] == ParseFloats(Words(Strip(pieces[i], Whitespace)), toFloat).value
  {
    if |pieces| == 0 then Ok([])
    else
      match ParseFloats(Words(Strip(pieces[0], Whitespace)), toFloat)
      case Err(e) => Err(e)
      case Ok(c) =>
        match ParsePieces(pieces[1..], toFloat)
        case Err(e) => Err(e)
        case Ok(rest) => Ok([c] + rest)
  }

  /** The coordinates `create_geo_zone` reads back from `ST_AsText(zone)`:
      strip the character set of "POLYGON(()))" from both ends, split on commas,
      then split each piece on whitespace and convert every word to a float. */
  function ParseZoneText(text: string, toFloat: string -> Option<real>): (r: Result<seq<seq<real>>>)
    ensures r.Ok? ==> |r.value| >= 1
    ensures r.Ok? ==> |r.value| == CountWhere(Strip(text, PolygonStripChars), IsComma) + 1
  {
    ParsePieces(Split(Strip(text, PolygonStripChars), IsComma), toFloat)
  }

  /** A float rendering that the parse can take apart: not empty, and no
      whitespace, comma or character of the strip set in it. */
  predicate IsNumberText(t: string) {
    t != [] && forall c :: c in t ==> !IsSpace(c) && !IsComma(c) && c !in PolygonStripChars
  }

  /** A float whose rendering the parse can take apart and `float` reads back. */
  predicate ReadsBack(x: real, fmt: real -> string, toFloat: string -> Option<real>) {
    IsNumberText(fmt(x)) && toFloat(fmt(x)) == Some(x)
  }

  /** Every inner list is a pair of floats that read back. */
  predicate PairsReadBack(coordinates: seq<seq<real>>, fmt: real -> string,
                          toFloat: string -> Option<real>) {
    forall i :: 0 <= i < |coordinates| ==>
      |coordinates[i]| == 2 && ReadsBack(coordinates[i][0], fmt, toFloat)
      && ReadsBack(coordinates[i][1], fmt, toFloat)
  }

  lemma {:induction false} JoinFirst(parts: seq<string>, sep: string)
    requires |parts| >= 1 && parts[0] != []
    ensures |Join(parts, sep)| > 0 && Join(parts, sep)[0] == parts[0][0]
  {
  }

  lemma {:induction false} JoinLast(parts: seq<string>, sep: string)
    requires |parts| >= 1 && parts[|parts| - 1] != []
    ensures var j := Join(parts, sep);
            |j| > 0 && j[|j| - 1] == parts[|parts| - 1][|parts[|parts| - 1]| - 1]
    decreases |parts|
  {
    if |parts| > 1 {
      assert parts[1..][|parts[1..]| - 1] == parts[|parts| - 1];
      JoinLast(parts[1..], sep);
    }
  }

  /** One pair's text reads back as the pair. */
  lemma PairRoundTrip(lon: real, lat: real, fmt: real -> string, toFloat: string -> Option<real>)
    requires IsNumberText(fmt(lon)) && IsNumberText(fmt(lat))
    requires toFloat(fmt(lon)) == Some(lon) && toFloat(fmt(lat)) == Some(lat)
    ensures ParseFloats(Words(Strip(PairText(lon, lat, fmt), Whitespace)), toFloat) == Ok([lon, lat])
  {
    var a, b := fmt(lon), fmt(lat);
    var p := PairText(lon, lat, fmt);
    assert NoSeparator(a, IsSpace) && NoSeparator(b, IsSpace);
    assert a[0] in a && b[|b| - 1] in b;
    assert p[0] == a[0] && p[|p| - 1] == b[|b| - 1];
    StripUnchanged(p, Whitespace);
    WordsOfPair(a, b);
    assert [b][1..] == [] && [b][0] == b && toFloat(b) == Some(lat);
    assert ParseFloats([], toFloat) == Ok([]);
    assert ParseFloats([b], toFloat) == Ok([lat] + []);
    assert [lat] + [] == [lat];
    assert [a, b][1..] == [b];
    assert ParseFloats([a, b], toFloat) == Ok([lon] + [lat]);
    assert [lon] + [lat] == [lon, lat];
    assert Words(Strip(p, Whitespace)) == [a, b];
  }

  /** The i-th rendered pair reads back as the i-th coordinate pair. */
  lemma PieceReadsBack(coordinates: seq<seq<real>>, i: nat, fmt: real -> string,
                       toFloat: string -> Option<real>)
    requires PairsReadBack(coordinates, fmt, toFloat) && i < |coordinates|
    ensures PairTexts(coordinates, fmt).Ok?
    ensures ParseFloats(Words(Strip(PairTexts(coordinates, fmt).value[i], Whitespace)), toFloat)
            == Ok(coordinates[i])
  {
    var c := coordinates[i];
    assert ReadsBack(c[0], fmt, toFloat) && ReadsBack(c[1], fmt, toFloat);
    PairRoundTrip(c[0], c[1], fmt, toFloat);
    assert c == [c[0], c[1]];
  }

  lemma PiecesRoundTrip(coordinates: seq<seq<real>>, fmt: real -> string,
                        toFloat: string -> Option<real>)
    requires PairsReadBack(coordinates, fmt, toFloat)
    ensures PairTexts(coordinates, fmt).Ok?
    ensures ParsePieces(PairTexts(coordinates, fmt).value, toFloat) == Ok(coordinates)
  {
    var pairs := PairTexts(coordinates, fmt).value;
    forall i | 0 <= i < |pairs|
      ensures ParseFloats(Words(Strip(pairs[i], Whitespace)), toFloat) == Ok(coordinates[i])
    {
      PieceReadsBack(coordinates, i, fmt, toFloat);
    }
    var r := ParsePieces(pairs, toFloat);
    assert r.Ok?;
    assert |r.value| == |coordinates|;
    assert forall i :: 0 <= i < |coordinates| ==> r.value[i] == coordinates[i];
    assert r.value == coordinates;
    assert r == Ok(coordinates);
  }


  /** A pair's text begins and ends outside the strip set and holds no comma. */
  lemma PairTextShape(lon: real, lat: real, fmt: real -> string)
    requires IsNumberText(fmt(lon)) && IsNumberText(fmt(lat))
    ensures var p := PairText(lon, lat, fmt);
            p != [] && p[0] !in PolygonStripChars && p[|p| - 1] !in PolygonStripChars
            && NoSeparator(p, IsComma)
  {
    var a, b := fmt(lon), fmt(lat);
    var p := PairText(lon, lat, fmt);
    assert a[0] in a && b[|b| - 1] in b;
    assert p[0] == a[0] && p[|p| - 1] == b[|b| - 1];
    forall c | c in p ensures !IsComma(c) {
      assert c in a || c == ' ' || c in b;
    }
  }

  /** Building a zone's WKT and parsing the text back returns the coordinates,
      whenever each coordinate renders as a number text that `float` reads back and
      the zone has at least one pair (an empty list reads back as `[[]]`, see
      EmptyZoneReadsBackOneEmptyPair). */
  lemma ZoneTextRoundTrip(coordinates: seq<seq<real>>, fmt: real -> string,
                          toFloat: string -> Option<real>)
    requires |coordinates| >= 1
    requires PairsReadBack(coordinates, fmt, toFloat)
    ensures PolygonWkt(coordinates, fmt).Ok?
    ensures ParseZoneText(RingWkt(PairTexts(coordinates, fmt).value), toFloat) == Ok(coordinates)
  {
    PiecesRoundTrip(coordinates, fmt, toFloat);
    var pairs := PairTexts(coordinates, fmt).value;
    RingStripsToBody(coordinates, fmt, toFloat);
    forall i | 0 <= i < |pairs| ensures NoSeparator(pairs[i], IsComma) {
      PairTextShape(coordinates[i][0], coordinates[i][1], fmt);
    }
    SplitJoin(pairs, ',', IsComma);
    assert Split(Strip(RingWkt(pairs), PolygonStripChars), IsComma) == pairs;
  }

  /** Stripping the ring text of a non-empty list of pairs leaves exactly the
      comma-joined pairs. */
  lemma RingStripsToBody(coordinates: seq<seq<real>>, fmt: real -> string,
                          toFloat: string -> Option<real>)
    requires |coordinates| >= 1
    requires PairsReadBack(coordinates, fmt, toFloat)
    ensures PairTexts(coordinates, fmt).Ok?
    ensures Strip(RingWkt(PairTexts(coordinates, fmt).value), PolygonStripChars)
            == Join(PairTexts(coordinates, fmt).value, ",")
  {
    var pairs := PairTexts(coordinates, fmt).value;
    var n := |coordinates| - 1;
    PairTextShape(coordinates[0][0], coordinates[0][1], fmt);
    PairTextShape(coordinates[n][0], coordinates[n][1], fmt);
    JoinFirst(pairs, ",");
    JoinLast(pairs, ",");
    StripFrame("POLYGON((", Join(pairs, ","), "))", PolygonStripChars);
  }

  /** What `create_geo_zone` stores reads back: the WKT it builds is the SRID
      prefix, which `ST_AsText` drops, followed by a ring text that parses back to
      exactly the coordinates given. */
  lemma PolygonWktRoundTrip(coordinates: seq<seq<real>>, fmt: real -> string,
                            toFloat: string -> Option<real>)
    requires |coordinates| >= 1
    requires PairsReadBack(coordinates, fmt, toFloat)
    ensures PolygonWkt(coordinates, fmt).Ok?
    ensures var w := PolygonWkt(coordinates, fmt).value;
            |w| >= 10 && w[..10] == "SRID=4326;" && ParseZoneText(w[10..], toFloat) == Ok(coordinates)
  {
    ZoneTextRoundTrip(coordinates, fmt, toFloat);
    var ring := RingWkt(PairTexts(coordinates, fmt).value);
    var w := PolygonWkt(coordinates, fmt).value;
    assert w == "SRID=4326;" + ring;
    assert w[10..] == ring;
  }

  /** The strip set is a set of characters: an empty coordinate list builds
      "POLYGON(())", which strips to nothing and reads back as one empty pair. */
  lemma EmptyZoneReadsBackOneEmptyPair(pairs: seq<string>, toFloat: string -> Option<real>)
    requires pairs == []
    ensures ParseZoneText(RingWkt(pairs), toFloat) == Ok([[]])
  {
    var text := RingWkt(pairs);
    assert text == "POLYGON((" + "" + "))";
    StripFrame("POLYGON((", "", "))", PolygonStripChars);
    var pieces := Split(Strip(text, PolygonStripChars), IsComma);
    assert pieces == [""];
    StripUnchanged("", Whitespace);
    assert [""][1..] == [];
    assert NonEmpty([""]) == [];
    assert ParseFloats(Words(Strip("", Whitespace)), toFloat) == Ok([]);
    assert ParsePieces(pieces, toFloat) == Ok([[]] + []);
    assert ParseZoneText(text, toFloat) == ParsePieces(pieces, toFloat);
    var none: seq<real> := [];
    assert [none] + [] == [none];
  }

  /** `is_valid_coordinate(lat, lon)`: both ranges inclusive, the same ranges the
      location schema enforces on every fix a client sends. */
  function IsValidCoordinate(lat: real, lon: real): (r: bool)
    ensures r <==> LocationsSchema.CheckCoordinates(Some(lat), Some(lon)).Pass?
  {
    -90.0 <= lat <= 90.0 && -180.0 <= lon <= 180.0
  }

  /** The zones of the asset that contain the point; `contains` is `ST_Contains`. */
  function ContainingZones(zones: seq<Zone>, assetId: int, lon: real, lat: real,
                           contains: (Zone, real, real) -> bool): (r: seq<Zone>)
    ensures forall z :: z in r <==> z in zones && z.assetId == assetId && contains(z, lon, lat)
  {
    if |zones| == 0 then []
    else
      var rest := ContainingZones(zones[1..], assetId, lon, lat, contains);
      assert zones == [zones[0]] + zones[1..];
      if zones[0].assetId == assetId && contains(zones[0], lon, lat) then [zones[0]] + rest else rest
  }

  /** `check_asset_in_zone`: 404 without a fix; otherwise whether the number of
      the asset's zones containing its latest fix is positive, with that fix's
      longitude and latitude. */
  function CheckAssetInZone(fixes: seq<Fix>, zones: seq<Zone>, assetId: int,
                            contains: (Zone, real, real) -> bool): (r: Result<ZoneReport>)
    ensures r.Err? <==> forall f :: f in fixes ==> f.assetId != assetId
    ensures r.Err? ==> r.error == NoLocation
    ensures r.Ok? ==>
      exists f :: f in fixes && f.assetId == assetId
        && (forall g :: g in fixes && g.assetId == assetId ==> g.timestamp <= f.timestamp)
        && r.value.longitude == f.longitude && r.value.latitude == f.latitude
        && (r.value.inZone <==>
              exists z :: z in zones && z.assetId == assetId && contains(z, f.longitude, f.latitude))
  {
    match LatestFix(fixes, assetId)
    case None => Err(NoLocation)
    case Some(f) =>
      var count := |ContainingZones(zones, assetId, f.longitude, f.latitude, contains)|;
      assert count > 0 ==> ContainingZones(zones, assetId, f.longitude, f.latitude, contains)[0] in
                           ContainingZones(zones, assetId, f.longitude, f.latitude, contains);
      Ok(ZoneReport(count > 0, f.longitude, f.latitude))
  }

  /** The alert `create_geo_alert` would create with id `id`, or the exception it
      raises; NewGeoAlertSpec states exactly when each case occurs. */
  function NewGeoAlert(fixes: seq<Fix>, assetId: int, alertType: string, message: string,
                       now: int, id: int): (r: Result<GeoAlertResponse>)
    ensures r.Err? ==> r.error == NoLocation || r.error == InvalidCoordinates
    ensures r.Ok? ==> && r.value.id == id && r.value.assetId == assetId
                      && r.value.alertType == alertType && r.value.message == message
                      && r.value.triggeredAt == now && !r.value.resolved
                      && IsValidCoordinate(r.value.latitude, r.value.longitude)
  {
    match LatestFix(fixes, assetId)
    case None => Err(NoLocation)
    case Some(f) =>
      if !IsValidCoordinate(f.latitude, f.longitude) then Err(InvalidCoordinates)
      else Ok(GeoAlertResponse(id, assetId, alertType, message, f.latitude, f.longitude, now, false))
  }

  /** `create_geo_alert` raises the 404 exactly when the asset has no fix, the 400
      exactly when its latest fix is out of range, and nothing else; otherwise the
      alert carries the arguments, `now`, `resolved = False` and the coordinates of
      a fix of the asset with the greatest timestamp. */
  lemma NewGeoAlertSpec(fixes: seq<Fix>, assetId: int, alertType: string, message: string,
                        now: int, id: int)
    ensures var r := NewGeoAlert(fixes, assetId, alertType, message, now, id);
      && (r == Err(NoLocation) <==> forall f :: f in fixes ==> f.assetId != assetId)
      && (r == Err(InvalidCoordinates) <==>
            LatestFix(fixes, assetId).Some?
            && !IsValidCoordinate(LatestFix(fixes, assetId).value.latitude,
                                  LatestFix(fixes, assetId).value.longitude))
      && (r.Err? ==> r.error == NoLocation || r.error == InvalidCoordinates)
      && (r.Ok? ==>
            && r.value.id == id && r.value.assetId == assetId
            && r.value.alertType == alertType && r.value.message == message
            && r.value.triggeredAt == now && !r.value.resolved
            && IsValidCoordinate(r.value.latitude, r.value.longitude)
            && exists f :: f in fixes && f.assetId == assetId
                 && (forall g :: g in fixes && g.assetId == assetId ==> g.timestamp <= f.timestamp)
                 && r.value.latitude == f.latitude && r.value.longitude == f.longitude)
  {
  }

  /** The geo_alerts row behind a response. */
  function AlertRow(a: GeoAlertResponse): Alert {
    Alert(a.id, a.assetId, a.alertType, a.message, a.triggeredAt, a.resolved)
  }

  /** `create_geo_alert`: on success exactly one alert is committed and nothing
      else changes; on either exception nothing changes. */
  method CreateGeoAlert(db: Database, assetId: int, alertType: string, message: string, now: int)
    returns (r: Result<GeoAlertResponse>)
    requires db.Valid()
    modifies db
    ensures db.Valid()
    ensures r == NewGeoAlert(old(db.fixes), assetId, alertType, message, now, old(db.nextAlertId))
    ensures r.Ok? ==> db.Snapshot() == old(db.Snapshot()).(alerts := old(db.alerts) + [AlertRow(r.value)],
                                                          nextAlertId := old(db.nextAlertId) + 1)
    ensures r.Err? ==> db.Snapshot() == old(db.Snapshot())
  {
    var latest := LatestFix(db.fixes, assetId);
    if latest.None? {
      return Err(NoLocation);
    }
    var f := latest.value;
    if !IsValidCoordinate(f.latitude, f.longitude) {
      return Err(InvalidCoordinates);
    }
    var alert := GeoAlertResponse(db.nextAlertId, assetId, alertType, message,
                                  f.latitude, f.longitude, now, false);
    AddAlertKeeps(db.Snapshot(), AlertRow(alert));
    db.alerts := db.alerts + [AlertRow(alert)];
    db.nextAlertId := db.nextAlertId + 1;
    r := Ok(alert);
  }

  /** The response `create_geo_zone` builds for a stored zone row, reading the
      coordinates back from `stAsText`, the text `ST_AsText` returns for it. */
  function ZoneResponse(row: Zone, stAsText: string -> string, toFloat: string -> Option<real>)
    : Result<GeoZoneResponse>
  {
    match ParseZoneText(stAsText(row.zone), toFloat)
    case Err(e) => Err(e)
    case Ok(c) => Ok(GeoZoneResponse(row.id, row.assetId, row.name, c, row.createdAt))
  }

  /** When the database echoes the stored polygon without its SRID, the response
      of `create_geo_zone` carries exactly the coordinates the zone was created with. */
  lemma ZoneResponseEchoesCoordinates(zone: GeoZoneCreate, row: Zone, fmt: real -> string,
                                      stAsText: string -> string, toFloat: string -> Option<real>)
    requires |zone.coordinates| >= 1
    requires PairsReadBack(zone.coordinates, fmt, toFloat)
    requires PolygonWkt(zone.coordinates, fmt).Ok? && row.zone == PolygonWkt(zone.coordinates, fmt).value
    requires stAsText(row.zone) == RingWkt(PairTexts(zone.coordinates, fmt).value)
    ensures ZoneResponse(row, stAsText, toFloat)
            == Ok(GeoZoneResponse(row.id, row.assetId, row.name, zone.coordinates, row.createdAt))
  {
    ZoneTextRoundTrip(zone.coordinates, fmt, toFloat);
  }

  /** The insert and commit of `create_geo_zone`: the id is drawn even when the
      foreign key rejects the row. */
  method InsertGeoZone(db: Database, assetId: int, name: string, wkt: string, now: int)
    returns (r: Result<Zone>)
    requires db.Valid()
    modifies db
    ensures db.Valid()
    ensures r.Ok? <==> HasAsset(old(db.assets), assetId)
    ensures r.Ok? ==>
      && r.value == Zone(old(db.nextZoneId), assetId, name, wkt, now)
      && db.Snapshot() == old(db.Snapshot()).(zones := old(db.zones) + [r.value],
                                                nextZoneId := old(db.nextZoneId) + 1)
    ensures r.Err? ==>
      && r.error == IntegrityError("geo_zones_asset_id_fkey")
      && db.Snapshot() == old(db.Snapshot()).(nextZoneId := old(db.nextZoneId) + 1)
  {
    var row := Zone(db.nextZoneId, assetId, name, wkt, now);
    DrawZoneIdKeeps(db.Snapshot());
    db.nextZoneId := db.nextZoneId + 1;
    if !HasAsset(db.assets, assetId) {
      return Err(IntegrityError("geo_zones_asset_id_fkey"));
    }
    AddZoneKeeps(db.Snapshot(), row);
    db.zones := db.zones + [row];
    r := Ok(row);
  }

  /** `create_geo_zone`: builds the WKT (ValueError for an inner list that is not a
      pair, before anything is stored), inserts the zone, then reads the coordinates
      back. The zone stays committed when the read-back raises. */
  method CreateGeoZone(db: Database, zone: GeoZoneCreate, now: int, fmt: real -> string,
                       stAsText: string -> string, toFloat: string -> Option<real>)
    returns (r: Result<GeoZoneResponse>)
    requires db.Valid()
    modifies db
    ensures db.Valid()
    ensures PolygonWkt(zone.coordinates, fmt).Err? ==>
      r == Err(PolygonWkt(zone.coordinates, fmt).error) && db.Snapshot() == old(db.Snapshot())
    ensures PolygonWkt(zone.coordinates, fmt).Ok? && !HasAsset(old(db.assets), zone.assetId) ==>
      r == Err(IntegrityError("geo_zones_asset_id_fkey"))
      && db.Snapshot() == old(db.Snapshot()).(nextZoneId := old(db.nextZoneId) + 1)
    ensures PolygonWkt(zone.coordinates, fmt).Ok? && HasAsset(old(db.assets), zone.assetId) ==>
      var row := Zone(old(db.nextZoneId), zone.assetId, zone.name,
                      PolygonWkt(zone.coordinates, fmt).value, now);
      && db.Snapshot() == old(db.Snapshot()).(zones := old(db.zones) + [row],
                                                nextZoneId := old(db.nextZoneId) + 1)
      && r == ZoneResponse(row, stAsText, toFloat)
  {
    var wkt := PolygonWkt(zone.coordinates, fmt);
    if wkt.Err? {
      return Err(wkt.error);
    }
    var row := InsertGeoZone(db, zone.assetId, zone.name, wkt.value, now);
    if row.Err? {
      return Err(row.error);
    }
    r := ZoneResponse(row.value, stAsText, toFloat);
  }
}
