/** The request and response records of the location endpoints
    (app/schemas/locations_schema.py) and the checks pydantic performs when
    one is built: latitude in [-90, 90], longitude in [-180, 180], both
    bounds inclusive and both fields required; `timestamp` and
    `additional_data` optional on a request; `id`, `asset_id` and
    `timestamp` required on a response. */
module LocationsSchema {
  import opened Common
  import opened Store

  /** A validated `LocationCreate`. */
  datatype LocationCreate = LocationCreate(
    latitude: real,
    longitude: real,
    timestamp: Option<int>,
    additionalData: Option<Payload>)

  /** A validated `LocationResponse`. */
  datatype LocationResponse = LocationResponse(
    id: int,
    assetId: int,
    latitude: real,
    longitude: real,
    timestamp: int,
    additionalData: Option<Payload>)

  /** The fields a `LocationCreate` is built from; a field the client left out is None. */
  datatype LocationInput = LocationInput(
    latitude: Option<real>,
    longitude: Option<real>,
    timestamp: Option<int>,
    additionalData: Option<Payload>)

  /** The fields a `LocationResponse` is built from (a database row). */
  datatype LocationRecord = LocationRecord(
    id: Option<int>,
    assetId: Option<int>,
    latitude: Option<real>,
    longitude: Option<real>,
    timestamp: Option<int>,
    additionalData: Option<Payload>)

  /** `Field(..., ge=-90, le=90)` */
  predicate LatitudeInRange(lat: real) {
    -90.0 <= lat <= 90.0
  }

  /** `Field(..., ge=-180, le=180)` */
  predicate LongitudeInRange(lon: real) {
    -180.0 <= lon <= 180.0
  }

  /** The coordinate fields of a `LocationBase`: a failure is one ValidationError,
      which here names one failing field (latitude before longitude); Pydantic's
      list of every failing field is not modelled. */
  function CheckCoordinates(latitude: Option<real>, longitude: Option<real>): (r: Outcome)
    ensures r.Pass? <==> latitude.Some? && longitude.Some?
                         && LatitudeInRange(latitude.value) && LongitudeInRange(longitude.value)
    ensures r.Fail? ==> r.error.ValidationError?
    ensures r.Fail? && latitude.Some? && LatitudeInRange(latitude.value)
            ==> r.error == ValidationError("longitude")
  {
    if latitude.None? || !LatitudeInRange(latitude.value) then Fail(ValidationError("latitude"))
    else if longitude.None? || !LongitudeInRange(longitude.value) then Fail(ValidationError("longitude"))
    else Pass
  }

  /** Building a `LocationCreate`: the optional fields default to None. */
  function ValidateLocationCreate(input: LocationInput): (r: Result<LocationCreate>)
    ensures r.Ok? <==> CheckCoordinates(input.latitude, input.longitude).Pass?
    ensures r.Ok? ==> r.value.latitude == input.latitude.value
                      && r.value.longitude == input.longitude.value
                      && r.value.timestamp == input.timestamp
                      && r.value.additionalData == input.additionalData
  {
    match CheckCoordinates(input.latitude, input.longitude)
    case Fail(e) => Err(e)
    case Pass =>
      Ok(LocationCreate(input.latitude.value, input.longitude.value,
                        input.timestamp, input.additionalData))
  }

  /** Building a `LocationResponse`: besides the coordinate rules, `id`,
      `asset_id` and `timestamp` must be present. */
  function ValidateLocationResponse(rec: LocationRecord): (r: Result<LocationResponse>)
    ensures r.Ok? <==> CheckCoordinates(rec.latitude, rec.longitude).Pass?
                       && rec.id.Some? && rec.assetId.Some? && rec.timestamp.Some?
    ensures r.Ok? ==> r.value.id == rec.id.value && r.value.assetId == rec.assetId.value
                      && r.value.latitude == rec.latitude.value
                      && r.value.longitude == rec.longitude.value
                      && r.value.timestamp == rec.timestamp.value
                      && r.value.additionalData == rec.additionalData
    ensures r.Err? ==> r.error.ValidationError?
  {
    match CheckCoordinates(rec.latitude, rec.longitude)
    case Fail(e) => Err(e)
    case Pass =>
      if rec.timestamp.None? then Err(ValidationError("timestamp"))
      else if rec.id.None? then Err(ValidationError("id"))
      else if rec.assetId.None? then Err(ValidationError("asset_id"))
      else Ok(LocationResponse(rec.id.value, rec.assetId.value, rec.latitude.value,
                               rec.longitude.value, rec.timestamp.value, rec.additionalData))
  }

  /** The record `SELECT id, asset_id, ST_X(location), ST_Y(location), timestamp,
      additional_data` yields for a stored fix. */
  function RecordOf(f: Fix): LocationRecord {
    LocationRecord(Some(f.id), Some(f.assetId), Some(f.latitude), Some(f.longitude),
                   Some(f.timestamp), Some(f.additionalData))
  }

  /** A stored fix makes a valid response exactly when its coordinates are in range. */
  lemma RecordOfValid(f: Fix)
    ensures ValidateLocationResponse(RecordOf(f)).Ok?
            <==> LatitudeInRange(f.latitude) && LongitudeInRange(f.longitude)
    ensures ValidateLocationResponse(RecordOf(f)).Ok? ==>
            ValidateLocationResponse(RecordOf(f)).value
            == LocationResponse(f.id, f.assetId, f.latitude, f.longitude, f.timestamp,
                                Some(f.additionalData))
  {
  }
}
