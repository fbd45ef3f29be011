# Asset tracking service: a verified model of its core

The service tracks assets (vehicles, devices) that report GPS fixes. It
stores the fixes, answers "latest fix" and "history" queries, keeps polygonal
geo-fences for each asset, and raises alerts. A periodic job raises an
`exit_zone` alert for every asset whose latest fix lies outside all its
fences, and a `stale_data` alert for every asset that has not reported for ten
minutes. Around this sit:

- asset CRUD with a patch-style update;
- user registration gated by an admin secret, and login;
- CSV exports behind a guarded download endpoint;
- a registry of live-tracking websocket connections.

The model keeps the database as one value, `Store.Tables`. It has the five
tables as sequences in insertion order, the next value of each serial id
sequence, and the integrity constraints of the table definitions
(`Store.Consistent`). `Store.Database` is the session object: every operation
that writes reassigns its sequence fields. Each such method states its whole new
state as a change to `Snapshot()` and keeps `Consistent`. Operations that only
read are pure functions over the tables.

One Dafny module corresponds to each core source file:

| module | file | modelled |
|---|---|---|
| App | main.py | `WebSocketManager`, `run_geo_checks` |
| BgTasks | app/tasks/bg_tasks.py | staleness rule, fence check, both alert sweeps |
| GeoCrud | app/crud/geo_crud.py | WKT building and parsing, zone check, alert creation |
| LocationsCrud | app/crud/locations_crud.py | fix ingestion, latest fix, history |
| LocationsSchema | app/schemas/locations_schema.py | range and optionality rules |
| AssetsCrud | app/crud/assets_crud.py | lookup, paging, create, update, delete |
| AssetsRouter | app/router/assets_router.py | duplicate `unique_id` rule, 404 mapping |
| UserCrud | app/crud/user_crud.py | admin gate, registration, authentication |
| ExportRouter | app/router/export_router.py | download checks, links, clean-up scheduling |

`Common` holds the shared pieces: `Option`, `Result`, the exceptions, and
Python's `str(int)`. `PyStr` holds Python's `strip(chars)`, `split` and `join`.
`Store` holds the tables.

Exceptions are values. A call that raises returns `Err(e)` or `Fail(e)`, and
the new state it leaves is stated next to it. Some things the system does
outside its own code are parameters:

- the clock (`now`, in whole seconds);
- PostGIS containment (`contains`);
- Python's float rendering (`fmt`) and parsing (`toFloat`);
- `ST_AsText`;
- password hashing and verification;
- the configured admin secret;
- path resolution, file existence and the `os.walk` listing;
- the text `str(e)` of an exception.

Three behaviours of the alert sweeps are worth stating on their own:

- **Alert sweeps stop at the first exception.** `create_geo_alert`
  raises, and the sweep's `try` covers the whole loop. The sweep therefore stops
  at the first asset that fails and re-raises. Every alert created before that
  point has been committed by `create_geo_alert` itself, so the rollback does
  not undo it. `BgTasks.RunAlerts` models exactly this.
- **A stale asset with no fix stops the stale sweep.** It is stale, but
  `create_geo_alert` raises 404 for it. `BgTasks.StaleSweepStopsAtNeverFixed`
  proves this.
- **The fence sweep can alert one asset several times per run.** It visits one
  row per latest fix. Fixes that tie on the latest timestamp are all visited
  (`BgTasks.TiedFixesAreBothRows`).

## Model

| member | source | states |
|---|---|---|
| App.ConnectSpec | main.py:60-62 | the handle is appended at the end of the asset's list, a missing key gets a new list, duplicates are kept, and every other asset's entry is unchanged |
| App.RemoveFirst | main.py:66 | `list.remove` fails exactly when the handle is absent; otherwise exactly the first occurrence is removed, and the rest of the list keeps its order |
| App.RemoveFirstTakesOneCopy | main.py:66 | removing takes exactly one copy of the handle out of the multiset of connections |
| App.DisconnectSpec | main.py:64-68 | an absent asset is a no-op; a present asset whose list lacks the handle raises ValueError; otherwise the first occurrence goes, the key is deleted once its list is empty, and no other entry changes |
| App.RegistryChangesKeepListsNonEmpty | main.py:58-68 | connecting and disconnecting both preserve the invariant that no asset maps to an empty list |
| App.DisconnectUndoesConnect | main.py:58-68 | disconnecting a handle just connected, which the asset did not hold before, restores the registry exactly |
| App.Sends | main.py:72-73 | a broadcast's sends are one per connection, in list order, each carrying the message |
| App.WebSocketManager.constructor | main.py:55-56 | the evidently intended initialiser: an empty registry and no calls made yet |
| App.WebSocketManager.AsWritten | main.py:54-56 | the class as written: `_init_` never runs, so the instance has no registry |
| App.WebSocketManager.Connect | main.py:58-62 | the accept is logged first; then the registry becomes `ConnectSpec` of the old one, or AttributeError is raised when the registry was never created |
| App.WebSocketManager.Disconnect | main.py:64-68 | the registry becomes `DisconnectSpec` of the old one, or the ValueError is raised and the registry is unchanged; nothing is sent |
| App.WebSocketManager.Broadcast | main.py:70-73 | the message is sent once to each of the asset's connections in list order, an absent asset gets no sends, and the registry never changes |
| App.ConnectOnFreshManagerAsWritten | main.py:54-62 | with the source's `_init_`, the first `connect` on the module-level manager raises AttributeError |
| App.ConnectOnFreshManager | main.py:54-62 | with `__init__`, the same call succeeds and the asset then has exactly that connection |
| App.RunGeoChecks | main.py:44-52 | the fence sweep runs first; if it raises, the stale sweep does not run and the exception is caught; otherwise the stale sweep runs on the fence sweep's result and any exception it raises is caught too |
| BgTasks.StaleAssets | app/tasks/bg_tasks.py:13-24 | the assets with no fix at or after `now - 600`, each kept with its full multiplicity in the table and every fresh asset dropped; a fix exactly at the threshold is fresh, and an asset with no fix is stale |
| BgTasks.StaleAssetsAppend | app/tasks/bg_tasks.py:13-24 | the stale assets of two tables placed end to end are those of the first followed by those of the second |
| BgTasks.StaleAssetsInOrder | app/tasks/bg_tasks.py:13-24 | each asset contributes itself, once and at its own place, exactly when it is stale, so the result keeps the table order |
| BgTasks.StaleIffLatestIsOld | app/tasks/bg_tasks.py:13-24 | an asset is stale exactly when it has no fix or its latest fix is older than the threshold |
| BgTasks.CheckAssetInZone1 | app/tasks/bg_tasks.py:26-50 | no fix gives `(False, None, None)`; `in_zone` holds exactly when some zone of the asset contains its latest fix; coordinates are returned only when `in_zone` holds |
| BgTasks.FenceCheckAgreesWithEndpoint | app/tasks/bg_tasks.py:26-50 | the sweep's check and the `check_asset_in_zone` endpoint agree on `in_zone`, and on the coordinates when inside; the endpoint raises exactly when the sweep's check has no fix |
| BgTasks.CheckAssetInZoneFixed | app/tasks/bg_tasks.py:43-50 | the corrected check: the same `in_zone`, but the latest fix's coordinates whenever a fix exists |
| BgTasks.LatestAmong | app/tasks/bg_tasks.py:56-69 | the candidates that carry their asset's greatest timestamp, each kept with its multiplicity among the candidates, and no other fix |
| BgTasks.LatestAmongAppend | app/tasks/bg_tasks.py:56-69 | the latest rows among two candidate lists end to end are those of the first followed by those of the second |
| BgTasks.LatestAmongInOrder | app/tasks/bg_tasks.py:56-69 | each candidate contributes itself, once and at its own place, exactly when it is a latest row, so the join keeps the fix order |
| BgTasks.LatestRows | app/tasks/bg_tasks.py:56-69 | the join returns exactly the fixes whose timestamp equals their asset's maximum, each as often as it is stored |
| BgTasks.LatestRowsCoverAssets | app/tasks/bg_tasks.py:56-69 | an asset has a row in the join exactly when it has a fix; an asset with no fix is never visited |
| BgTasks.TiedFixesAreBothRows | app/tasks/bg_tasks.py:63-69 | two fixes of one asset tied at its latest timestamp are both rows, so the fence loop visits that asset twice |
| BgTasks.FenceRequestsSpec | app/tasks/bg_tasks.py:71-79 | every request the fence loop makes is an `exit_zone` request for an asset of some visited row that is outside all its zones; a request's message has the `None,None` coordinates; all rows out of zone gives one request per row in row order; all rows in zone gives none |
| BgTasks.FenceRequestsAppend | app/tasks/bg_tasks.py:71-79 | the requests for two row lists end to end are those of the first followed by those of the second |
| BgTasks.FenceRequestsPerRow | app/tasks/bg_tasks.py:71-79 | at any place in the row list, a row contributes exactly one `exit_zone` request with the `None,None` message when its asset is in no zone, and nothing when it is in one, for every mix of rows |
| BgTasks.StaleRequests | app/tasks/bg_tasks.py:90-97 | one `stale_data` request per stale asset, in order, with the message "Asset {id} has no updates for 10+ minutes" |
| BgTasks.RunAlertsStepOk | app/tasks/bg_tasks.py:91-97 | a request whose alert is created commits it at once, and the loop continues with the next request |
| BgTasks.RunAlertsStepErr | app/tasks/bg_tasks.py:99-101 | the first request whose alert creation raises stops the loop and leaves the tables as they were before that request |
| BgTasks.RunAlertsFrame | app/tasks/bg_tasks.py:91-103 | a sweep changes only the alerts table and its id sequence; earlier alerts stay as they were; it adds at most one alert per request |
| BgTasks.RunAlertsCreated | app/tasks/bg_tasks.py:91-97 | the j-th alert a sweep adds is the alert that `create_geo_alert` builds for the j-th request, with the j-th next id |
| BgTasks.RunAlertsOutcome | app/tasks/bg_tasks.py:81-83 | a sweep passes exactly when every request added an alert; a failing sweep re-raises the error of the first request that did not add one |
| BgTasks.ExitAlertsCarryNoCoordinates | app/tasks/bg_tasks.py:72-79 | every alert the fence sweep adds is `exit_zone` and reads "Asset {id} exited geo-fence at None,None" |
| BgTasks.FenceRequestMessage | app/tasks/bg_tasks.py:74-79 | each fence request carries the type `exit_zone` and the message with `None` coordinates |
| BgTasks.AddedAlertMatchesRequest | app/tasks/bg_tasks.py:91-97 | each alert a sweep adds carries the asset, type and message of its request, the time `now`, and `resolved=False` |
| BgTasks.ExitMessageWithoutCoordinates | app/tasks/bg_tasks.py:78 | the f-string renders the missing coordinates as `None,None` |
| BgTasks.FixedExitMessageCarriesFix | app/tasks/bg_tasks.py:78 | with the corrected check, the exit message carries the latest fix's longitude and latitude |
| BgTasks.FenceSweepNeverMissesFix | app/tasks/bg_tasks.py:63-79 | the fence sweep never fails with the 404 "no recent location": it visits only assets that have a fix |
| BgTasks.StaleSweepStopsAtNeverFixed | app/tasks/bg_tasks.py:90-103 | a stale asset with no fix makes the stale sweep fail, and no alert is added for it or for any later asset; if every earlier stale asset has a valid latest fix, the sweep adds exactly their alerts and fails with the 404 |
| BgTasks.VisitFenceRow | app/tasks/bg_tasks.py:71-79 | one iteration of the fence loop advances the sweep by exactly that row's request, or stops it with the request's exception |
| BgTasks.CheckGeoFences | app/tasks/bg_tasks.py:52-85 | the new tables and the outcome are those of the fence sweep over the latest rows |
| BgTasks.CheckStaleLocations | app/tasks/bg_tasks.py:87-103 | the new tables and the outcome are those of the stale sweep over the stale assets |
| GeoCrud.PairTexts | app/crud/geo_crud.py:13 | the pairs are rendered exactly when every inner list holds two numbers, longitude first then latitude; otherwise unpacking raises ValueError |
| GeoCrud.PolygonWktRoundTrip | app/crud/geo_crud.py:12-30 | for a non-empty list of pairs whose numbers read back, the stored text is the SRID prefix followed by a ring text that `create_geo_zone`'s parse turns back into exactly the coordinates given |
| GeoCrud.ParseFloats | app/crud/geo_crud.py:30 | a piece parses exactly when each of its words is a number, giving those numbers in order |
| GeoCrud.ParsePieces | app/crud/geo_crud.py:28-30 | the pieces parse exactly when every piece, stripped and split on whitespace, parses; then there is one coordinate list per piece, in order, each the numbers of its piece |
| GeoCrud.ParseZoneText | app/crud/geo_crud.py:27-30 | a parsed ring text has one coordinate list per comma in the stripped text plus one, so never none |
| GeoCrud.PairRoundTrip | app/crud/geo_crud.py:30 | a rendered pair, stripped and split on whitespace, parses back to `[lon, lat]` |
| GeoCrud.PieceReadsBack | app/crud/geo_crud.py:13-30 | the i-th rendered pair reads back as the i-th coordinate pair |
| GeoCrud.PiecesRoundTrip | app/crud/geo_crud.py:28-30 | parsing the rendered pairs gives back the coordinates |
| GeoCrud.PairTextShape | app/crud/geo_crud.py:13 | a rendered pair has no comma and neither begins nor ends with a character of the strip set |
| GeoCrud.RingStripsToBody | app/crud/geo_crud.py:13-27 | stripping the strip set off the ring text of a non-empty list of pairs leaves exactly the comma-joined pairs |
| GeoCrud.ZoneTextRoundTrip | app/crud/geo_crud.py:12-30 | for a non-empty list of pairs, parsing the ring text back (character-set strip, split on commas, split on whitespace) gives exactly the coordinates given |
| GeoCrud.EmptyZoneReadsBackOneEmptyPair | app/crud/geo_crud.py:27-30 | an empty ring text reads back as one empty coordinate list, not as no coordinates |
| GeoCrud.ContainingZones | app/crud/geo_crud.py:56-67 | exactly the zones of the asset that contain the point |
| GeoCrud.CheckAssetInZone | app/crud/geo_crud.py:40-69 | 404 exactly when the asset has no fix; otherwise the coordinates of a latest fix, and `in_zone` exactly when some zone of the asset contains that fix |
| GeoCrud.IsValidCoordinate | app/crud/geo_crud.py:71-72 | the alert range check accepts exactly the coordinates the location schema accepts |
| GeoCrud.NewGeoAlert | app/crud/geo_crud.py:74-113 | the only errors are the 404 and the 400; an alert built carries the id drawn, the given asset, type and message, `triggered_at=now`, `resolved=False`, and in-range coordinates |
| GeoCrud.NewGeoAlertSpec | app/crud/geo_crud.py:74-113 | 404 exactly when the asset has no fix; 400 exactly when its latest fix is out of range; no other error; on success the alert has the id drawn, the given asset, type and message, `triggered_at=now`, `resolved=False`, and the latest fix's valid coordinates |
| GeoCrud.CreateGeoAlert | app/crud/geo_crud.py:74-113 | returns that alert; on success exactly that one alert is appended and the id sequence advances; on a 404 or 400 nothing changes |
| GeoCrud.ZoneResponseEchoesCoordinates | app/crud/geo_crud.py:25-38 | when PostGIS hands the ring back as it was written, the response carries the zone's row fields and the coordinates the client sent |
| GeoCrud.InsertGeoZone | app/crud/geo_crud.py:16-23 | one zone row with the next id is appended when the asset exists; otherwise the foreign key rejects it, and the id is still used up |
| GeoCrud.CreateGeoZone | app/crud/geo_crud.py:12-38 | a malformed coordinate list raises before anything is written; otherwise the insert happens and the response is read back from the stored text |
| LocationsCrud.CreateAssetLocation | app/crud/locations_crud.py:8-19 | exactly one fix is appended for an existing asset, with the point `SRID=4326;POINT(lon lat)`, the timestamp defaulting to `now` and `additional_data` to `{}`; an unknown asset is rejected by the foreign key, with the id used up |
| LocationsCrud.GetLatestAssetLocation | app/crud/locations_crud.py:21-35 | None exactly when the asset has no fix; otherwise a fix of that asset with maximal timestamp; a validation error exactly when the coordinates of the latest fix, the one row the query returns, are out of range, so an older out-of-range fix never matters |
| LocationsCrud.Matching | app/crud/locations_crud.py:40-55 | exactly the asset's fixes inside the window, each bound inclusive and applied only when supplied, with their multiplicities |
| LocationsCrud.InsertDescending | app/crud/locations_crud.py:44 | inserting into a newest-first list keeps it newest first and adds exactly that fix |
| LocationsCrud.SortDescending | app/crud/locations_crud.py:44 | newest first, and a permutation of its input |
| LocationsCrud.ToResponses | app/crud/locations_crud.py:59 | every row becomes its response, in order, or the comprehension fails on an out-of-range row |
| LocationsCrud.GetAssetLocationHistory | app/crud/locations_crud.py:37-59 | a negative limit is refused by the database; the only other error is a row that fails validation; on success there are `min(limit, n)` responses for the `n` fixes that match, all of the asset, inside the window and newest first |
| LocationsCrud.DefaultHistoryLimitCall | app/crud/locations_crud.py:37 | without a `limit` the database never refuses the query, at most 100 responses come back, and all matches when there are no more than 100 |
| LocationsCrud.ResponsesKeepRows | app/crud/locations_crud.py:59 | turning the rows into responses keeps their number, their window and their newest-first order |
| LocationsCrud.TakeNewest | app/crud/locations_crud.py:44-45 | a prefix of a newest-first list leaves out nothing newer than what it keeps |
| LocationsCrud.HistoryRowsSpec | app/crud/locations_crud.py:37-59 | every row is a fix of the asset inside the window; the rows are newest first; there are exactly `min(limit, n)` of them for `n` matches; the rows are drawn from the matches; no match left out is newer than a row kept |
| LocationsCrud.HistoryRows | app/crud/locations_crud.py:37-57 | the rows are newest first, at most `limit` of them, drawn from the matching fixes without repeating any |
| LocationsSchema.CheckCoordinates | app/schemas/locations_schema.py:5-7 | passes exactly when both coordinates are present, latitude in [-90, 90] and longitude in [-180, 180], bounds inclusive |
| LocationsSchema.ValidateLocationCreate | app/schemas/locations_schema.py:5-12 | a create request is accepted exactly when its coordinates are; `timestamp` and `additional_data` are optional and pass through, None when missing |
| LocationsSchema.ValidateLocationResponse | app/schemas/locations_schema.py:14-17 | a response is built exactly when the coordinates are valid and `id`, `asset_id` and `timestamp` are all present, and it carries the record's fields |
| LocationsSchema.RecordOfValid | app/schemas/locations_schema.py:5-17 | a stored fix makes a valid response exactly when its coordinates are in range |
| Store.LatestFix | app/crud/locations_crud.py:24-28 | None exactly when the asset has no fix; otherwise a fix of that asset with no later fix of the asset |
| Store.AddAssetKeeps | app/models/assets_model.py:9-15 | an asset with the next id, a `unique_id` no other asset has, and an existing owner keeps every constraint |
| Store.ReplaceAssetKeeps | app/models/assets_model.py:9-15 | rewriting an asset row with the same id, a `unique_id` held by no other row, and an existing owner keeps every constraint |
| Store.RemoveAssetKeeps | app/models/locations_model.py:13 | removing an asset that nothing references keeps every constraint |
| Store.AddUserKeeps | app/models/users_model.py:13-16 | a user with a new username and a new email keeps every constraint |
| AssetsCrud.FindAsset | app/crud/assets_crud.py:6 | the position of the first row with that id, none exactly when no row has it |
| AssetsCrud.GetAsset | app/crud/assets_crud.py:5-6 | None exactly when no asset has that id, otherwise an asset with that id |
| AssetsCrud.GetAssetIsTheRow | app/crud/assets_crud.py:5-6 | ids are unique, so the asset found is the only row with that id |
| AssetsCrud.GetAssets | app/crud/assets_crud.py:8-9 | at most `limit` assets, those after the first `skip`, in order; the page is returned exactly when both are non-negative, and otherwise a negative offset, then a negative limit, is refused by the database |
| AssetsCrud.DefaultPage | app/crud/assets_crud.py:8-9 | `get_assets` with its defaults is never refused and returns the first 100 assets, or all when there are fewer |
| AssetsCrud.ConsecutivePages | app/crud/assets_crud.py:8-9 | two consecutive pages together are the page of their combined size |
| AssetsCrud.ValidateAssetCreate | app/schemas/assets_schema.py:4-10 | the create body keeps the fields given; an omitted `status` becomes "active", and an explicit one, `null` included, is kept |
| AssetsCrud.StoredStatus | app/crud/assets_crud.py:12-15 | the stored `status` is never NULL: a given status is kept, and an explicit `null` becomes the column default "active" |
| AssetsCrud.CreateAsset | app/crud/assets_crud.py:11-16 | exactly one asset carrying the given fields is added, with the next id and a `null` status stored as "active"; a `unique_id` already stored or an unknown owner is rejected, the row is not added, and the id is still used up |
| AssetsCrud.ApplyPatch | app/crud/assets_crud.py:23-34 | each field supplied as non-None overwrites the row's, and every other field, the id included, keeps its value |
| AssetsCrud.AssignFields | app/crud/assets_crud.py:23-34 | assigning the supplied fields one by one yields exactly the patched row |
| AssetsCrud.PatchLaws | app/crud/assets_crud.py:23-34 | an all-None patch is the identity; applying a patch twice is applying it once; a patch never clears `description` or `status` |
| AssetsCrud.PatchesCompose | app/crud/assets_crud.py:23-34 | two updates in a row have the effect of one merged patch, in which the later supplied fields win |
| AssetsCrud.UpdateAsset | app/crud/assets_crud.py:18-39 | a missing id gives None and changes nothing; otherwise the update succeeds exactly when no other row holds the patched `unique_id` and the patched owner exists, and then only that row changes, to the patched row; the function checks no uniqueness, so a taken `unique_id` or an unknown owner is refused at commit and nothing changes |
| AssetsCrud.DeleteAsset | app/crud/assets_crud.py:41-46 | a missing id gives None and changes nothing; an asset still referenced by a fix, zone or alert is refused by the database and nothing changes; otherwise exactly that row is removed and returned |
| AssetsCrud.DeletedIdIsGone | app/crud/assets_crud.py:41-46 | after a delete no row has that id |
| AssetsRouter.CreateNewAsset | app/router/assets_router.py:13-29 | a `unique_id` in use gives 400 and changes nothing, not even the id sequence; otherwise the create's outcome, and on success the tables are the old ones with exactly the new row appended and the asset sequence advanced by one, and the response fields equal the stored row's, so a `null` status comes back as "active" |
| AssetsRouter.ReadAssets | app/router/assets_router.py:31-34 | the page is refused only for a negative skip or limit, and holds at most `limit` stored assets |
| AssetsRouter.ReadAsset | app/router/assets_router.py:36-41 | 404 exactly when no asset has the id, otherwise that asset |
| AssetsRouter.UpdateExistingAsset | app/router/assets_router.py:43-53 | 404 for a missing id, with nothing changed; for a present id, the commit's refusal of a taken `unique_id` or unknown owner propagates, and the update succeeds exactly when neither applies; on success the tables are the old ones with exactly that row replaced by the patched row, which is then what a lookup returns |
| AssetsRouter.DeleteExistingAsset | app/router/assets_router.py:55-60 | 404 for a missing id; on success "Asset deleted successfully", the id is gone and the tables are the old ones with exactly that row removed; on the database's refusal nothing changes |
| UserCrud.GetUser | app/crud/user_crud.py:6-7 | None exactly when no user has the username, otherwise a user with it |
| UserCrud.AdminGate | app/crud/user_crud.py:10-12 | raises "Invalid admin secret code" exactly when the role is admin and the code does not equal the configured secret; a non-admin's code is never checked |
| UserCrud.NewUserRow | app/crud/user_crud.py:14-21 | the stored row has the given username, email and role, the hashed password, and `disabled=False` |
| UserCrud.CreateUser | app/crud/user_crud.py:9-25 | a failed gate raises and changes nothing; otherwise the new row is appended, or the unique indexes refuse a taken username or email, with only the id used up |
| UserCrud.AuthenticateUser | app/crud/user_crud.py:27-31 | False (None) exactly when the user does not exist or the password does not verify against the stored hash; otherwise that user |
| UserCrud.GetUserAppended | app/crud/user_crud.py:6-7 | an appended user is found by name when no earlier user has that name |
| UserCrud.RegisteredUserAuthenticates | app/crud/user_crud.py:14-31 | a freshly registered user logs in with the password they registered with |
| UserCrud.WrongPasswordRefused | app/crud/user_crud.py:27-31 | a password that does not verify never logs in |
| ExportRouter.BaseName | app/router/export_router.py:128 | the file name is the longest suffix of the path without a separator |
| ExportRouter.CsvFiles | app/router/export_router.py:113-118 | exactly the walked files that end in `.csv` |
| ExportRouter.AvailableFiles | app/router/export_router.py:113-118 | the loop collects exactly the `.csv` files of the walk, in walk order |
| ExportRouter.ErrorOutcome | app/router/export_router.py:107-110 | an exception while resolving is a 400 exactly when it is a ValueError, otherwise a 500 carrying its text |
| ExportRouter.CheckPath | app/router/export_router.py:102-110 | no `.csv` suffix, or `..` anywhere, gives 400; otherwise the path is accepted exactly when both paths resolve and the requested one lies inside the export directory; a resolved path outside it gives 400; an error resolving either path gives 400 when it is a ValueError and 500 otherwise |
| ExportRouter.DownloadSpec | app/router/export_router.py:95-133 | only a `.csv` request without `..`, resolving inside the export directory, to an existing file is served, as `text/csv`; the only errors are the 400, the 500 and the 404 listing exactly the CSV files |
| ExportRouter.DownloadExport | app/router/export_router.py:95-133 | the endpoint's answer is that of the download procedure, and the directory is walked only for the 404 |
| ExportRouter.RoutedPath | app/router/export_router.py:95 | the download route matches a path exactly when it starts with `/export/download/`, and hands on exactly the rest |
| ExportRouter.DownloadUrlRoutesBack | app/router/export_router.py:47 | a download link routes back to exactly the relative path it was built from |
| ExportRouter.FullCleanups | app/router/export_router.py:38-40 | one clean-up per exported file, for its path under the export directory, after 86400 seconds |
| ExportRouter.FullExport | app/router/export_router.py:29-52 | an exporter failure gives 500 with its text and schedules nothing; otherwise exactly those clean-ups are added and the links are returned |
| ExportRouter.ExportAssetData | app/router/export_router.py:54-73 | one clean-up after the default 3600 seconds, and the file with its link; or 500 with nothing scheduled |
| ExportRouter.RelativeTo | app/router/export_router.py:90 | a path has a relative form exactly when it lies within the base, and it is the base followed by that form |
| ExportRouter.ExportAssetDataAll | app/router/export_router.py:75-93 | on an exporter failure 500 and nothing added; otherwise the clean-up after 3600 seconds is added to the request's task list before the link is built, and the answer is the file with its link, or 500 when the path does not lie within the export directory |
| ExportRouter.ExportedLinksPassChecks | app/router/export_router.py:38-50 | the path of a full export's link is its relative path; when that path ends in `.csv`, holds no `..` and resolves inside the export directory, it passes the download checks; its clean-up is for that same file |

## Left out

- The `app.auth` module is not part of this model. The admin and user checks in front of the endpoints are therefore not modelled. Hashing, verification and the admin secret are parameters.
- app/services/export.py is not modelled: pandas, raw SQL and file writes. Each export endpoint takes what the exporter returned or raised as a parameter.
- The thin routers app/router/geo_router.py, app/router/locations_router.py and app/router/auth_router.py are not modelled, nor are the HTML pages and the history page in main.py:77-133.
- The websocket receive loop in main.py is not modelled. It is the only place that calls `disconnect`. It catches `WebSocketDisconnect`, which main.py never imports (main.py:90), so a client closing its connection would raise NameError there. Nothing in the repository calls `broadcast`.
- `repeat_every` scheduling and `async`/`await` are not modelled. Accepts and sends are entries of a ghost log in call order.
- PostGIS geometry is abstract. `ST_Contains` is the `contains` parameter, and `ST_AsText` is the `stAsText` parameter. Ring closure and polygon validity checks are not modelled. `ST_X` and `ST_Y` read back the coordinates that were written.
- Floating point is abstract: `f"{x}"` and `float(s)` are the `fmt` and `toFloat` parameters. Real coordinates are exact reals.
- Time is an integer count of seconds. `datetime.utcnow()` is the `now` parameter, read once per operation. One run of `run_geo_checks` shares a single reading between both sweeps and every alert they create, where the code reads the clock in `get_stale_assets` and again in each `create_geo_alert`; the readings of one run differ by the run's duration only. Time zones are not modelled.
- The sessions are simplified: `commit`, `rollback` and `close` have no step of their own. A row is in its table from the moment its commit succeeds, a rejected write leaves the tables as they were, and each alert is committed by `create_geo_alert` itself.
- `additional_data` is a flat map of strings rather than arbitrary JSON.
- Pydantic's `EmailStr` check and the string-to-enum conversion of `role` are not modelled.
- The asset `status` default `"active"` is applied twice: by the schema when the key is omitted (`AssetsCrud.ValidateAssetCreate`), and by the column default when the body sends `null`, because the ORM leaves a None attribute out of the INSERT (`AssetsCrud.StoredStatus`).
- A failed location validation names one failing field; Pydantic's list of every failing field is not modelled.
- pathlib normalisation is not modelled. Repeated separators and `.` components are not collapsed, and a trailing separator is not dropped before `Path.name`.
- Store.LatestFix: SQL leaves the order of fixes with equal timestamps open. The model returns the earliest inserted of them, and its contract promises only that the timestamp is maximal.
- AssetsCrud.GetAssets: a query without `ORDER BY` has no defined order. The model returns the table in insertion order.
- AssetsCrud.DeleteAsset: the contract promises an IntegrityError for a referenced asset. It does not say which constraint PostgreSQL names first.
- UserCrud.CreateUser: the contract promises an IntegrityError for a taken username or email. It does not say which of the two unique indexes PostgreSQL reports first.
- ExportRouter.ExportAssetDataAll: the text of the `relative_to` ValueError belongs to the Python version and is left to the `describe` parameter.
- ExportRouter.ExportAssetDataAll: FastAPI runs a request's background tasks only after a response the endpoint returns, so after the 500 the clean-up added to the list never runs. The model records the list of tasks added, not their execution.
- ExportRouter.ExportAssetDataAll: the exporter in app/services/export.py builds the file path under the export directory, so `relative_to` does not fail in practice. The model takes the exporter's result as a parameter and keeps the 500 branch.
- BgTasks.StaleAssets: `get_stale_assets` has no `ORDER BY`. The model returns the stale assets in table order, and where the stale sweep stops depends on that order.
- The fence sweep follows the join's rows in fix-store order. The SQL join returns them in an unspecified order.

## Findings

| source | as written | input that shows it | evidently intended | confidence | as-written member | corrected member |
|---|---|---|---|---|---|---|
| app/tasks/bg_tasks.py:43-50 | `check_asset_in_zone1` reads the coordinates only when the asset is inside a zone. The fence sweep alerts only assets outside every zone. So every exit alert is built from `None` coordinates. | asset 7 with one fix at longitude 10.0, latitude 20.0 and no zone that contains it: the alert reads "Asset 7 exited geo-fence at None,None" | the exit message carries the position of the latest fix | high (not executed) | BgTasks.ExitAlertsCarryNoCoordinates | BgTasks.FixedExitMessageCarriesFix |
| main.py:55 | The initialiser is spelled `_init_`, which Python never calls, so `active_connections` is never created. | the first `manager.connect(ws, 1)` raises AttributeError right after accepting the connection | `__init__`, creating an empty registry | high (not executed) | App.ConnectOnFreshManagerAsWritten | App.ConnectOnFreshManager |
