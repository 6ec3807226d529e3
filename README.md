# Kenya wards: a verified model of the resolver, the change log and the loaders

The repository ships the 1,450 ward boundaries of Kenya as GeoJSON and loads
them into two spatial stores: a SpatiaLite file (`kenya_wards`, with cached
bounding-box columns) and a PostGIS table. On top of those tables it offers a
point-to-ward resolver (containment, nearest ward, radius search, the "smart"
fallback from containment to nearest, name, county, code and bounding-box
filters, and a bounding-box pre-filtered "optimized" variant), a
change-capture log (`kenya_ward_events`) filled by SQLite triggers on every
insert, update and delete of a ward, an update-bundle validator and table
(`kenya_ward_updates`), a small stateful SQL query builder, the loaders that
normalise GeoJSON features into rows, and a DDL serialiser for the schema push.

This project models that core in Dafny and proves what each part promises.

* The store's geometric primitives (ST_Contains, planar and ellipsoidal
  ST_Distance, MbrMinX and its siblings, MbrWithin, ST_Intersects,
  AsGeoJSON, ST_MakeValid(GeomFromGeoJSON)) are fields of a `Spatial` value
  (`PostGis` for the PostGIS store), passed to every query: they are
  uninterpreted total functions. The only assumption made about them is
  `Geometry.MbrSound`, which says that a geometry containing a point has
  that point inside its MBR.
* A table is its rows in rowid order (`seq<WardRow>`), the order a scan
  returns them. "First match" and "first minimum" are therefore taken in
  that order.
* The SpatiaLite database is the class `SpatialiteDb.Database`. Its fields are
  the ward table, the AUTOINCREMENT counter, the event log, the `_meta` rows
  and flags for the DDL that has run. Every statement either succeeds
  completely or fails and leaves the state as it was, which is SQLite's
  statement atomicity; a trigger failure aborts the statement that fired it.
* The query builder is the class `QueryBuilder.SpatiaLiteQueryBuilder`. Its
  fields are the builder's private fields. An SQL fragment is a sequence of
  raw text, identifier and bound-parameter chunks. The text an SQL object
  turns into under JavaScript's `toString` is a parameter, `objectText`.
* Clock readings (`CURRENT_TIMESTAMP`), SQLite's `randomblob`/`random()`, and
  the number formatting of `JSON.stringify` are parameters (`now`,
  `Randomness`, `numberText`).

Where the documentation of a function and its code differ, the model follows
the code: `toSQLString` returns the placeholder `SELECT * FROM <table>`
whatever the builder holds, and the PostGIS radius search compares degrees
(see Findings).

## Model

| member | source | states |
|---|---|---|
| WardQueries.FindWardByPoint | src/sqlite-spatialite/queries/ward-queries.ts:55-67 | None exactly when no row's geometry contains (lng, lat); otherwise the first containing row in table order (same query in src/sqlite-spatialite/wards/query-wards_side.ts:30-42) |
| WardQueries.FindWardById | src/sqlite-spatialite/queries/ward-queries.ts:72-84 | None exactly when no row has that id; otherwise a row with that id |
| WardQueries.FindWardByIdUnique | src/sqlite-spatialite/queries/ward-queries.ts:72-84 | with ascending (primary-key) ids, looking up any row's id returns that very row |
| WardQueries.FindWardByCode | src/sqlite-spatialite/queries/ward-queries.ts:89-101 | None exactly when no row has that ward_code; otherwise a row carrying that code |
| WardQueries.FindWardsByName | src/sqlite-spatialite/queries/ward-queries.ts:106-117 | a ward is in the result exactly when its lower-cased name contains the lower-cased search text (empty when nothing matches). Each matching row appears once per row: the count of every result equals the number of rows that match and map to it. |
| WardQueries.NameSearchIgnoresCase | src/sqlite-spatialite/queries/ward-queries.ts:106-117 | two search texts equal after lower-casing give the same result |
| WardQueries.EmptyNameMatchesAll | src/sqlite-spatialite/queries/ward-queries.ts:106-117 | the pattern `%%` built from an empty search matches every ward |
| WardQueries.FindWardsByCounty | src/sqlite-spatialite/queries/ward-queries.ts:194-205 | a ward is in the result exactly when its county equals the given name case-insensitively (same in src/sqlite-spatialite/wards/query-wards_side.ts:119-130). Each matching row appears once per row: the count of every result equals the number of rows that match and map to it. |
| WardQueries.CountySearchIgnoresCase | src/sqlite-spatialite/queries/ward-queries.ts:194-205 | two county names equal after lower-casing give the same result |
| WardQueries.CountyFoundInAnyCase | src/sqlite-spatialite/queries/ward-queries.ts:194-205 | every ward is found by its county name in lower case |
| WardQueries.SelectedColumns | src/sqlite-spatialite/queries/ward-queries.ts:216-233 | an item is selected exactly when some requested name maps to it in the whitelist; unknown names are dropped |
| WardQueries.SelectedColumnsSnoc | src/sqlite-spatialite/queries/ward-queries.ts:229-233 | one more requested name adds its select item at the end when whitelisted, and nothing otherwise (request order is kept) |
| WardQueries.PartialSelectList | src/sqlite-spatialite/queries/ward-queries.ts:234 | the select list is `*` exactly when no requested name is whitelisted |
| WardQueries.DefaultSelectedColumns | src/sqlite-spatialite/queries/ward-queries.ts:210-215 | the default request selects id, ward and county in that order |
| WardQueries.DefaultSelectList | src/sqlite-spatialite/queries/ward-queries.ts:210-234 | the default select list is the text `id, ward, county` |
| WardQueries.FindWardsByCountyPartial | src/sqlite-spatialite/queries/ward-queries.ts:210-243 | as written: every object has exactly the keys of the selected items (column names, only geometry aliased; all thirteen table columns for `*`); an object is in the result exactly when it is the projection of a row of the county, matched case-insensitively; each such row gives one object |
| WardQueries.RowObject | src/sqlite-spatialite/queries/ward-queries.ts:236-242 | the row object has one property per distinct key of the select items |
| WardQueries.RowObjectValue | src/sqlite-spatialite/queries/ward-queries.ts:236-242 | a key carried by only one column holds that column's value on the row |
| WardQueries.SelectsTheField | src/sqlite-spatialite/queries/ward-queries.ts:34-44 | the column a whitelisted name selects holds the PartialWard field of that name |
| WardQueries.ColumnKeysDistinct | src/sqlite-spatialite/queries/ward-queries.ts:216-226 | two whitelisted names whose items share a key are the same item |
| WardQueries.PartialRowValues | src/sqlite-spatialite/queries/ward-queries.ts:210-243 | as written: a requested valid field arrives with the ward's value, but under the column's name |
| WardQueries.CamelCaseRequestLosesField | src/sqlite-spatialite/queries/ward-queries.ts:216-226 | as written: a request for wardCode yields objects whose only key is ward_code, so PartialWard.wardCode is missing |
| WardQueries.AliasedItem | src/sqlite-spatialite/queries/ward-queries.ts:216-226 | as intended: a whitelisted name selects its column aliased to that name, so the key is the requested name |
| WardQueries.AliasedColumns | src/sqlite-spatialite/queries/ward-queries.ts:229-231 | as intended: an aliased item is selected exactly when some requested name maps to it |
| WardQueries.AliasedRowKeys | src/sqlite-spatialite/queries/ward-queries.ts:34-44 | as intended: each object's keys are exactly the valid requested field names |
| WardQueries.AliasedRowValues | src/sqlite-spatialite/queries/ward-queries.ts:34-44 | as intended: each valid requested field name is a key of the object and holds the ward's field of that name |
| WardQueries.FindNearestWard | src/sqlite-spatialite/queries/ward-queries.ts:123-142 | None exactly when the table is empty; otherwise a row first under ORDER BY, where a NULL distance sorts before every number: its distance is least with NULLs first, every earlier row sorts strictly after it, and it is returned with that (possibly NULL) distance (same in src/sqlite-spatialite/wards/query-wards_side.ts:48-67) |
| WardQueries.GeometrylessWardIsNearest | src/sqlite-spatialite/queries/ward-queries.ts:123-142 | when a row has no geometry, the distance of no geometry is NULL, and every earlier row has a distance, that row is the nearest ward, returned with a NULL distance |
| WardQueries.FindWardsWithinDistance | src/sqlite-spatialite/queries/ward-queries.ts:148-174 | a row is in the result, with its metric distance, exactly when that distance is non-NULL and strictly below the radius (1000 by default); a row with a NULL distance fails the filter; results are in ascending distance order, each close row once per row (same in src/sqlite-spatialite/wards/query-wards_side.ts:73-99) |
| WardQueries.FindWardSmart | src/sqlite-spatialite/queries/ward-queries.ts:179-189 | None only for an empty table; an exact hit exactly when some ward contains the point, and then the point lookup's ward; otherwise the nearest-ward result (same in src/sqlite-spatialite/wards/query-wards_side.ts:104-114) |
| WardQueries.FindWardsInBoundingBox | src/sqlite-spatialite/queries/ward-queries.ts:248-265 | a ward is in the result exactly when MbrWithin(geom, BuildMbr(...)) holds for its row (same in src/sqlite-spatialite/wards/query-wards_side.ts:135-152). Each matching row appears once per row: the count of every result equals the number of rows that match and map to it. |
| Geometry.BuildMbr | src/sqlite-spatialite/wards/query-wards_side.ts:142-149 | the rectangle is well formed, holds both corner points, and is the given box when the corners are already ordered |
| SqlLogic.BetweenHolds | src/sqlite-spatialite/queries/ward-queries.ts:291-306 | `v BETWEEN lo AND hi` holds exactly when both bounds are non-NULL and lo <= v <= hi (SQL three-valued logic) |
| WardQueries.PrefilterWhereIff | src/sqlite-spatialite/queries/ward-queries.ts:291-306 | the optimized WHERE clause holds exactly when lng is in [minx, maxx], lat is in [miny, maxy] and the geometry contains the point |
| WardQueries.FindWardByPointOptimized | src/sqlite-spatialite/wards/query-wards-optimized.ts:22-37 | None exactly when no row passes the bbox test and containment; otherwise the first row that does, with its bbox |
| WardQueries.PrefilterAgrees | src/sqlite-spatialite/queries/ward-queries.ts:291-306 | when every row's bbox columns hold its MBR and MbrSound holds, the pre-filtered lookup returns the same ward as findWardByPoint, and None exactly when it does |
| WardQueries.FindNearestWardOptimized | src/sqlite-spatialite/wards/query-wards-optimized.ts:42-62 | None exactly when the table is empty; otherwise a row first under ORDER BY with NULL distances first, with its bbox and (possibly NULL) distance |
| WardQueries.OverlapWhereIff | src/sqlite-spatialite/wards/query-wards-optimized.ts:81-83 | `NOT (maxx < minLng OR minx > maxLng OR maxy < minLat OR miny > maxLat)` holds exactly when the row's bbox is non-NULL and overlaps the closed query rectangle |
| WardQueries.FindWardsInBoundingBoxOptimized | src/sqlite-spatialite/queries/ward-queries.ts:336-354 | a ward is in the result exactly when its cached bbox overlaps the query rectangle (same in src/sqlite-spatialite/wards/query-wards-optimized.ts:67-85). Each matching row appears once per row: the count of every result equals the number of rows that match and map to it. |
| WardQueries.WithinResultsOverlap | src/sqlite-spatialite/queries/ward-queries.ts:248-265 | with cached bboxes and sound MBRs, every ward of the MBR-within query is also found by the overlap query |
| WardQueries.GetWardsByCodesOptimized | src/sqlite-spatialite/wards/query-wards-optimized.ts:90-103 | a ward is in the result exactly when its ward_code is one of the given codes. Each matching row appears once per row: the count of every result equals the number of rows that match and map to it. |
| WardQueries.FindWardSmartOptimized | src/sqlite-spatialite/wards/query-wards-optimized.ts:108-118 | None only for an empty table; the pre-filtered containment result when there is one, else the optimized nearest ward |
| WardQueries.SmartAgrees | src/sqlite-spatialite/queries/ward-queries.ts:377-387 | with cached bboxes and sound MBRs, the optimized smart lookup gives the same ward as findWardSmart, and None exactly when it does |
| WardQueries.MinOf | src/sqlite-spatialite/queries/ward-queries.ts:403-406 | Math.min over a non-empty list is an element no greater than any other |
| WardQueries.MaxOf | src/sqlite-spatialite/queries/ward-queries.ts:403-406 | Math.max over a non-empty list is an element no less than any other |
| WardQueries.CalculateCombinedBBox | src/sqlite-spatialite/queries/ward-queries.ts:392-407 | all zeros for an empty list; otherwise each side is the min (minx, miny) or max (maxx, maxy) over the inputs, attained by some input (same in src/sqlite-spatialite/wards/query-wards-optimized.ts:123-138) |
| WardQueries.CombinedBBoxEncloses | src/sqlite-spatialite/queries/ward-queries.ts:392-407 | every input bbox lies within the combined one |
| CountryQueries.IsPointInKenya | src/sqlite-spatialite/lib/country/query-country.ts:16-25 | true exactly when some country row contains the point |
| CountryQueries.GetCountryAtPoint | src/sqlite-spatialite/lib/country/query-country.ts:30-45 | non-null exactly when isPointInKenya holds, and then the first containing row |
| CountryQueries.GetDistanceToKenyaBorder | src/sqlite-spatialite/lib/country/query-country.ts:50-58 | 0 when there is no country row or the first row's distance is NULL; otherwise the first row's metric distance (a falsy 0 stays 0) |
| CountryQueries.ValidateKenyaCoordinates | src/sqlite-spatialite/lib/country/query-country.ts:63-76 | valid exactly when each coordinate is NaN or a finite number in range (-5..6 for latitude, 33..42 for longitude, bounds included); valid exactly when no reason is given; latitude is checked first, so its reason wins when both are out of range |
| CountryQueries.NaNCoordinatesAreValid | src/sqlite-spatialite/lib/country/query-country.ts:68-74 | NaN coordinates are reported valid, since NaN fails both comparisons; infinite latitudes are rejected |
| PostgisQueries.FindWardByPoint | src/drizzle-pg-postgis/ward-queries.ts:10-22 | None exactly when no ward's geometry contains the point; otherwise the first containing ward |
| PostgisQueries.FindNearestWard | src/drizzle-pg-postgis/ward-queries.ts:28-41 | None exactly when the table is empty; otherwise a ward first in `<->` order, with its distance |
| PostgisQueries.NearestFirst | src/drizzle-pg-postgis/ward-queries.ts:53-62 | the kept wards, each with its distance, exactly, in ascending distance order; each kept row once per row. |
| PostgisQueries.FindWardsWithinDistance | src/drizzle-pg-postgis/ward-queries.ts:46-63 | as written: exactly the wards whose planar distance in degrees is at most the radius (1000 by default), in ascending distance order; each kept row once per row. |
| PostgisQueries.DefaultRadiusIsDegrees | src/drizzle-pg-postgis/ward-queries.ts:46-63 | a ward 500 km away (4.5 degrees) is returned by the default "1000 metre" search |
| PostgisQueries.FindWardsWithinMeters | src/drizzle-pg-postgis/ward-queries.ts:46-63 | as intended: exactly the wards whose geodesic distance is at most the radius in metres, in ascending distance order; each kept row once per row. |
| PostgisQueries.FindWardSmart | src/drizzle-pg-postgis/ward-queries.ts:68-78 | None only for an empty table; exact exactly when some ward contains the point, and then findWardByPoint's ward; otherwise findNearestWard's result |
| PostgisQueries.FindWardsByCounty | src/drizzle-pg-postgis/ward-queries.ts:83-90 | a ward is in the result exactly when it is in the table and its county equals the name case-insensitively. Each matching row appears once per row: the count of every result equals the number of rows that match and map to it. |
| PostgisQueries.FindWardsInBoundingBox | src/drizzle-pg-postgis/ward-queries.ts:95-109 | a ward is in the result exactly when its geometry intersects the envelope. Each matching row appears once per row: the count of every result equals the number of rows that match and map to it. |
| EventIds.Hex | src/sqlite-spatialite/ward-events/create-triggers.ts:28 | hex() of n bytes is 2n upper-case hex digits |
| EventIds.Abs64 | src/sqlite-spatialite/ward-events/create-triggers.ts:28 | abs() fails exactly on the least 64-bit integer; otherwise it is x or -x |
| EventIds.EventId | src/sqlite-spatialite/ward-events/create-triggers.ts:28 | the id expression fails exactly when random() is the least 64-bit integer; otherwise it is 36 lower-case characters in 8-4-4-4-12 hex groups, with '4' opening the third group and one of 8, 9, a, b opening the fourth |
| EventIds.RawShape | src/sqlite-spatialite/ward-events/create-triggers.ts:28 | before lower-casing, the text has dashes at 8, 13, 18 and 23, '4' at 14, the variant digit at 19 and hex digits elsewhere |
| WardEvents.TriggerEvent | src/sqlite-spatialite/ward-events/create-triggers.ts:25-52 | a trigger-written event satisfies every CHECK and NOT NULL constraint, has trigger_by TRIGGER, sync_status PENDING, sync_attempts 0, and the given event type, ward id and ward code |
| WardEvents.AppendKeepsIdsDistinct | src/sqlite-spatialite/ward-events/create_kenya_ward_events.ts:8 | appending an event whose id is unused keeps event ids distinct (the primary key) |
| WardEvents.Snapshot | src/sqlite-spatialite/ward-events/create-triggers.ts:34-48 | the snapshot is a JSON object with the same 13 keys in every trigger, in order |
| WardEvents.SnapshotDeterminesRow | src/sqlite-spatialite/ward-events/create-triggers.ts:34-48 | two rows with equal snapshots agree on every column but geom, and their geometries have equal GeoJSON |
| SpatialiteDb.MakeRow | src/sqlite-spatialite/wards/insert-wards.ts:15-29 | a row can be stored exactly when ward, county and constituency are non-NULL, and then it carries the given id and values |
| SpatialiteDb.Triggered | src/sqlite-spatialite/ward-events/create-triggers.ts:19-147 | with triggers installed exactly one event is written, otherwise none; its id is the event-id expression's value, its row is allowed by the table's constraints, and its type, ward id, ward code, old_data and new_data are the given ones |
| SpatialiteDb.Database.CreateWardsTable | src/sqlite-spatialite/wards/insert-wards.ts:9-30 | DROP and CREATE: the ward table is empty, its counter reset, its triggers gone; the event log and `_meta` are untouched |
| SpatialiteDb.Database.InsertWard | src/sqlite-spatialite/ward-events/create-triggers.ts:19-55 | succeeds exactly when the table compiles, the NOT NULL columns are set and the event can be logged; then the row is appended with the next AUTOINCREMENT id and one INSERT event (old_data NULL, new_data the new row's snapshot) is appended; on failure nothing changes |
| SpatialiteDb.Database.UpdateWard | src/sqlite-spatialite/ward-events/create-triggers.ts:57-108 | a missing id changes nothing; otherwise the row is replaced in place and one UPDATE event with the old and new snapshots is appended; on failure nothing changes |
| SpatialiteDb.Database.DeleteWard | src/sqlite-spatialite/ward-events/create-triggers.ts:110-147 | a missing id changes nothing; otherwise the row is removed and one DELETE event with the old snapshot and NULL new_data is appended; on failure nothing changes |
| SpatialiteDb.Database.CreateTriggers | src/sqlite-spatialite/ward-events/create-triggers.ts:17-147 | installing is idempotent (IF NOT EXISTS), fails only without a ward table, and changes no row or event |
| SpatialiteDb.Database.CreateWardEventsTable | src/sqlite-spatialite/ward-events/create_kenya_ward_events.ts:6-46 | creates the full event table only when none exists (IF NOT EXISTS) and installs the updated_at trigger; no row or event changes |
| SpatialiteDb.Database.UpdateEvent | src/sqlite-spatialite/ward-events/create_kenya_ward_events.ts:39-46 | updating an event that exists replaces that one row, and the timestamp trigger then sets its updated_at to now; a missing id changes nothing; a row violating a constraint or a taken id fails and changes nothing |
| SpatialiteDb.FeatureValues | src/sqlite-spatialite/wards/insert-wards.ts:78-87 | a falsy sub_county becomes NULL, the geometry is ST_MakeValid(GeomFromGeoJSON(JSON text)), the bbox starts NULL, and the row can be stored exactly when ward, county and const are present |
| SpatialiteDb.LoadedRow | src/sqlite-spatialite/wards/insert-wards.ts:76-88 | the stored row carries the given id and its bbox columns hold its geometry's MBR |
| SpatialiteDb.LoadedRows | src/sqlite-spatialite/wards/insert-wards.ts:74-94 | one row per feature, in feature order, with consecutive ids after the counter |
| SpatialiteDb.LoadedTableShape | src/sqlite-spatialite/wards/insert-wards.ts:55-99 | a load into the fresh table has ids 1..n in order, ascending, and every bbox cached |
| SpatialiteDb.AppendLoadedValid | src/sqlite-spatialite/wards/insert-wards.ts:74-94 | loading after existing rows keeps ids ascending and within the counter |
| SpatialiteDb.Database.LoadFeature | src/sqlite-spatialite/wards/insert-wards.ts:76-92 | one feature: insert then bbox update, or an error with nothing changed |
| SpatialiteDb.Database.InsertWardsData | src/sqlite-spatialite/wards/insert-wards.ts:55-99 | the loop succeeds exactly when every feature can be stored, and then appends exactly the loaded rows; one failure rolls the whole transaction back |
| SpatialiteDb.Database.FinalizeDb | src/sqlite-spatialite/wards/insert-wards.ts:123-150 | `_meta` gets schema_version "1.0" and wards_count the feature count, overwriting earlier values; the legacy event table is created only when none exists |
| SpatialiteDb.Database.CreateAndInsertWards | src/sqlite-spatialite/wards/insert-wards.ts:152-174 | after the DROP the count is always 0, so the load always runs; on success the table is exactly the loaded rows and `_meta` is written; on failure the table is empty and `_meta` untouched |
| SpatialiteDb.Database.Setup | src/sqlite-spatialite/init_sqlite_db.ts:9-23 | as written: on success the wards are the loaded rows, triggers installed, no events logged, and on a new file the event table is the legacy one |
| SpatialiteDb.FreshSetupRejectsInserts | src/sqlite-spatialite/init_sqlite_db.ts:9-23 | on a new file the setup logs no events, and the first ward insert fails for want of the trigger_by column |
| SpatialiteDb.Database.SetupEventsFirst | src/sqlite-spatialite/init_sqlite_db.ts:9-23 | corrected order: on success the event table is the full one, triggers installed and no events logged |
| SpatialiteDb.FreshSetupAcceptsInserts | src/sqlite-spatialite/init_sqlite_db.ts:9-23 | with the corrected order, a fresh setup logs no events and an insert succeeds exactly when the row is storable and the id expression does not fail, taking id n+1 and logging one event |
| SpatialiteDb.InsertLogged | src/sqlite-spatialite/ward-events/create-triggers.ts:19-55 | with triggers installed, an insert appends one row with the next id and one INSERT event for that id after the existing events |
| SpatialiteDb.UpdateLogged | src/sqlite-spatialite/ward-events/create-triggers.ts:57-108 | with triggers installed, an update keeps the row's place and id and appends one UPDATE event for it |
| SpatialiteDb.DeleteLogged | src/sqlite-spatialite/ward-events/create-triggers.ts:110-147 | with triggers installed, a delete removes the row and appends one DELETE event for its id |
| SpatialiteDb.InsertThenUpdate | tests/sqlite-spatialite/ward-events/ward-events.test.ts:95-113 | insert then update of one ward appends INSERT then UPDATE events for the new id, with their generated ids, and an event id free before stays free |
| SpatialiteDb.InsertUpdateDelete | tests/sqlite-spatialite/ward-events/ward-events.test.ts:95-113 | insert, update and delete of one ward leave the ward table as it was and append exactly three events for that ward, INSERT, UPDATE, DELETE in order, after the old log unchanged |
| WardUpdates.PositiveInt | src/sqlite-spatialite/ward-events/create_ward_updates.ts:6 | accepted exactly when the value is a number that is an integer greater than 0 |
| WardUpdates.ParseEvent | src/sqlite-spatialite/ward-events/create_ward_updates.ts:8 | accepted exactly when the value is one of the strings create, update, delete |
| WardUpdates.ParseWardUpdateData | src/sqlite-spatialite/ward-events/create_ward_updates.ts:5-9 | accepted exactly when the value is an object whose id is a positive integer, data an object and event one of the three names; the result carries those values |
| WardUpdates.UpdateDataRoundTrip | src/sqlite-spatialite/ward-events/create_ward_updates.ts:5-9 | every item with a positive id is accepted back from its JSON form unchanged |
| WardUpdates.ParseAll | src/sqlite-spatialite/ward-events/create_ward_updates.ts:14 | an array is accepted exactly when every item is, element by element; the empty array is accepted |
| WardUpdates.OptionalPositiveInt | src/sqlite-spatialite/ward-events/create_ward_updates.ts:12 | an absent id is accepted as absent; a present one must be a positive integer |
| WardUpdates.OptionalString | src/sqlite-spatialite/ward-events/create_ward_updates.ts:15-17 | an absent field is accepted as absent; a present one must be a string |
| WardUpdates.ParseWardUpdates | src/sqlite-spatialite/ward-events/create_ward_updates.ts:11-18 | accepted exactly when the value is an object with an optional positive id, a positive integer version, a data array of valid items and optional string created_at, created_by and description; the result is a valid record; its id, version, data, created_at, created_by and description are the parsed values of the same keys of the input |
| WardUpdates.UpdatesRoundTrip | src/sqlite-spatialite/ward-events/create_ward_updates.ts:11-18 | every valid record is accepted back from its JSON form unchanged |
| WardUpdates.ScalarsRoundTrip | src/sqlite-spatialite/ward-events/create_ward_updates.ts:12-17 | the version, id and optional strings of a valid record are each accepted back unchanged |
| WardUpdates.ItemsRoundTrip | src/sqlite-spatialite/ward-events/create_ward_updates.ts:14 | a list of items with positive ids is accepted back unchanged |
| WardUpdates.WardUpdatesTable.Insert | src/sqlite-spatialite/ward-events/create_ward_updates.ts:40-50 | succeeds exactly when version and data are non-NULL; then one row is appended with the next AUTOINCREMENT id and created_at and updated_at defaulted to now; duplicate versions are accepted |
| WardUpdates.WardUpdatesTable.Update | src/sqlite-spatialite/ward-events/create_ward_updates.ts:63-70 | updating an existing row replaces it, keeps its id and sets its updated_at to now; a missing id changes nothing; a row breaking a NOT NULL column fails and changes nothing |
| QueryBuilder.SpatiaLiteQueryBuilder.constructor | src/sqlite-spatialite/query-builder/query-builder.ts:22-32 | a new builder has the table name and no fields, conditions, ordering, limit or offset |
| QueryBuilder.SpatiaLiteQueryBuilder.SelectAll | src/sqlite-spatialite/query-builder/query-builder.ts:35-37 | `select('*')` replaces the selection with the single field `*`; nothing else changes |
| QueryBuilder.SpatiaLiteQueryBuilder.Select | src/sqlite-spatialite/query-builder/query-builder.ts:38-43 | `select(record)` replaces the selection with one aliased field per entry, in entry order; nothing else changes |
| QueryBuilder.SpatiaLiteQueryBuilder.Where | src/sqlite-spatialite/query-builder/query-builder.ts:48-54 | appends exactly one custom condition at the end; nothing else changes |
| QueryBuilder.SpatiaLiteQueryBuilder.WhereEquals | src/sqlite-spatialite/query-builder/query-builder.ts:57-63 | appends exactly the condition `"field" = ?` with the value bound |
| QueryBuilder.SpatiaLiteQueryBuilder.WhereLike | src/sqlite-spatialite/query-builder/query-builder.ts:66-72 | appends exactly the condition `"field" LIKE ?` with the pattern bound |
| QueryBuilder.SpatiaLiteQueryBuilder.WhereIn | src/sqlite-spatialite/query-builder/query-builder.ts:75-81 | appends exactly one IN condition whose list is a single bound string, the text of the joined value fragments |
| QueryBuilder.SpatiaLiteQueryBuilder.WhereIsNull | src/sqlite-spatialite/query-builder/query-builder.ts:84-90 | appends exactly the condition `"field" IS NULL` |
| QueryBuilder.SpatiaLiteQueryBuilder.WhereIsNotNull | src/sqlite-spatialite/query-builder/query-builder.ts:93-99 | appends exactly the condition `"field" IS NOT NULL` |
| QueryBuilder.SpatiaLiteQueryBuilder.WhereContains | src/sqlite-spatialite/query-builder/query-builder.ts:102-108 | appends exactly one ST_Contains condition built from the point's text |
| QueryBuilder.SpatiaLiteQueryBuilder.WhereIntersects | src/sqlite-spatialite/query-builder/query-builder.ts:110-116 | appends exactly one ST_Intersects condition built from the other geometry's text |
| QueryBuilder.SpatiaLiteQueryBuilder.WhereMbrWithin | src/sqlite-spatialite/query-builder/query-builder.ts:118-124 | appends exactly one MbrWithin condition built from the box's text |
| QueryBuilder.SpatiaLiteQueryBuilder.WhereDistanceWithin | src/sqlite-spatialite/query-builder/query-builder.ts:126-132 | appends exactly one condition `ST_Distance(...) <= ?`, an inclusive bound, with the maximum bound |
| QueryBuilder.SpatiaLiteQueryBuilder.OrderBy | src/sqlite-spatialite/query-builder/query-builder.ts:135-138 | appends one ordering, ascending by default; nothing else changes |
| QueryBuilder.SpatiaLiteQueryBuilder.OrderByDistance | src/sqlite-spatialite/query-builder/query-builder.ts:141-147 | appends one ordering by ST_Distance, ascending by default |
| QueryBuilder.SpatiaLiteQueryBuilder.Limit | src/sqlite-spatialite/query-builder/query-builder.ts:150-153 | overwrites the limit (the last call wins); nothing else changes |
| QueryBuilder.SpatiaLiteQueryBuilder.Offset | src/sqlite-spatialite/query-builder/query-builder.ts:156-159 | overwrites the offset (the last call wins); nothing else changes |
| QueryBuilder.SpatiaLiteQueryBuilder.SelectSql | src/sqlite-spatialite/query-builder/query-builder.ts:164-177 | the SELECT clause is `SELECT *` exactly when the selection is empty or a single field whose text is `*` |
| QueryBuilder.Assemble | src/sqlite-spatialite/query-builder/query-builder.ts:210-215 | SELECT first, FROM second, then the clause kinds in strictly increasing rank; each optional clause is present, with its body, exactly when it was built |
| QueryBuilder.SpatiaLiteQueryBuilder.Clauses | src/sqlite-spatialite/query-builder/query-builder.ts:162-215 | SELECT, FROM, then WHERE, ORDER BY, LIMIT, OFFSET in that order; WHERE is present exactly when there are conditions, and carries their texts joined with ` AND `; ORDER BY likewise; LIMIT and OFFSET exactly when set |
| QueryBuilder.SpatiaLiteQueryBuilder.ToSql | src/sqlite-spatialite/query-builder/query-builder.ts:162-218 | the statement starts with the SELECT clause, and its length is the clauses' lengths plus one separator between neighbours |
| QueryBuilder.SpatiaLiteQueryBuilder.ToSqlString | src/sqlite-spatialite/query-builder/query-builder.ts:221-224 | always `SELECT * FROM <table>`, whatever the builder holds |
| PostgisLoader.FlatMember | src/drizzle-pg-postgis/insert_wards.ts:10 | a name is in the flattened sub-county lists exactly when some sub-county lists it |
| PostgisLoader.GetSubCounty | src/drizzle-pg-postgis/insert_wards.ts:8-22 | null exactly when no mapping has a ward name containing the ward case-insensitively; otherwise county_name of the first mapping, in array order, that does |
| PostgisLoader.ListedWardResolves | src/drizzle-pg-postgis/insert_wards.ts:8-22 | a ward listed in a mapping, with no earlier mapping matching, resolves to that mapping's county_name |
| PostgisLoader.CodeOrMissing | src/drizzle-pg-postgis/insert_wards.ts:52-53 | a falsy code (missing or 0) becomes -1; any other code is kept |
| PostgisLoader.MultiPolygon | src/drizzle-pg-postgis/insert_wards.ts:44-47 | the geometry object has exactly the keys type and coordinates, in that order, with type MultiPolygon and the feature's coordinates |
| PostgisLoader.Normalise | src/drizzle-pg-postgis/insert_wards.ts:39-58 | the id is parseInt of the feature id; names and codes are copied, falsy codes become -1; subCounty is "Unknown" exactly when the lookup is null or yields "" or "Unknown", else the lookup; geometry is the JSON text of the MultiPolygon object |
| PostgisLoader.NormaliseAll | src/drizzle-pg-postgis/insert_wards.ts:39-58 | one row per feature, in feature order |
| PostgisLoader.DecimalIdKept | src/drizzle-pg-postgis/insert_wards.ts:51 | a feature whose id is the decimal text of a number keeps that number as its row id |
| PostgisLoader.GeometryText | src/drizzle-pg-postgis/insert_wards.ts:44-56 | the stored text is `{"type":"MultiPolygon","coordinates":` + the coordinates' JSON text + `}` |
| Text.ParseIntRoundTrip | src/drizzle-pg-postgis/insert_wards.ts:51 | parseInt(x, 10) of the decimal text of an integer gives that integer back |
| PushSchema.DefaultText | src/sqlite-spatialite/drizzle/push-schema.ts:23 | ` DEFAULT x` is emitted exactly when the default is defined, and then holds its text |
| PushSchema.NotNullText | src/sqlite-spatialite/drizzle/push-schema.ts:22-23 | ` NOT NULL` precedes the default clause exactly when the column is NOT NULL |
| PushSchema.Suffixes | src/sqlite-spatialite/drizzle/push-schema.ts:21-23 | the suffixes appear in the order PRIMARY KEY, NOT NULL, DEFAULT, each only when its flag holds; empty exactly when no flag holds |
| PushSchema.SuffixesInjective | src/sqlite-spatialite/drizzle/push-schema.ts:21-23 | the suffix text determines the primary, notNull and default of the column |
| PushSchema.QuotedName | src/sqlite-spatialite/drizzle/push-schema.ts:20 | the name between backticks, then a space |
| PushSchema.ColumnSql | src/sqlite-spatialite/drizzle/push-schema.ts:20-24 | a fragment is as long as the name, the type, the quotes and space, and the suffixes together |
| PushSchema.ColumnSqlInjective | src/sqlite-spatialite/drizzle/push-schema.ts:20-24 | for names without backticks, two columns of one type render alike only when they are the same column |
| PushSchema.ColumnSqls | src/sqlite-spatialite/drizzle/push-schema.ts:10-25 | one fragment per column, in declaration order |
| PushSchema.ColumnsTextSnoc | src/sqlite-spatialite/drizzle/push-schema.ts:11-26 | a column added at the end adds the separator `,\n  ` and its fragment after the earlier ones |
| PushSchema.TableToSql | src/sqlite-spatialite/drizzle/push-schema.ts:28 | the statement is ``CREATE TABLE IF NOT EXISTS `name` (\n  ``, the joined column fragments, then `\n);` |
| PushSchema.TableToSqlLength | src/sqlite-spatialite/drizzle/push-schema.ts:7-29 | the statement's length is the fixed text, the name, every fragment and one 4-character separator between neighbours |

## Left out

- The geometric primitives of SpatiaLite and PostGIS are floating-point geometry inside the stores, so they are uninterpreted functions here. So is whether `<->` is planar. Which geometries give a NULL SpatiaLite distance is part of that too; the queries themselves handle a NULL distance as SQLite does, sorting it first and failing it in a `<` filter.
- Tie order among equal distances and among equal rows is the table order, a sequence; the stores' own tie-breaking is not modelled.
- SQLite `LOWER`, `LIKE` case folding and JavaScript `toLowerCase` are modelled as ASCII folding. Unicode folding is not modelled.
- A `%` or `_` inside the user's search text is not treated as a LIKE wildcard: the name search is a plain substring test.
- findAllWardsSimplified (ST_Simplify) and the `main` functions of query-wards_side.ts and query-country.ts are not modelled: one is geometry, the others print.
- Number formatting in JSON.stringify and the text drizzle renders for an SQL object (`toString`) are parameters, `numberText` and `objectText`.
- drizzle's rendering of the assembled SQL to a statement string and its parameter binding are not modelled; the query builder's output stops at the chunk sequence.
- The connection and bootstrap code, the country table load (it reads a file), the maintenance statements (AddGeometryColumn, CreateSpatialIndex, VACUUM, ANALYZE) and concurrency are not modelled.
- createWardUpdatesTable is a separate table, `WardUpdates.WardUpdatesTable`, and is not part of the `SpatialiteDb.Database` setup sequence.
- SpatialiteDb.Database.UpdateEvent: modelled only for the full event table, the one the event-table code creates; updates of the legacy table are not modelled.
- Json.Get: a JSON object with a duplicated key yields the first occurrence.
- PushSchema.DefaultText: the text `${col.default}` interpolates to is a parameter (the `default` string), not derived from the default's JavaScript value.
- Text.ParseInt: a parseInt result of NaN is modelled as None; non-decimal prefixes and numbers beyond 2^53 are not modelled.
- The sub-county mappings and the ward GeoJSON are inputs, not the data files.
- Sync and bundle processing beyond the record validator and the tables is not modelled.
- Coordinates and distances elsewhere are reals: JavaScript's NaN and infinities are modelled only in `CountryQueries.ValidateKenyaCoordinates`, the one place the source compares a raw input number.
- WardQueries.AliasedRowValues: the correction is stated for the select items and their row objects; the `*` fallback for a request with no valid name is the same as written and is modelled only in `FindWardsByCountyPartial`.
- The values the driver returns are `WardQueries.Value`s (integer, real, text, blob or NULL); the JavaScript number a SQLite integer becomes is not distinguished from the integer.

## Findings

| source | as written | input that shows it | evidently intended | confidence | as-written member | corrected member |
|---|---|---|---|---|---|---|
| src/sqlite-spatialite/wards/insert-wards.ts:101-121 | finalizeDb, called by createAndInsertWards before the event-table code (src/sqlite-spatialite/init_sqlite_db.ts:14-17), creates a `kenya_ward_events` table without trigger_by, created_at and updated_at; the later `CREATE TABLE IF NOT EXISTS` in src/sqlite-spatialite/ward-events/create_kenya_ward_events.ts:6-24 is then a no-op, and the insert trigger names trigger_by | a setup on a new database file followed by any ward insert: the insert fails for want of the column trigger_by | the full event table exists when the triggers are installed | medium, not executed | SpatialiteDb.FreshSetupRejectsInserts | SpatialiteDb.FreshSetupAcceptsInserts |
| src/drizzle-pg-postgis/ward-queries.ts:46-63 | ST_DWithin on SRID 4326 geometries compares the radius with a planar distance in degrees, though the radius is named and defaulted as 1000 metres | a ward 500 km (4.5 degrees) from the point is returned by the default search | wards within the radius in metres (a geography comparison) | high, not executed | PostgisQueries.DefaultRadiusIsDegrees | PostgisQueries.FindWardsWithinMeters |
| src/sqlite-spatialite/queries/ward-queries.ts:216-226 | the whitelist maps camelCase field names to unaliased snake_case columns (only geometry carries an `as`), so the row objects are keyed by column name, not by the PartialWard field names the function's return type promises | columns `["wardCode"]`: every object has the single key `ward_code` and no `wardCode` | each selected column aliased to the requested field name | high, not executed | WardQueries.CamelCaseRequestLosesField | WardQueries.AliasedRowValues |
