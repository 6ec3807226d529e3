/**
 * Rows of the `kenya_ward_events` change log: their NOT NULL and CHECK
 * constraints, the event the ward triggers write, and the JSON snapshot of a
 * ward row (json_object with thirteen keys) stored in old_data / new_data.
 */
module WardEvents {
  import opened Options
  import opened Geometry
  import opened WardRows
  import opened Json

  /**
   * A stored event. The columns the table constrains are nullable here so
   * that the constraints can be stated; snapshots are kept as JSON values.
   */
  datatype EventRow = EventRow(
    id: string,
    triggerBy: Option<string>,
    eventType: Option<string>,
    wardId: Option<int>,
    wardCode: Option<string>,
    oldData: Option<Json>,
    newData: Option<Json>,
    timestamp: Option<string>,
    syncStatus: Option<string>,
    syncAttempts: Option<int>,
    lastSyncAttempt: Option<string>,
    createdAt: Option<string>,
    updatedAt: Option<string>,
    errorMessage: Option<string>,
    clientId: Option<string>
  )

  const EventTypes: set<string> := {"INSERT", "UPDATE", "DELETE"}
  const TriggerSources: set<string> := {"REPLAY", "TRIGGER"}
  const SyncStatuses: set<string> := {"PENDING", "SYNCED", "FAILED"}

  /** CHECK(x IN (...)) passes on NULL and on the listed values. */
  predicate CheckIn(v: Option<string>, allowed: set<string>)
  {
    v.None? || v.value in allowed
  }

  /** The table's NOT NULL and CHECK constraints on one row. */
  predicate RowAllowed(e: EventRow)
  {
    CheckIn(e.triggerBy, TriggerSources) &&
    e.eventType.Some? && e.eventType.value in EventTypes &&
    e.timestamp.Some? &&
    e.syncStatus.Some? && e.syncStatus.value in SyncStatuses &&
    e.syncAttempts.Some? &&
    e.createdAt.Some? && e.updatedAt.Some?
  }

  /** id is the PRIMARY KEY: no two stored events share it. */
  predicate IdsDistinct(events: seq<EventRow>)
  {
    forall i, j :: 0 <= i < j < |events| ==> events[i].id != events[j].id
  }

  predicate IdFree(events: seq<EventRow>, id: string)
  {
    forall k :: 0 <= k < |events| ==> events[k].id != id
  }

  /** Appending an event whose id is unused keeps the ids distinct. */
  lemma AppendKeepsIdsDistinct(events: seq<EventRow>, e: EventRow)
    requires IdsDistinct(events) && IdFree(events, e.id)
    ensures IdsDistinct(events + [e])
  {
  }

  datatype EventKind = Insert | Update | Delete

  function KindName(k: EventKind): string
  {
    match k
    case Insert => "INSERT"
    case Update => "UPDATE"
    case Delete => "DELETE"
  }

  /**
   * The row a ward trigger inserts: the ten columns it names, created_at and
   * updated_at from their CURRENT_TIMESTAMP defaults, the rest NULL.
   */
  function TriggerEvent(id: string, kind: EventKind, wardId: int, wardCode: Option<string>,
                        oldData: Option<Json>, newData: Option<Json>, now: string): (e: EventRow)
    ensures RowAllowed(e)
    ensures e.triggerBy == Some("TRIGGER") && e.syncStatus == Some("PENDING") && e.syncAttempts == Some(0)
    ensures e.eventType == Some(KindName(kind)) && e.wardId == Some(wardId) && e.wardCode == wardCode
  {
    EventRow(id, Some("TRIGGER"), Some(KindName(kind)), Some(wardId), wardCode, oldData, newData,
             Some(now), Some("PENDING"), Some(0), None, Some(now), Some(now), None, None)
  }

  // ---------------------------------------------------------------- snapshot

  function StrOrNull(v: Option<string>): Json
  {
    match v
    case None => JNull
    case Some(s) => JStr(s)
  }

  function IntOrNull(v: Option<int>): Json
  {
    match v
    case None => JNull
    case Some(n) => JNum(n as real)
  }

  function RealOrNull(v: Option<real>): Json
  {
    match v
    case None => JNull
    case Some(x) => JNum(x)
  }

  const SnapshotKeys: seq<string> := ["id", "ward_code", "ward", "county", "county_code", "sub_county",
                                      "constituency", "constituency_code", "minx", "miny", "maxx", "maxy", "geom"]

  /** json_object('id', r.id, ..., 'geom', AsGeoJSON(r.geom)): every column, geometry as GeoJSON text. */
  function Snapshot(sp: Spatial, r: WardRow): (j: Json)
    ensures j.JObj? && Keys(j.members) == SnapshotKeys
  {
    JObj([("id", JNum(r.id as real)),
          ("ward_code", StrOrNull(r.wardCode)),
          ("ward", JStr(r.ward)),
          ("county", JStr(r.county)),
          ("county_code", IntOrNull(r.countyCode)),
          ("sub_county", StrOrNull(r.subCounty)),
          ("constituency", JStr(r.constituency)),
          ("constituency_code", IntOrNull(r.constituencyCode)),
          ("minx", RealOrNull(r.bbox.minx)),
          ("miny", RealOrNull(r.bbox.miny)),
          ("maxx", RealOrNull(r.bbox.maxx)),
          ("maxy", RealOrNull(r.bbox.maxy)),
          ("geom", StrOrNull(sp.asGeoJson(r.geom)))])
  }

  /** A snapshot records the whole row: two rows with equal snapshots differ at most in geometry bytes with equal GeoJSON. */
  lemma SnapshotDeterminesRow(sp: Spatial, a: WardRow, b: WardRow)
    requires Snapshot(sp, a) == Snapshot(sp, b)
    ensures a.(geom := b.geom) == b
    ensures sp.asGeoJson(a.geom) == sp.asGeoJson(b.geom)
  {
    var ma, mb := Snapshot(sp, a).members, Snapshot(sp, b).members;
    assert ma[0] == mb[0] && ma[1] == mb[1] && ma[4] == mb[4] && ma[5] == mb[5] && ma[7] == mb[7];
    assert ma[8] == mb[8] && ma[9] == mb[9] && ma[10] == mb[10] && ma[11] == mb[11] && ma[12] == mb[12];
    assert a.id as real == b.id as real;
  }
}
