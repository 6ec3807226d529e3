/**
 * The SpatiaLite database file as the set-up scripts and the ward triggers
 * change it: the `kenya_wards` table with its AUTOINCREMENT counter, the
 * `kenya_ward_events` log the AFTER INSERT/UPDATE/DELETE triggers append to,
 * the `updated_at` refresh trigger on the log, and the `_meta` table.
 *
 * A statement either succeeds as a whole or fails and leaves every table as
 * it was (SQLite rolls back the statement together with its triggers). What
 * CURRENT_TIMESTAMP, randomblob() and random() yield is passed in.
 */
module SpatialiteDb {
  import opened Options
  import opened Geometry
  import opened WardRows
  import opened Json
  import opened WardEvents
  import opened EventIds
  import Text

  datatype DbError =
    | NoSuchTable(table: string)
    | NoSuchColumn(column: string)
    | NotNull(column: string)
    | IntegerOverflow
    | PrimaryKey(table: string)
    | CheckFailed(table: string)

  /**
   * Which CREATE TABLE made `kenya_ward_events`: the one in insert-wards.ts,
   * without trigger_by, created_at and updated_at, or the one in
   * create_kenya_ward_events.ts. Both say IF NOT EXISTS, so the first one run wins.
   */
  datatype EventsSchema = Legacy | Full

  /** The values an INSERT or UPDATE gives the ward columns other than id. */
  datatype WardValues = WardValues(
    wardCode: Option<string>,
    ward: Option<string>,
    county: Option<string>,
    countyCode: Option<int>,
    subCounty: Option<string>,
    constituency: Option<string>,
    constituencyCode: Option<int>,
    bbox: Bbox,
    geom: Option<Geom>
  )

  /** ward, county and constituency are NOT NULL. */
  predicate NotNullOk(v: WardValues)
  {
    v.ward.Some? && v.county.Some? && v.constituency.Some?
  }

  /** The values that reproduce a stored row. */
  function ValuesOf(r: WardRow): (v: WardValues)
    ensures NotNullOk(v)
  {
    WardValues(r.wardCode, Some(r.ward), Some(r.county), r.countyCode, r.subCounty,
               Some(r.constituency), r.constituencyCode, r.bbox, r.geom)
  }

  /** The row the values make under `id`, or the NOT NULL violation that stops it. */
  function MakeRow(id: int, v: WardValues): (r: Result<WardRow, DbError>)
    ensures r.Success? <==> NotNullOk(v)
    ensures r.Success? ==> r.value.id == id && ValuesOf(r.value) == v
  {
    if v.ward.None? then Failure(NotNull("kenya_wards.ward"))
    else if v.county.None? then Failure(NotNull("kenya_wards.county"))
    else if v.constituency.None? then Failure(NotNull("kenya_wards.constituency"))
    else Success(WardRow(id, v.wardCode, v.ward.value, v.county.value, v.countyCode, v.subCounty,
                         v.constituency.value, v.constituencyCode, v.bbox, v.geom))
  }

  /** A stored row is reproduced by writing its values back under its id. */
  lemma ValuesOfRoundTrip(r: WardRow)
    ensures MakeRow(r.id, ValuesOf(r)) == Success(r)
  {
  }

  /** The position of the row with primary key `id`. */
  function IndexOfId(t: seq<WardRow>, id: int): (r: Option<nat>)
    ensures r.None? <==> forall k :: 0 <= k < |t| ==> t[k].id != id
    ensures r.Some? ==> r.value < |t| && t[r.value].id == id
  {
    if |t| == 0 then None
    else if t[0].id == id then Some(0)
    else match IndexOfId(t[1..], id)
      case None => None
      case Some(k) => Some(k + 1)
  }

  /** The position of the event with primary key `id`. */
  function IndexOfEvent(events: seq<EventRow>, id: string): (r: Option<nat>)
    ensures r.None? <==> IdFree(events, id)
    ensures r.Some? ==> r.value < |events| && events[r.value].id == id
  {
    if |events| == 0 then None
    else if events[0].id == id then Some(0)
    else match IndexOfEvent(events[1..], id)
      case None => None
      case Some(k) => Some(k + 1)
  }

  /** The event at `k` is the one its id finds when no other event carries that id. */
  lemma {:induction false} IndexOfEventAt(events: seq<EventRow>, k: nat)
    requires k < |events|
    requires forall j :: 0 <= j < |events| && j != k ==> events[j].id != events[k].id
    ensures IndexOfEvent(events, events[k].id) == Some(k)
  {
    if k > 0 {
      var rest := events[1..];
      assert rest[k - 1] == events[k];
      forall j | 0 <= j < |rest| && j != k - 1
        ensures rest[j].id != rest[k - 1].id
      {
        assert rest[j] == events[j + 1];
      }
      IndexOfEventAt(rest, k - 1);
    }
  }

  /** Replacing one event by an allowed row with that id or an unused one keeps the table's constraints. */
  lemma ReplaceEventKeepsTable(events: seq<EventRow>, k: nat, row: EventRow)
    requires k < |events| && IdsDistinct(events) && AllAllowed(events)
    requires RowAllowed(row) && (row.id == events[k].id || IdFree(events, row.id))
    ensures IdsDistinct(events[k := row]) && AllAllowed(events[k := row])
    ensures forall j :: 0 <= j < |events| && j != k ==> events[j].id != row.id
  {
  }

  predicate AllAllowed(events: seq<EventRow>)
  {
    forall j :: 0 <= j < |events| ==> RowAllowed(events[j])
  }

  /** Appending what a trigger logs under a free id keeps the event table's constraints. */
  lemma TriggeredKeepsLog(events: seq<EventRow>, logged: seq<EventRow>, on: bool, rnd: Randomness)
    requires WellSized(rnd) && IdsDistinct(events) && AllAllowed(events)
    requires |logged| == (if on then 1 else 0) && forall k :: 0 <= k < |logged| ==> RowAllowed(logged[k])
    requires on ==> EventId(rnd).Some? && logged[0].id == EventId(rnd).value && IdFree(events, EventId(rnd).value)
    ensures IdsDistinct(events + logged) && AllAllowed(events + logged)
  {
    if on {
      AppendKeepsIdsDistinct(events, logged[0]);
      assert logged == [logged[0]];
    } else {
      assert events + logged == events;
    }
  }

  /** Removing a row keeps every row id within (0, seq]. */
  lemma RemoveKeepsBounds(t: seq<WardRow>, k: nat, wardSeq: int, u: seq<WardRow>)
    requires k < |t| && forall i :: 0 <= i < |t| ==> 0 < t[i].id <= wardSeq
    requires u == t[..k] + t[k + 1..]
    ensures forall i :: 0 <= i < |u| ==> 0 < u[i].id <= wardSeq
  {
    forall i | 0 <= i < |u| ensures 0 < u[i].id <= wardSeq {
      assert u[i] == if i < k then t[i] else t[i + 1];
    }
  }

  /** Removing a row keeps row ids ascending. */
  lemma RemoveKeepsAscending(t: seq<WardRow>, k: nat)
    requires IdsAscending(t) && k < |t|
    ensures IdsAscending(t[..k] + t[k + 1..])
  {
    var u := t[..k] + t[k + 1..];
    forall i, j | 0 <= i < j < |u|
      ensures u[i].id < u[j].id
    {
      var i', j' := if i < k then i else i + 1, if j < k then j else j + 1;
      assert u[i] == t[i'] && u[j] == t[j'];
    }
  }

  /**
   * The events a ward trigger appends when it fires: none when the triggers
   * are not installed, else one event with the id the randomness yields.
   */
  function Triggered(on: bool, rnd: Randomness, kind: EventKind, wardId: int, wardCode: Option<string>,
                     oldData: Option<Json>, newData: Option<Json>, now: string): (r: seq<EventRow>)
    requires WellSized(rnd)
    requires on ==> EventId(rnd).Some?
    ensures |r| == (if on then 1 else 0)
    ensures on ==> r[0].id == EventId(rnd).value && UuidV4Shape(r[0].id)
    ensures forall k :: 0 <= k < |r| ==> RowAllowed(r[k]) && r[k].eventType == Some(KindName(kind))
    ensures forall k :: 0 <= k < |r| ==> r[k].wardId == Some(wardId) && r[k].wardCode == wardCode
    ensures forall k :: 0 <= k < |r| ==> r[k].oldData == oldData && r[k].newData == newData
  {
    if on then [TriggerEvent(EventId(rnd).value, kind, wardId, wardCode, oldData, newData, now)] else []
  }

  /** A ward feature of the GeoJSON file: the properties the loader reads, and its geometry. */
  datatype Feature = Feature(
    wardcode: Option<string>,
    ward: Option<string>,
    county: Option<string>,
    countycode: Option<int>,
    subCounty: Option<string>,
    const_: Option<string>,
    constcode: Option<int>,
    geometry: Json
  )

  /**
   * The INSERT parameters of one feature: `sub_county || null` turns an empty
   * name into NULL, and the geometry is the stored form of its GeoJSON text.
   */
  function FeatureValues(sp: Spatial, numberText: real -> string, f: Feature): (v: WardValues)
    ensures v.subCounty.None? <==> f.subCounty.None? || f.subCounty == Some("")
    ensures v.subCounty.Some? ==> v.subCounty == f.subCounty
    ensures v.geom == sp.fromGeoJson(Stringify(f.geometry, numberText)) && v.bbox == NullBbox
    ensures NotNullOk(v) <==> f.ward.Some? && f.county.Some? && f.const_.Some?
  {
    var sub := if f.subCounty == Some("") then None else f.subCounty;
    WardValues(f.wardcode, f.ward, f.county, f.countycode, sub, f.const_, f.constcode,
               NullBbox, sp.fromGeoJson(Stringify(f.geometry, numberText)))
  }

  predicate Loadable(f: Feature)
  {
    f.ward.Some? && f.county.Some? && f.const_.Some?
  }

  /** The row one feature becomes: inserted with NULL bbox, then given the MBR of its geometry. */
  function LoadedRow(sp: Spatial, numberText: real -> string, f: Feature, id: int): (r: WardRow)
    requires Loadable(f)
    ensures r.id == id && BboxCached(sp, r)
    ensures r == MakeRow(id, FeatureValues(sp, numberText, f)).value.(bbox := MbrColumns(sp, r.geom))
  {
    var row := MakeRow(id, FeatureValues(sp, numberText, f)).value;
    row.(bbox := MbrColumns(sp, row.geom))
  }

  /** The rows a list of features becomes, numbered from `base + 1`. */
  function LoadedRows(sp: Spatial, numberText: real -> string, fs: seq<Feature>, base: int): (t: seq<WardRow>)
    requires forall i :: 0 <= i < |fs| ==> Loadable(fs[i])
    ensures |t| == |fs|
    ensures forall i :: 0 <= i < |t| ==> t[i] == LoadedRow(sp, numberText, fs[i], base + i + 1)
  {
    seq(|fs|, i requires 0 <= i < |fs| => LoadedRow(sp, numberText, fs[i], base + i + 1))
  }

  /** A loaded table has every bbox cached, ids 1..n in order, and one row per feature. */
  lemma LoadedTableShape(sp: Spatial, numberText: real -> string, fs: seq<Feature>)
    requires forall i :: 0 <= i < |fs| ==> Loadable(fs[i])
    ensures var t := LoadedRows(sp, numberText, fs, 0);
      AllBboxCached(sp, t) && IdsAscending(t) && forall i :: 0 <= i < |t| ==> t[i].id == i + 1
  {
  }

  /** The rows of the first `n` features. */
  function LoadedPrefix(sp: Spatial, numberText: real -> string, fs: seq<Feature>, n: nat, base: int): (t: seq<WardRow>)
    requires n <= |fs| && forall i :: 0 <= i < n ==> Loadable(fs[i])
    ensures |t| == n
  {
    seq(n, i requires 0 <= i < n => LoadedRow(sp, numberText, fs[i], base + i + 1))
  }

  lemma LoadedPrefixSnoc(sp: Spatial, numberText: real -> string, fs: seq<Feature>, n: nat, base: int)
    requires n < |fs| && forall i :: 0 <= i <= n ==> Loadable(fs[i])
    ensures LoadedPrefix(sp, numberText, fs, n + 1, base)
            == LoadedPrefix(sp, numberText, fs, n, base) + [LoadedRow(sp, numberText, fs[n], base + n + 1)]
  {
  }

  lemma LoadedPrefixAll(sp: Spatial, numberText: real -> string, fs: seq<Feature>, base: int)
    requires forall i :: 0 <= i < |fs| ==> Loadable(fs[i])
    ensures LoadedPrefix(sp, numberText, fs, |fs|, base) == LoadedRows(sp, numberText, fs, base)
  {
  }

  /** Loaded rows appended after a table whose ids stay at or below `base` keep ids ascending and bounded. */
  lemma AppendLoadedValid(sp: Spatial, numberText: real -> string, t: seq<WardRow>, base: int, fs: seq<Feature>)
    requires forall i :: 0 <= i < |fs| ==> Loadable(fs[i])
    requires base >= 0 && IdsAscending(t) && forall i :: 0 <= i < |t| ==> 0 < t[i].id <= base
    ensures var u := t + LoadedRows(sp, numberText, fs, base);
      IdsAscending(u) && forall i :: 0 <= i < |u| ==> 0 < u[i].id <= base + |fs|
  {
    var u := t + LoadedRows(sp, numberText, fs, base);
    forall i | 0 <= i < |u|
      ensures 0 < u[i].id <= base + |fs| && (i >= |t| ==> u[i].id == base + (i - |t|) + 1)
    {
    }
  }

  /**
   * The constraints the stored state keeps: ascending ward ids, each at most
   * the AUTOINCREMENT counter; no wards or triggers without the table; no
   * events without the full event table; every event allowed by its CHECKs,
   * and event ids distinct.
   */
  ghost predicate StoreValid(wards: seq<WardRow>, wardSeq: int, hasWardsTable: bool, triggersInstalled: bool,
                             eventsTable: Option<EventsSchema>, events: seq<EventRow>)
  {
    IdsAscending(wards) && wardSeq >= 0 &&
    (forall i :: 0 <= i < |wards| ==> 0 < wards[i].id <= wardSeq) &&
    (!hasWardsTable ==> wards == [] && wardSeq == 0 && !triggersInstalled) &&
    (eventsTable != Some(Full) ==> events == []) &&
    (forall k :: 0 <= k < |events| ==> RowAllowed(events[k])) &&
    IdsDistinct(events)
  }

  /** Deleting a row of a compiling store and logging what its trigger logs keeps the constraints. */
  lemma DeleteKeepsValid(wards: seq<WardRow>, wardSeq: int, triggersInstalled: bool,
                         eventsTable: Option<EventsSchema>, events: seq<EventRow>, k: nat, logged: seq<EventRow>, rnd: Randomness)
    requires StoreValid(wards, wardSeq, true, triggersInstalled, eventsTable, events) && k < |wards|
    requires triggersInstalled ==> eventsTable == Some(Full)
    requires WellSized(rnd)
    requires |logged| == (if triggersInstalled then 1 else 0) && forall j :: 0 <= j < |logged| ==> RowAllowed(logged[j])
    requires triggersInstalled ==> EventId(rnd).Some? && logged[0].id == EventId(rnd).value && IdFree(events, EventId(rnd).value)
    ensures StoreValid(wards[..k] + wards[k + 1..], wardSeq, true, triggersInstalled, eventsTable, events + logged)
  {
    TriggeredKeepsLog(events, logged, triggersInstalled, rnd);
    RemoveKeepsAscending(wards, k);
    RemoveKeepsBounds(wards, k, wardSeq, wards[..k] + wards[k + 1..]);
  }

  /** Appending a row under the next id of a compiling store and logging what its trigger logs keeps the constraints. */
  lemma InsertKeepsValid(wards: seq<WardRow>, wardSeq: int, triggersInstalled: bool,
                         eventsTable: Option<EventsSchema>, events: seq<EventRow>, row: WardRow, logged: seq<EventRow>, rnd: Randomness)
    requires StoreValid(wards, wardSeq, true, triggersInstalled, eventsTable, events) && row.id == wardSeq + 1
    requires triggersInstalled ==> eventsTable == Some(Full)
    requires WellSized(rnd)
    requires |logged| == (if triggersInstalled then 1 else 0) && forall j :: 0 <= j < |logged| ==> RowAllowed(logged[j])
    requires triggersInstalled ==> EventId(rnd).Some? && logged[0].id == EventId(rnd).value && IdFree(events, EventId(rnd).value)
    ensures StoreValid(wards + [row], row.id, true, triggersInstalled, eventsTable, events + logged)
  {
    TriggeredKeepsLog(events, logged, triggersInstalled, rnd);
    assert forall j :: 0 <= j < |wards| ==> wards[j].id < row.id;
  }

  /** Rewriting a row under its own id and logging what its trigger logs keeps the constraints. */
  lemma ReplaceWardKeepsValid(wards: seq<WardRow>, wardSeq: int, triggersInstalled: bool,
                              eventsTable: Option<EventsSchema>, events: seq<EventRow>, k: nat, row: WardRow,
                              logged: seq<EventRow>, rnd: Randomness)
    requires StoreValid(wards, wardSeq, true, triggersInstalled, eventsTable, events) && k < |wards| && row.id == wards[k].id
    requires triggersInstalled ==> eventsTable == Some(Full)
    requires WellSized(rnd)
    requires |logged| == (if triggersInstalled then 1 else 0) && forall j :: 0 <= j < |logged| ==> RowAllowed(logged[j])
    requires triggersInstalled ==> EventId(rnd).Some? && logged[0].id == EventId(rnd).value && IdFree(events, EventId(rnd).value)
    ensures StoreValid(wards[k := row], wardSeq, true, triggersInstalled, eventsTable, events + logged)
  {
    TriggeredKeepsLog(events, logged, triggersInstalled, rnd);
  }

  /** Replacing one event by an allowed row with that id or an unused one keeps the constraints. */
  lemma ReplaceEventKeepsValid(wards: seq<WardRow>, wardSeq: int, hasWardsTable: bool, triggersInstalled: bool,
                               eventsTable: Option<EventsSchema>, events: seq<EventRow>, k: nat, row: EventRow)
    requires StoreValid(wards, wardSeq, hasWardsTable, triggersInstalled, eventsTable, events) && k < |events|
    requires RowAllowed(row) && (row.id == events[k].id || IdFree(events, row.id))
    ensures StoreValid(wards, wardSeq, hasWardsTable, triggersInstalled, eventsTable, events[k := row])
  {
    ReplaceEventKeepsTable(events, k, row);
  }

  const SchemaVersionKey := "schema_version"
  const WardsCountKey := "wards_count"

  class Database {
    const sp: Spatial
    const numberText: real -> string
    var hasWardsTable: bool
    var wards: seq<WardRow>
    /** The sqlite_sequence entry of kenya_wards: the largest id ever handed out. */
    var wardSeq: int
    /** ward_insert_trigger, ward_update_trigger and ward_delete_trigger. */
    var triggersInstalled: bool
    var eventsTable: Option<EventsSchema>
    /** update_ward_events_timestamp. */
    var timestampTrigger: bool
    var events: seq<EventRow>
    var meta: map<string, string>

    ghost predicate Valid()
      reads this
    {
      StoreValid(wards, wardSeq, hasWardsTable, triggersInstalled, eventsTable, events)
    }

    /** A new, empty database file. */
    constructor (sp: Spatial, numberText: real -> string)
      ensures Valid()
      ensures this.sp == sp && this.numberText == numberText
      ensures !hasWardsTable && wards == [] && wardSeq == 0 && !triggersInstalled
      ensures eventsTable == None && !timestampTrigger && events == [] && meta == map[]
    {
      this.sp := sp;
      this.numberText := numberText;
      hasWardsTable, wards, wardSeq, triggersInstalled := false, [], 0, false;
      eventsTable, timestampTrigger, events, meta := None, false, [], map[];
    }

    /**
     * A statement on kenya_wards compiles: the table exists, and so do the
     * events table and the columns the installed triggers write.
     */
    predicate Compiles()
      reads this
    {
      hasWardsTable && (triggersInstalled ==> eventsTable == Some(Full))
    }

    /** The trigger, if installed, can log under a fresh id. */
    predicate CanLog(rnd: Randomness)
      reads this
      requires WellSized(rnd)
    {
      !triggersInstalled || (EventId(rnd).Some? && IdFree(events, EventId(rnd).value))
    }

    /** The error a statement on kenya_wards stops with when it does not compile. */
    function CompileError(): DbError
      reads this
    {
      if !hasWardsTable then NoSuchTable("kenya_wards")
      else if eventsTable.None? then NoSuchTable("kenya_ward_events")
      else NoSuchColumn("trigger_by")
    }

    /** The error a firing trigger stops with when it cannot log. */
    function LogError(rnd: Randomness): DbError
      requires WellSized(rnd)
    {
      if EventId(rnd).None? then IntegerOverflow else PrimaryKey("kenya_ward_events")
    }

    /** DROP TABLE IF EXISTS kenya_wards, then CREATE TABLE: empty, counter reset, its triggers gone. */
    method CreateWardsTable()
      requires Valid()
      modifies this
      ensures Valid()
      ensures hasWardsTable && wards == [] && wardSeq == 0 && !triggersInstalled
      ensures eventsTable == old(eventsTable) && timestampTrigger == old(timestampTrigger)
      ensures events == old(events) && meta == old(meta)
    {
      hasWardsTable, wards, wardSeq, triggersInstalled := true, [], 0, false;
    }

    /** INSERT INTO kenya_wards: the new row takes the next AUTOINCREMENT id. */
    method InsertWard(v: WardValues, rnd: Randomness, now: string) returns (res: Result<int, DbError>)
      requires Valid() && WellSized(rnd)
      modifies this
      ensures Valid()
      ensures hasWardsTable == old(hasWardsTable) && triggersInstalled == old(triggersInstalled)
      ensures eventsTable == old(eventsTable) && timestampTrigger == old(timestampTrigger) && meta == old(meta)
      ensures res.Success? <==> old(Compiles()) && NotNullOk(v) && old(CanLog(rnd))
      ensures !old(Compiles()) ==> res == Failure(old(CompileError()))
      ensures res.Success? ==>
        var row := MakeRow(old(wardSeq) + 1, v).value;
        res.value == row.id && wardSeq == row.id && wards == old(wards) + [row] &&
        events == old(events) + Triggered(triggersInstalled, rnd, Insert, row.id, row.wardCode,
                                          None, Some(Snapshot(sp, row)), now)
      ensures res.Failure? ==> wards == old(wards) && wardSeq == old(wardSeq) && events == old(events)
    {
      if !Compiles() {
        return Failure(CompileError());
      }
      var made := MakeRow(wardSeq + 1, v);
      if made.Failure? {
        return Failure(made.error);
      }
      if !CanLog(rnd) {
        return Failure(LogError(rnd));
      }
      var row := made.value;
      var logged := Triggered(triggersInstalled, rnd, Insert, row.id, row.wardCode, None, Some(Snapshot(sp, row)), now);
      InsertKeepsValid(wards, wardSeq, triggersInstalled, eventsTable, events, row, logged, rnd);
      wards, wardSeq, events := wards + [row], row.id, events + logged;
      res := Success(row.id);
    }

    /** UPDATE kenya_wards SET <every column> WHERE id = ?; the result is the number of rows changed. */
    method UpdateWard(id: int, v: WardValues, rnd: Randomness, now: string) returns (res: Result<nat, DbError>)
      requires Valid() && WellSized(rnd)
      modifies this
      ensures Valid()
      ensures hasWardsTable == old(hasWardsTable) && triggersInstalled == old(triggersInstalled) && wardSeq == old(wardSeq)
      ensures eventsTable == old(eventsTable) && timestampTrigger == old(timestampTrigger) && meta == old(meta)
      ensures IndexOfId(old(wards), id).None? && old(Compiles()) ==>
                res == Success(0) && wards == old(wards) && events == old(events)
      ensures res.Success? <==>
                old(Compiles()) && (IndexOfId(old(wards), id).Some? ==> NotNullOk(v) && old(CanLog(rnd)))
      ensures res.Success? && IndexOfId(old(wards), id).Some? ==>
        var k := IndexOfId(old(wards), id).value;
        var row := MakeRow(id, v).value;
        res.value == 1 && wards == old(wards)[k := row] &&
        events == old(events) + Triggered(triggersInstalled, rnd, Update, id, row.wardCode,
                                          Some(Snapshot(sp, old(wards)[k])), Some(Snapshot(sp, row)), now)
      ensures res.Failure? ==> wards == old(wards) && events == old(events)
    {
      if !Compiles() {
        return Failure(CompileError());
      }
      var found := IndexOfId(wards, id);
      if found.None? {
        return Success(0);
      }
      var k := found.value;
      var made := MakeRow(id, v);
      if made.Failure? {
        return Failure(made.error);
      }
      if !CanLog(rnd) {
        return Failure(LogError(rnd));
      }
      var row := made.value;
      var logged := Triggered(triggersInstalled, rnd, Update, id, row.wardCode,
                              Some(Snapshot(sp, wards[k])), Some(Snapshot(sp, row)), now);
      ReplaceWardKeepsValid(wards, wardSeq, triggersInstalled, eventsTable, events, k, row, logged, rnd);
      wards, events := wards[k := row], events + logged;
      res := Success(1);
    }

    /** DELETE FROM kenya_wards WHERE id = ?; the result is the number of rows removed. */
    method DeleteWard(id: int, rnd: Randomness, now: string) returns (res: Result<nat, DbError>)
      requires Valid() && WellSized(rnd)
      modifies this
      ensures Valid()
      ensures hasWardsTable == old(hasWardsTable) && triggersInstalled == old(triggersInstalled) && wardSeq == old(wardSeq)
      ensures eventsTable == old(eventsTable) && timestampTrigger == old(timestampTrigger) && meta == old(meta)
      ensures IndexOfId(old(wards), id).None? && old(Compiles()) ==>
                res == Success(0) && wards == old(wards) && events == old(events)
      ensures res.Success? <==> old(Compiles()) && (IndexOfId(old(wards), id).Some? ==> old(CanLog(rnd)))
      ensures res.Success? && IndexOfId(old(wards), id).Some? ==>
        var k := IndexOfId(old(wards), id).value;
        res.value == 1 && wards == old(wards)[..k] + old(wards)[k + 1..] &&
        events == old(events) + Triggered(triggersInstalled, rnd, Delete, id, old(wards)[k].wardCode,
                                          Some(Snapshot(sp, old(wards)[k])), None, now)
      ensures res.Failure? ==> wards == old(wards) && events == old(events)
    {
      if !Compiles() {
        return Failure(CompileError());
      }
      var found := IndexOfId(wards, id);
      if found.None? {
        return Success(0);
      }
      var k := found.value;
      if !CanLog(rnd) {
        return Failure(LogError(rnd));
      }
      var logged := Triggered(triggersInstalled, rnd, Delete, id, wards[k].wardCode,
                              Some(Snapshot(sp, wards[k])), None, now);
      DeleteKeepsValid(wards, wardSeq, triggersInstalled, eventsTable, events, k, logged, rnd);
      wards, events := wards[..k] + wards[k + 1..], events + logged;
      res := Success(1);
    }

    /** CREATE TRIGGER IF NOT EXISTS for insert, update and delete; a second run changes nothing. */
    method CreateTriggers() returns (res: Result<(), DbError>)
      requires Valid()
      modifies this
      ensures Valid()
      ensures res.Success? <==> old(hasWardsTable)
      ensures triggersInstalled == (old(triggersInstalled) || old(hasWardsTable))
      ensures hasWardsTable == old(hasWardsTable) && wards == old(wards) && wardSeq == old(wardSeq)
      ensures eventsTable == old(eventsTable) && timestampTrigger == old(timestampTrigger)
      ensures events == old(events) && meta == old(meta)
    {
      if !hasWardsTable {
        return Failure(NoSuchTable("kenya_wards"));
      }
      triggersInstalled := true;
      res := Success(());
    }

    /** create_kenya_ward_events.ts: the events table if none exists yet, and its updated_at trigger. */
    method CreateWardEventsTable()
      requires Valid()
      modifies this
      ensures Valid()
      ensures eventsTable == (if old(eventsTable).None? then Some(Full) else old(eventsTable))
      ensures timestampTrigger
      ensures hasWardsTable == old(hasWardsTable) && wards == old(wards) && wardSeq == old(wardSeq)
      ensures triggersInstalled == old(triggersInstalled) && events == old(events) && meta == old(meta)
    {
      if eventsTable.None? {
        eventsTable := Some(Full);
      }
      timestampTrigger := true;
    }

    /**
     * UPDATE kenya_ward_events SET <every column> WHERE id = ?, followed by
     * update_ward_events_timestamp, which sets updated_at on the row the
     * update produced; the result is the number of rows changed.
     */
    method UpdateEvent(id: string, newRow: EventRow, now: string) returns (res: Result<nat, DbError>)
      requires Valid() && eventsTable == Some(Full)
      modifies this
      ensures Valid()
      ensures hasWardsTable == old(hasWardsTable) && wards == old(wards) && wardSeq == old(wardSeq)
      ensures triggersInstalled == old(triggersInstalled) && eventsTable == old(eventsTable)
      ensures timestampTrigger == old(timestampTrigger) && meta == old(meta)
      ensures IndexOfEvent(old(events), id).None? ==> res == Success(0) && events == old(events)
      ensures res.Success? <==>
        (IndexOfEvent(old(events), id).Some? ==>
           RowAllowed(newRow) && (newRow.id == id || IdFree(old(events), newRow.id)))
      ensures res.Success? && IndexOfEvent(old(events), id).Some? ==>
        var k := IndexOfEvent(old(events), id).value;
        res.value == 1 && |events| == |old(events)| &&
        events == old(events)[k := if timestampTrigger then newRow.(updatedAt := Some(now)) else newRow]
      ensures res.Failure? ==> events == old(events)
    {
      var found := IndexOfEvent(events, id);
      if found.None? {
        return Success(0);
      }
      var k := found.value;
      if !RowAllowed(newRow) {
        return Failure(CheckFailed("kenya_ward_events"));
      }
      if newRow.id != id && !IdFree(events, newRow.id) {
        return Failure(PrimaryKey("kenya_ward_events"));
      }
      ReplaceEventKeepsValid(wards, wardSeq, hasWardsTable, triggersInstalled, eventsTable, events, k, newRow);
      events := events[k := newRow];
      if timestampTrigger {
        // WHERE id = NEW.id: the primary key leads back to the row just updated
        IndexOfEventAt(events, k);
        ReplaceEventKeepsValid(wards, wardSeq, hasWardsTable, triggersInstalled, eventsTable, events, k,
                               events[k].(updatedAt := Some(now)));
        events := events[k := events[k].(updatedAt := Some(now))];
      }
      res := Success(1);
    }

    /**
     * The bulk load of insert-wards.ts, in one transaction: each feature is
     * inserted, then its bbox is set from the MBR of its geometry. The first
     * feature that fails aborts the transaction and undoes the whole load.
     */
    method InsertWardsData(features: seq<Feature>) returns (res: Result<(), DbError>)
      requires Valid() && hasWardsTable && !triggersInstalled
      modifies this`wards, this`wardSeq
      ensures Valid()
      ensures res.Success? <==> forall i :: 0 <= i < |features| ==> Loadable(features[i])
      ensures res.Success? ==>
        wards == old(wards) + LoadedRows(sp, numberText, features, old(wardSeq)) &&
        wardSeq == old(wardSeq) + |features|
      ensures res.Failure? ==> wards == old(wards) && wardSeq == old(wardSeq)
    {
      var savedWards, savedSeq := wards, wardSeq;
      var i := 0;
      while i < |features|
        invariant 0 <= i <= |features|
        invariant forall j :: 0 <= j < i ==> Loadable(features[j])
        invariant wards == savedWards + LoadedPrefix(sp, numberText, features, i, savedSeq)
        invariant wardSeq == savedSeq + i
      {
        var step := LoadFeature(features[i]);
        if step.Failure? {
          wards, wardSeq := savedWards, savedSeq;
          return step;
        }
        LoadedPrefixSnoc(sp, numberText, features, i, savedSeq);
        i := i + 1;
      }
      LoadedPrefixAll(sp, numberText, features, savedSeq);
      AppendLoadedValid(sp, numberText, savedWards, savedSeq, features);
      res := Success(());
    }

    /** insert.run(...) for one feature, then updateBbox.run() on the row it made. */
    method LoadFeature(f: Feature) returns (res: Result<(), DbError>)
      modifies this`wards, this`wardSeq
      ensures res.Success? <==> Loadable(f)
      ensures res.Success? ==>
        wards == old(wards) + [LoadedRow(sp, numberText, f, old(wardSeq) + 1)] && wardSeq == old(wardSeq) + 1
      ensures res.Failure? ==> wards == old(wards) && wardSeq == old(wardSeq)
    {
      var made := MakeRow(wardSeq + 1, FeatureValues(sp, numberText, f));
      if made.Failure? {
        return Failure(made.error);
      }
      wards, wardSeq := wards + [made.value], wardSeq + 1;
      // UPDATE ... WHERE rowid = last_insert_rowid()
      var last := |wards| - 1;
      wards := wards[last := wards[last].(bbox := MbrColumns(sp, wards[last].geom))];
      res := Success(());
    }

    /**
     * The tail of the load: the legacy events table if none exists yet, and
     * the schema version and feature count in _meta (INSERT OR REPLACE).
     */
    method FinalizeDb(featureCount: nat)
      requires Valid()
      modifies this
      ensures Valid()
      ensures eventsTable == (if old(eventsTable).None? then Some(Legacy) else old(eventsTable))
      ensures meta == old(meta)[SchemaVersionKey := "1.0"][WardsCountKey := Text.IntToString(featureCount)]
      ensures hasWardsTable == old(hasWardsTable) && wards == old(wards) && wardSeq == old(wardSeq)
      ensures triggersInstalled == old(triggersInstalled) && timestampTrigger == old(timestampTrigger)
      ensures events == old(events)
    {
      if eventsTable.None? {
        eventsTable := Some(Legacy);
      }
      meta := meta[SchemaVersionKey := "1.0"][WardsCountKey := Text.IntToString(featureCount)];
    }

    /** createAndInsertWards: recreate the table, load it (it is always empty here), record the metadata. */
    method CreateAndInsertWards(features: seq<Feature>) returns (res: Result<(), DbError>)
      requires Valid()
      modifies this
      ensures Valid()
      ensures hasWardsTable && !triggersInstalled && wardSeq == |wards|
      ensures timestampTrigger == old(timestampTrigger) && events == old(events)
      ensures res.Success? <==> forall i :: 0 <= i < |features| ==> Loadable(features[i])
      ensures res.Success? ==>
        wards == LoadedRows(sp, numberText, features, 0) &&
        eventsTable == (if old(eventsTable).None? then Some(Legacy) else old(eventsTable)) &&
        meta == old(meta)[SchemaVersionKey := "1.0"][WardsCountKey := Text.IntToString(|features|)]
      ensures res.Failure? ==> wards == [] && eventsTable == old(eventsTable) && meta == old(meta)
    {
      CreateWardsTable();
      var count := |wards|;
      if count == 0 {
        res := InsertWardsData(features);
        if res.Failure? {
          return;
        }
        FinalizeDb(|features|);
      }
      res := Success(());
    }

    /**
     * setupDb of init_sqlite_db.ts, for the tables of this model: load the
     * wards, create the events table, install the triggers. The load runs
     * first, so on a new file the events table is the legacy one.
     */
    method Setup(features: seq<Feature>) returns (res: Result<(), DbError>)
      requires Valid()
      modifies this
      ensures Valid()
      ensures res.Success? <==> forall i :: 0 <= i < |features| ==> Loadable(features[i])
      ensures res.Success? ==>
        triggersInstalled && timestampTrigger && events == old(events) &&
        wards == LoadedRows(sp, numberText, features, 0) && wardSeq == |features|
      ensures res.Success? ==> hasWardsTable
      ensures res.Success? && old(eventsTable).None? ==> eventsTable == Some(Legacy)
    {
      res := CreateAndInsertWards(features);
      if res.Failure? {
        return;
      }
      CreateWardEventsTable();
      var t := CreateTriggers();
    }

    /** Setup with the events table created before the load, so that its full schema is the one kept. */
    method SetupEventsFirst(features: seq<Feature>) returns (res: Result<(), DbError>)
      requires Valid()
      modifies this
      ensures Valid()
      ensures res.Success? <==> forall i :: 0 <= i < |features| ==> Loadable(features[i])
      ensures res.Success? ==>
        triggersInstalled && timestampTrigger && events == old(events) &&
        wards == LoadedRows(sp, numberText, features, 0) && wardSeq == |features|
      ensures res.Success? ==> hasWardsTable
      ensures res.Success? && old(eventsTable) in {None, Some(Full)} ==> eventsTable == Some(Full)
    {
      CreateWardEventsTable();
      res := CreateAndInsertWards(features);
      if res.Failure? {
        return;
      }
      var t := CreateTriggers();
    }
  }

  /**
   * On a new file, after setupDb, every ward insert fails: the triggers write
   * trigger_by, which the events table that insert-wards.ts created lacks.
   */
  method FreshSetupRejectsInserts(sp: Spatial, numberText: real -> string, features: seq<Feature>,
                                  v: WardValues, rnd: Randomness, now: string)
    returns (eventCount: nat, r: Result<int, DbError>)
    requires forall i :: 0 <= i < |features| ==> Loadable(features[i])
    requires WellSized(rnd)
    ensures eventCount == 0
    ensures r == Failure(NoSuchColumn("trigger_by"))
  {
    var db := new Database(sp, numberText);
    var s := db.Setup(features);
    eventCount := |db.events|;
    r := db.InsertWard(v, rnd, now);
  }

  /**
   * With the events table created first, a new file starts with no events and
   * accepts an insert exactly when its NOT NULL columns are given and the
   * event id can be formed.
   */
  method FreshSetupAcceptsInserts(sp: Spatial, numberText: real -> string, features: seq<Feature>,
                                  v: WardValues, rnd: Randomness, now: string)
    returns (eventCount: nat, r: Result<int, DbError>, logged: nat)
    requires forall i :: 0 <= i < |features| ==> Loadable(features[i])
    requires WellSized(rnd)
    ensures eventCount == 0
    ensures r.Success? <==> NotNullOk(v) && rnd.random != Int64Min
    ensures r.Success? ==> r.value == |features| + 1 && logged == 1
  {
    var db := new Database(sp, numberText);
    var s := db.SetupEventsFirst(features);
    eventCount := |db.events|;
    r := db.InsertWard(v, rnd, now);
    logged := |db.events|;
  }

  /** With the triggers installed, inserting a complete ward appends it and logs one INSERT event for it. */
  method InsertLogged(db: Database, v: WardValues, rnd: Randomness, now: string) returns (id: int)
    requires db.Valid() && db.Compiles() && db.triggersInstalled && NotNullOk(v)
    requires WellSized(rnd) && EventId(rnd).Some? && IdFree(db.events, EventId(rnd).value)
    modifies db
    ensures db.Valid() && db.Compiles() && db.triggersInstalled
    ensures id == old(db.wardSeq) + 1
    ensures |db.wards| == |old(db.wards)| + 1 && db.wards[..|old(db.wards)|] == old(db.wards) && db.wards[|old(db.wards)|].id == id
    ensures |db.events| == |old(db.events)| + 1 && db.events[..|old(db.events)|] == old(db.events)
    ensures db.events[|old(db.events)|].eventType == Some("INSERT") && db.events[|old(db.events)|].wardId == Some(id)
    ensures db.events[|old(db.events)|].id == EventId(rnd).value
  {
    var inserted := db.InsertWard(v, rnd, now);
    id := inserted.value;
  }

  /** The row at `k` is the only one with its id. */
  lemma IndexOfIdAt(t: seq<WardRow>, k: nat)
    requires IdsAscending(t) && k < |t|
    ensures IndexOfId(t, t[k].id) == Some(k)
  {
  }

  /** With the triggers installed, updating the ward at `k` rewrites that row only and logs one UPDATE event for it. */
  method UpdateLogged(db: Database, k: nat, v: WardValues, rnd: Randomness, now: string)
    requires db.Valid() && db.Compiles() && db.triggersInstalled && NotNullOk(v) && k < |db.wards|
    requires WellSized(rnd) && EventId(rnd).Some? && IdFree(db.events, EventId(rnd).value)
    modifies db
    ensures db.Valid() && db.Compiles() && db.triggersInstalled
    ensures |db.wards| == |old(db.wards)| && db.wards[..k] == old(db.wards)[..k] && db.wards[k].id == old(db.wards)[k].id
    ensures |db.events| == |old(db.events)| + 1 && db.events[..|old(db.events)|] == old(db.events)
    ensures db.events[|old(db.events)|].eventType == Some("UPDATE")
    ensures db.events[|old(db.events)|].wardId == Some(old(db.wards)[k].id)
    ensures db.events[|old(db.events)|].id == EventId(rnd).value
  {
    IndexOfIdAt(db.wards, k);
    var updated := db.UpdateWard(db.wards[k].id, v, rnd, now);
  }

  /** With the triggers installed, deleting the ward at `k` removes it and logs one DELETE event for it. */
  method DeleteLogged(db: Database, k: nat, rnd: Randomness, now: string)
    requires db.Valid() && db.Compiles() && db.triggersInstalled && k < |db.wards|
    requires WellSized(rnd) && EventId(rnd).Some? && IdFree(db.events, EventId(rnd).value)
    modifies db
    ensures db.Valid()
    ensures db.wards == old(db.wards)[..k] + old(db.wards)[k + 1..]
    ensures |db.events| == |old(db.events)| + 1 && db.events[..|old(db.events)|] == old(db.events)
    ensures db.events[|old(db.events)|].eventType == Some("DELETE")
    ensures db.events[|old(db.events)|].wardId == Some(old(db.wards)[k].id)
  {
    IndexOfIdAt(db.wards, k);
    var deleted := db.DeleteWard(db.wards[k].id, rnd, now);
  }

  /** Insert a ward, then update it: the table gains one row with the new id, and the log two events for it. */
  method InsertThenUpdate(db: Database, v: WardValues, v2: WardValues, r1: Randomness, r2: Randomness,
                          other: string, now: string)
    returns (id: int)
    requires db.Valid() && db.Compiles() && db.triggersInstalled && NotNullOk(v) && NotNullOk(v2)
    requires WellSized(r1) && WellSized(r2) && EventId(r1).Some? && EventId(r2).Some?
    requires IdFree(db.events, EventId(r1).value) && IdFree(db.events, EventId(r2).value)
    requires EventId(r1).value != EventId(r2).value
    requires IdFree(db.events, other) && other != EventId(r1).value && other != EventId(r2).value
    modifies db
    ensures db.Valid() && db.Compiles() && db.triggersInstalled
    ensures id == old(db.wardSeq) + 1
    ensures |db.wards| == |old(db.wards)| + 1 && db.wards[..|old(db.wards)|] == old(db.wards) && db.wards[|old(db.wards)|].id == id
    ensures |db.events| == |old(db.events)| + 2 && db.events[..|old(db.events)|] == old(db.events)
    ensures db.events[|old(db.events)|].eventType == Some("INSERT") && db.events[|old(db.events)|].wardId == Some(id)
    ensures db.events[|old(db.events)| + 1].eventType == Some("UPDATE") && db.events[|old(db.events)| + 1].wardId == Some(id)
    ensures db.events[|old(db.events)|].id == EventId(r1).value && db.events[|old(db.events)| + 1].id == EventId(r2).value
    ensures IdFree(db.events, other)
  {
    ghost var w0, e0 := db.wards, db.events;
    var n, last := |db.events|, |db.wards|;
    id := InsertLogged(db, v, r1, now);
    ghost var w1, e1 := db.wards, db.events;
    IdFreeGrow(e0, e1, EventId(r2).value);
    IdFreeGrow(e0, e1, other);
    UpdateLogged(db, last, v2, r2, now);
    IdFreeGrow(e1, db.events, other);
    assert db.wards[..last] == w1[..last] == w0;
    assert db.events[..n] == e1[..n] == e0;
    assert db.events[n] == e1[n];
  }

  /**
   * Insert, update and delete one ward with the triggers installed: the ward
   * table ends as it began, and the log gains exactly three events for that
   * ward, INSERT, UPDATE and DELETE in that order, after the events it held.
   */
  method InsertUpdateDelete(db: Database, v: WardValues, v2: WardValues,
                            r1: Randomness, r2: Randomness, r3: Randomness, now: string)
    returns (id: int)
    requires db.Valid() && db.Compiles() && db.triggersInstalled
    requires NotNullOk(v) && NotNullOk(v2)
    requires WellSized(r1) && WellSized(r2) && WellSized(r3)
    requires EventId(r1).Some? && EventId(r2).Some? && EventId(r3).Some?
    requires IdFree(db.events, EventId(r1).value) && IdFree(db.events, EventId(r2).value) && IdFree(db.events, EventId(r3).value)
    requires EventId(r1).value != EventId(r2).value && EventId(r1).value != EventId(r3).value
    requires EventId(r2).value != EventId(r3).value
    modifies db
    ensures db.Valid() && db.wards == old(db.wards)
    ensures id == old(db.wardSeq) + 1
    ensures |db.events| == |old(db.events)| + 3 && db.events[..|old(db.events)|] == old(db.events)
    ensures var n := |old(db.events)|;
      db.events[n].eventType == Some("INSERT") && db.events[n + 1].eventType == Some("UPDATE") &&
      db.events[n + 2].eventType == Some("DELETE")
    ensures forall k :: |old(db.events)| <= k < |db.events| ==> db.events[k].wardId == Some(id)
  {
    ghost var w0, e0 := db.wards, db.events;
    var last := |db.wards|;
    id := InsertThenUpdate(db, v, v2, r1, r2, EventId(r3).value, now);
    ghost var w2, e2 := db.wards, db.events;
    assert w2[last].id == id;
    DeleteLogged(db, last, r3, now);
    assert db.wards == w2[..last] == w0;
    OneAfterTwo(e0, e2, db.events);
    forall k | |e0| <= k < |db.events| ensures db.events[k].wardId == Some(id) {
      assert k == |e0| || k == |e0| + 1 || k == |e0| + 2;
    }
  }

  /** One event appended after two: the three follow the original log, and the first two are kept. */
  lemma OneAfterTwo(e0: seq<EventRow>, e2: seq<EventRow>, e3: seq<EventRow>)
    requires |e2| == |e0| + 2 && e2[..|e0|] == e0
    requires |e3| == |e2| + 1 && e3[..|e2|] == e2
    ensures |e3| == |e0| + 3 && e3[..|e0|] == e0
    ensures e3[|e0|] == e2[|e0|] && e3[|e0| + 1] == e2[|e0| + 1]
  {
    assert e3[..|e0|] == e3[..|e2|][..|e0|];
  }

  /** An id absent from the log stays absent when one event with another id is appended. */
  lemma IdFreeGrow(before: seq<EventRow>, after: seq<EventRow>, id: string)
    requires |after| == |before| + 1 && after[..|before|] == before
    requires IdFree(before, id) && after[|before|].id != id
    ensures IdFree(after, id)
  {
    forall k | 0 <= k < |after|
      ensures after[k].id != id
    {
      if k < |before| {
        assert after[k] == after[..|before|][k];
      }
    }
  }
}
