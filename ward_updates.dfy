/**
 * The `kenya_ward_updates` table and the two Zod schemas that validate what
 * goes into it. A schema is a parser from a JSON value to a typed record:
 * z.object keeps only its own keys, `.optional()` means the key may be
 * absent, and z.number().int().positive() accepts whole numbers above zero.
 */
module WardUpdates {
  import opened Options
  import opened Json
  import Seqs

  /** The member under `key`, looked up in two halves. */
  lemma {:induction false} GetAppend(a: seq<(string, Json)>, b: seq<(string, Json)>, key: string)
    ensures Get(a + b, key) == if Get(a, key).Some? then Get(a, key) else Get(b, key)
  {
    if |a| > 0 {
      assert (a + b)[1..] == a[1..] + b;
      GetAppend(a[1..], b, key);
    } else {
      assert a + b == b;
    }
  }

  predicate IsInt(n: real)
  {
    n == n.Floor as real
  }

  /** z.number().int().positive() */
  function PositiveInt(j: Json): (r: Option<int>)
    ensures r.Some? <==> j.JNum? && IsInt(j.n) && j.n > 0.0
    ensures r.Some? ==> r.value > 0 && j == JNum(r.value as real)
  {
    if j.JNum? && IsInt(j.n) && j.n > 0.0 then Some(j.n.Floor) else None
  }

  datatype UpdateEvent = Create | Update | Delete

  function EventName(e: UpdateEvent): string
  {
    match e
    case Create => "create"
    case Update => "update"
    case Delete => "delete"
  }

  /** z.enum(['create', 'update', 'delete']) */
  function ParseEvent(j: Json): (r: Option<UpdateEvent>)
    ensures r.Some? <==> j.JStr? && j.s in {"create", "update", "delete"}
    ensures r.Some? ==> j == JStr(EventName(r.value))
  {
    if j == JStr("create") then Some(Create)
    else if j == JStr("update") then Some(Update)
    else if j == JStr("delete") then Some(Delete)
    else None
  }

  /** One entry of an update: the ward id, the changed columns, and what happened. */
  datatype WardUpdateData = WardUpdateData(id: int, data: seq<(string, Json)>, event: UpdateEvent)

  /** WardUpdateDataSchema; keys other than id, data and event are dropped. */
  function ParseWardUpdateData(j: Json): (r: Option<WardUpdateData>)
    ensures r.Some? <==>
      j.JObj? &&
      Get(j.members, "id").Some? && PositiveInt(Get(j.members, "id").value).Some? &&
      Get(j.members, "data").Some? && Get(j.members, "data").value.JObj? &&
      Get(j.members, "event").Some? && ParseEvent(Get(j.members, "event").value).Some?
    ensures r.Some? ==>
      r.value.id > 0 &&
      Get(j.members, "id") == Some(JNum(r.value.id as real)) &&
      Get(j.members, "data") == Some(JObj(r.value.data)) &&
      Get(j.members, "event") == Some(JStr(EventName(r.value.event)))
  {
    if !j.JObj? then None
    else
      var id := Get(j.members, "id");
      var data := Get(j.members, "data");
      var event := Get(j.members, "event");
      if id.None? || data.None? || event.None? then None
      else if PositiveInt(id.value).None? || !data.value.JObj? || ParseEvent(event.value).None? then None
      else Some(WardUpdateData(PositiveInt(id.value).value, data.value.members, ParseEvent(event.value).value))
  }

  function UpdateDataToJson(d: WardUpdateData): Json
  {
    JObj([("id", JNum(d.id as real)), ("data", JObj(d.data)), ("event", JStr(EventName(d.event)))])
  }

  /** Every entry with a positive id survives a trip through JSON. */
  lemma UpdateDataRoundTrip(d: WardUpdateData)
    requires d.id > 0
    ensures ParseWardUpdateData(UpdateDataToJson(d)) == Some(d)
  {
    var m := UpdateDataToJson(d).members;
    assert Get(m, "id") == Some(JNum(d.id as real));
    assert Get(m, "data") == Some(JObj(d.data)) by {
      assert m[0].0 != "data" && m[1..][0].0 == "data";
    }
    assert Get(m, "event") == Some(JStr(EventName(d.event))) by {
      assert m[0].0 != "event" && m[1..][0].0 != "event" && m[1..][1..][0].0 == "event";
    }
    PositiveIntOf(d.id);
    EventNameParses(d.event);
  }

  lemma PositiveIntOf(n: int)
    requires n > 0
    ensures PositiveInt(JNum(n as real)) == Some(n)
  {
    assert (n as real).Floor == n;
  }

  lemma EventNameParses(e: UpdateEvent)
    ensures ParseEvent(JStr(EventName(e))) == Some(e)
  {
  }

  /** z.array(WardUpdateDataSchema): every element must parse; [] is accepted. */
  function ParseAll(items: seq<Json>): (r: Option<seq<WardUpdateData>>)
    ensures r.Some? <==> forall i :: 0 <= i < |items| ==> ParseWardUpdateData(items[i]).Some?
    ensures r.Some? ==> |r.value| == |items|
    ensures r.Some? ==> forall i :: 0 <= i < |items| ==> ParseWardUpdateData(items[i]) == Some(r.value[i])
  {
    Seqs.AllSome(items, ParseWardUpdateData)
  }

  /** A stored update batch, as WardUpdatesSchema accepts it. */
  datatype WardUpdatesRecord = WardUpdatesRecord(
    id: Option<int>,
    version: int,
    data: seq<WardUpdateData>,
    createdAt: Option<string>,
    createdBy: Option<string>,
    description: Option<string>
  )

  /** `.optional()` of a positive integer: an absent key is fine, a present one must parse. */
  function OptionalPositiveInt(v: Option<Json>): (r: Option<Option<int>>)
    ensures r.Some? <==> v.None? || PositiveInt(v.value).Some?
    ensures r.Some? && v.Some? ==> r.value == PositiveInt(v.value)
    ensures r.Some? && v.None? ==> r.value.None?
  {
    match v
    case None => Some(None)
    case Some(j) => if PositiveInt(j).Some? then Some(PositiveInt(j)) else None
  }

  /** z.string().optional() */
  function OptionalString(v: Option<Json>): (r: Option<Option<string>>)
    ensures r.Some? <==> v.None? || v.value.JStr?
    ensures r == Some(None) <==> v.None?
    ensures r.Some? && v.Some? ==> r.value == Some(v.value.s)
  {
    match v
    case None => Some(None)
    case Some(j) => if j.JStr? then Some(Some(j.s)) else None
  }

  /** WardUpdatesSchema. */
  function ParseWardUpdates(j: Json): (r: Option<WardUpdatesRecord>)
    ensures r.Some? <==>
      j.JObj? &&
      OptionalPositiveInt(Get(j.members, "id")).Some? &&
      Get(j.members, "version").Some? && PositiveInt(Get(j.members, "version").value).Some? &&
      Get(j.members, "data").Some? && Get(j.members, "data").value.JArr? &&
      ParseAll(Get(j.members, "data").value.items).Some? &&
      OptionalString(Get(j.members, "created_at")).Some? &&
      OptionalString(Get(j.members, "created_by")).Some? &&
      OptionalString(Get(j.members, "description")).Some?
    ensures r.Some? ==> ValidRecord(r.value)
    ensures r.Some? ==>
      (r.value.id.None? <==> Get(j.members, "id").None?) &&
      |r.value.data| == |Get(j.members, "data").value.items|
    ensures r.Some? ==>
      Some(r.value.id) == OptionalPositiveInt(Get(j.members, "id")) &&
      r.value.version == PositiveInt(Get(j.members, "version").value).value &&
      Some(r.value.data) == ParseAll(Get(j.members, "data").value.items) &&
      Some(r.value.createdAt) == OptionalString(Get(j.members, "created_at")) &&
      Some(r.value.createdBy) == OptionalString(Get(j.members, "created_by")) &&
      Some(r.value.description) == OptionalString(Get(j.members, "description"))
  {
    if !j.JObj? then None
    else
      var m := j.members;
      var id := OptionalPositiveInt(Get(m, "id"));
      var version := Get(m, "version");
      var data := Get(m, "data");
      var createdAt := OptionalString(Get(m, "created_at"));
      var createdBy := OptionalString(Get(m, "created_by"));
      var description := OptionalString(Get(m, "description"));
      if id.None? || version.None? || data.None? || createdAt.None? || createdBy.None? || description.None? then None
      else if PositiveInt(version.value).None? || !data.value.JArr? then None
      else
        var entries := ParseAll(data.value.items);
        if entries.None? then None
        else Some(WardUpdatesRecord(id.value, PositiveInt(version.value).value, entries.value,
                                    createdAt.value, createdBy.value, description.value))
  }

  /** What the schema itself promises of an accepted record. */
  predicate ValidRecord(u: WardUpdatesRecord)
  {
    (u.id.Some? ==> u.id.value > 0) && u.version > 0 &&
    forall i :: 0 <= i < |u.data| ==> u.data[i].id > 0
  }

  function OptionalMember(key: string, v: Option<Json>): seq<(string, Json)>
  {
    if v.Some? then [(key, v.value)] else []
  }

  function OptionalText(s: Option<string>): Option<Json>
  {
    if s.Some? then Some(JStr(s.value)) else None
  }

  function UpdatesToJson(u: WardUpdatesRecord): Json
  {
    JObj(OptionalMember("id", IdJson(u)) +
         [("version", JNum(u.version as real)), ("data", JArr(ItemsJson(u.data)))] +
         OptionalMember("created_at", OptionalText(u.createdAt)) +
         OptionalMember("created_by", OptionalText(u.createdBy)) +
         OptionalMember("description", OptionalText(u.description)))
  }

  lemma GetOptional(key: string, v: Option<Json>, k: string)
    ensures Get(OptionalMember(key, v), k) == if k == key then v else None
  {
  }

  lemma GetSingle(key: string, v: Json, k: string)
    ensures Get([(key, v)], k) == if k == key then Some(v) else None
  {
  }

  function IdJson(u: WardUpdatesRecord): Option<Json>
  {
    if u.id.Some? then Some(JNum(u.id.value as real)) else None
  }

  function ItemsJson(data: seq<WardUpdateData>): seq<Json>
  {
    seq(|data|, i requires 0 <= i < |data| => UpdateDataToJson(data[i]))
  }

  /** What UpdatesToJson stores under each key the schema reads. */
  function Stored(u: WardUpdatesRecord, k: string): Option<Json>
  {
    if k == "id" then IdJson(u)
    else if k == "version" then Some(JNum(u.version as real))
    else if k == "data" then Some(JArr(ItemsJson(u.data)))
    else if k == "created_at" then OptionalText(u.createdAt)
    else if k == "created_by" then OptionalText(u.createdBy)
    else if k == "description" then OptionalText(u.description)
    else None
  }

  lemma GetStored(u: WardUpdatesRecord, k: string)
    ensures UpdatesToJson(u).JObj? && Get(UpdatesToJson(u).members, k) == Stored(u, k)
  {
    var a := OptionalMember("id", IdJson(u));
    var b := [("version", JNum(u.version as real))];
    var c := [("data", JArr(ItemsJson(u.data)))];
    var d := OptionalMember("created_at", OptionalText(u.createdAt));
    var e := OptionalMember("created_by", OptionalText(u.createdBy));
    var f := OptionalMember("description", OptionalText(u.description));
    var m := UpdatesToJson(u).members;
    assert m == a + (b + (c + (d + (e + f))));
    GetAppend(e, f, k);
    GetAppend(d, e + f, k);
    GetAppend(c, d + (e + f), k);
    GetAppend(b, c + (d + (e + f)), k);
    GetAppend(a, b + (c + (d + (e + f))), k);
    GetOptional("id", IdJson(u), k);
    GetSingle("version", JNum(u.version as real), k);
    GetSingle("data", JArr(ItemsJson(u.data)), k);
    GetOptional("created_at", OptionalText(u.createdAt), k);
    GetOptional("created_by", OptionalText(u.createdBy), k);
    GetOptional("description", OptionalText(u.description), k);
  }

  /** Every valid record survives a trip through JSON, absent keys included. */
  lemma UpdatesRoundTrip(u: WardUpdatesRecord)
    requires ValidRecord(u)
    ensures ParseWardUpdates(UpdatesToJson(u)) == Some(u)
  {
    GetStored(u, "id");
    GetStored(u, "version");
    GetStored(u, "data");
    GetStored(u, "created_at");
    GetStored(u, "created_by");
    GetStored(u, "description");
    ItemsRoundTrip(u.data);
    ScalarsRoundTrip(u);
    ParseFromParts(UpdatesToJson(u), u);
  }

  /** The optional id, the version and the optional strings parse back to themselves. */
  lemma ScalarsRoundTrip(u: WardUpdatesRecord)
    requires ValidRecord(u)
    ensures PositiveInt(JNum(u.version as real)) == Some(u.version)
    ensures OptionalPositiveInt(IdJson(u)) == Some(u.id)
    ensures OptionalString(OptionalText(u.createdAt)) == Some(u.createdAt)
    ensures OptionalString(OptionalText(u.createdBy)) == Some(u.createdBy)
    ensures OptionalString(OptionalText(u.description)) == Some(u.description)
  {
    assert (u.version as real).Floor == u.version;
    if u.id.Some? {
      assert (u.id.value as real).Floor == u.id.value;
    }
  }

  /** An array of entries with positive ids parses back to the entries. */
  lemma ItemsRoundTrip(data: seq<WardUpdateData>)
    requires forall i :: 0 <= i < |data| ==> data[i].id > 0
    ensures ParseAll(ItemsJson(data)) == Some(data)
  {
    var items := ItemsJson(data);
    forall i | 0 <= i < |items|
      ensures ParseWardUpdateData(items[i]) == Some(data[i])
    {
      UpdateDataRoundTrip(data[i]);
    }
    var parsed := ParseAll(items);
    assert parsed.Some? && |parsed.value| == |data|;
    assert forall i :: 0 <= i < |data| ==> parsed.value[i] == data[i];
    assert parsed.value == data;
  }

  /** The parser's result, read off the six keys it looks at. */
  lemma ParseFromParts(j: Json, u: WardUpdatesRecord)
    requires j.JObj?
    requires OptionalPositiveInt(Get(j.members, "id")) == Some(u.id)
    requires Get(j.members, "version").Some? && PositiveInt(Get(j.members, "version").value) == Some(u.version)
    requires Get(j.members, "data").Some? && Get(j.members, "data").value.JArr?
    requires ParseAll(Get(j.members, "data").value.items) == Some(u.data)
    requires OptionalString(Get(j.members, "created_at")) == Some(u.createdAt)
    requires OptionalString(Get(j.members, "created_by")) == Some(u.createdBy)
    requires OptionalString(Get(j.members, "description")) == Some(u.description)
    ensures ParseWardUpdates(j) == Some(u)
  {
  }

  // ------------------------------------------------------------------- table

  /** A row of kenya_ward_updates; the NOT NULL columns are nullable here so the constraint can be stated. */
  datatype UpdateRow = UpdateRow(
    id: int,
    version: Option<int>,
    data: Option<string>,
    createdAt: Option<string>,
    updatedAt: Option<string>,
    createdBy: Option<string>,
    description: Option<string>
  )

  predicate RowAllowed(r: UpdateRow)
  {
    r.version.Some? && r.data.Some? && r.createdAt.Some? && r.updatedAt.Some?
  }

  datatype UpdatesError = NotNull(column: string) | PrimaryKey

  /**
   * The table as createWardUpdatesTable leaves it, with its
   * update_ward_updates_timestamp trigger; `seqNo` is its AUTOINCREMENT counter.
   */
  class WardUpdatesTable {
    var rows: seq<UpdateRow>
    var seqNo: int

    ghost predicate Valid()
      reads this
    {
      seqNo >= 0 &&
      (forall i :: 0 <= i < |rows| ==> 0 < rows[i].id <= seqNo && RowAllowed(rows[i])) &&
      (forall i, j :: 0 <= i < j < |rows| ==> rows[i].id < rows[j].id)
    }

    constructor ()
      ensures Valid() && rows == [] && seqNo == 0
    {
      rows, seqNo := [], 0;
    }

    /**
     * INSERT with the given version, data and optional columns; an omitted
     * created_at takes CURRENT_TIMESTAMP, as updated_at always does. Nothing
     * about the rows already stored can refuse it: versions may repeat.
     */
    method Insert(version: Option<int>, data: Option<string>, createdAt: Option<string>,
                  createdBy: Option<string>, description: Option<string>, now: string)
      returns (res: Result<int, UpdatesError>)
      requires Valid()
      modifies this
      ensures Valid()
      ensures res.Success? <==> version.Some? && data.Some?
      ensures res.Success? ==>
        res.value == old(seqNo) + 1 && seqNo == res.value &&
        rows == old(rows) + [UpdateRow(res.value, version, data, Some(createdAt.GetOr(now)), Some(now),
                                       createdBy, description)]
      ensures res.Failure? ==> rows == old(rows) && seqNo == old(seqNo)
    {
      if version.None? {
        return Failure(NotNull("kenya_ward_updates.version"));
      }
      if data.None? {
        return Failure(NotNull("kenya_ward_updates.data"));
      }
      var row := UpdateRow(seqNo + 1, version, data, Some(createdAt.GetOr(now)), Some(now), createdBy, description);
      rows, seqNo := rows + [row], seqNo + 1;
      res := Success(row.id);
    }

    /**
     * UPDATE ... SET <every column but id> WHERE id = ?, followed by the
     * trigger that sets updated_at on the changed row; the result is the
     * number of rows changed.
     */
    method Update(id: int, newRow: UpdateRow, now: string) returns (res: Result<nat, UpdatesError>)
      requires Valid()
      modifies this
      ensures Valid() && seqNo == old(seqNo)
      ensures (forall k :: 0 <= k < |old(rows)| ==> old(rows)[k].id != id) ==>
                res == Success(0) && rows == old(rows)
      ensures res.Failure? ==> rows == old(rows)
      ensures forall k :: 0 <= k < |old(rows)| && old(rows)[k].id == id ==>
        (res.Success? <==> RowAllowed(newRow)) &&
        (res.Success? ==> res.value == 1 && rows == old(rows)[k := newRow.(id := id, updatedAt := Some(now))])
    {
      var k := 0;
      while k < |rows| && rows[k].id != id
        invariant 0 <= k <= |rows|
        invariant forall j :: 0 <= j < k ==> rows[j].id != id
      {
        k := k + 1;
      }
      if k == |rows| {
        return Success(0);
      }
      if !RowAllowed(newRow) {
        return Failure(NotNull("kenya_ward_updates"));
      }
      rows := rows[k := newRow.(id := id, updatedAt := Some(now))];
      res := Success(1);
    }
  }
}
