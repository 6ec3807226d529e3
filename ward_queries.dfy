/**
 * The SpatiaLite ward resolver: each query is one selection, ordering or
 * LIMIT over the `kenya_wards` table, held as its rows in rowid order.
 * The `*Optimized` variants read the cached bounding-box columns and return
 * them with each ward. Queries take latitude before longitude, as the
 * callers do, and build the point as MakePoint(longitude, latitude).
 */
module WardQueries {
  import opened Options
  import opened Geometry
  import opened SqlLogic
  import opened WardRows
  import Seqs
  import Text

  /** The radius findWardsWithinDistance uses when the caller gives none. */
  const DefaultRadiusMeters: real := 1000.0

  /** ST_Contains(geom, MakePoint(lng, lat, 4326)) on one row. */
  predicate ContainsPoint(sp: Spatial, r: WardRow, lat: real, lng: real)
  {
    sp.contains(r.geom, Point(lng, lat))
  }

  /** ST_Distance(geom, MakePoint(lng, lat, 4326)): planar, in degrees, or NULL. */
  function PlanarDistance(sp: Spatial, r: WardRow, lat: real, lng: real): Option<real>
  {
    sp.distance(r.geom, Point(lng, lat))
  }

  /** ST_Distance(geom, MakePoint(lng, lat, 4326), 1): on the ellipsoid, in metres, or NULL. */
  function MetricDistance(sp: Spatial, r: WardRow, lat: real, lng: real): Option<real>
  {
    sp.distanceMeters(r.geom, Point(lng, lat))
  }

  /** `d < limit` in SQL: true only for a non-NULL distance below the limit. */
  predicate Below(d: Option<real>, limit: real)
  {
    d.Some? && d.value < limit
  }

  /** The `Ward` record a query returns for a row, as a function to select with. */
  function AsWard(sp: Spatial): WardRow -> Ward
  {
    (row: WardRow) => ToWard(sp, row)
  }

  function AsOptimizedWard(sp: Spatial): WardRow -> OptimizedWard
  {
    (row: WardRow) => ToOptimizedWard(sp, row)
  }

  // ------------------------------------------------------------ point lookup

  /** findWardByPoint: the first ward whose geometry contains the point, or None. */
  function FindWardByPoint(sp: Spatial, t: seq<WardRow>, lat: real, lng: real): (r: Option<Ward>)
    ensures r.None? <==> forall i :: 0 <= i < |t| ==> !ContainsPoint(sp, t[i], lat, lng)
    ensures r.Some? ==> exists i :: 0 <= i < |t| && ContainsPoint(sp, t[i], lat, lng)
                          && (forall j :: 0 <= j < i ==> !ContainsPoint(sp, t[j], lat, lng))
                          && r.value == ToWard(sp, t[i])
  {
    match Seqs.FirstIndex(t, (row: WardRow) => ContainsPoint(sp, row, lat, lng))
    case None => None
    case Some(i) => Some(ToWard(sp, t[i]))
  }

  /** findWardById: the row with that id, or None. */
  function FindWardById(sp: Spatial, t: seq<WardRow>, id: int): (r: Option<Ward>)
    ensures r.None? <==> forall i :: 0 <= i < |t| ==> t[i].id != id
    ensures r.Some? ==> r.value.id == id && exists i :: 0 <= i < |t| && t[i].id == id && r.value == ToWard(sp, t[i])
  {
    match Seqs.FirstIndex(t, (row: WardRow) => row.id == id)
    case None => None
    case Some(i) => Some(ToWard(sp, t[i]))
  }

  /** Ids are unique along the table, so the lookup by id finds exactly the row carrying it. */
  lemma FindWardByIdUnique(sp: Spatial, t: seq<WardRow>, i: int)
    requires IdsAscending(t) && 0 <= i < |t|
    ensures FindWardById(sp, t, t[i].id) == Some(ToWard(sp, t[i]))
  {
    var r := FindWardById(sp, t, t[i].id);
    assert forall j :: 0 <= j < |t| && j != i ==> t[j].id != t[i].id;
    var k :| 0 <= k < |t| && t[k].id == t[i].id && r.value == ToWard(sp, t[k]);
  }

  /** findWardByCode: the first row whose ward_code equals the code; a NULL code matches nothing. */
  function FindWardByCode(sp: Spatial, t: seq<WardRow>, code: string): (r: Option<Ward>)
    ensures r.None? <==> forall i :: 0 <= i < |t| ==> t[i].wardCode != Some(code)
    ensures r.Some? ==> r.value.wardCode == Some(code)
    ensures r.Some? ==> exists i :: 0 <= i < |t| && t[i].wardCode == Some(code)
                          && (forall j :: 0 <= j < i ==> t[j].wardCode != Some(code))
                          && r.value == ToWard(sp, t[i])
  {
    match Seqs.FirstIndex(t, (row: WardRow) => row.wardCode == Some(code))
    case None => None
    case Some(i) => Some(ToWard(sp, t[i]))
  }

  // ------------------------------------------------------------ text filters

  /** LOWER(ward) LIKE LOWER('%' || name || '%'), with no wildcard inside `name`. */
  predicate NameMatches(ward: string, name: string)
  {
    Text.Contains(Text.Lower(ward), Text.Lower(name))
  }

  function NameFilter(name: string): WardRow -> bool
  {
    (row: WardRow) => NameMatches(row.ward, name)
  }

  /**
   * findWardsByName: the wards whose name contains `name`, ignoring case, in
   * table order; a ward occurs as often as matching rows give it, so each
   * matching row exactly once.
   */
  function FindWardsByName(sp: Spatial, t: seq<WardRow>, name: string): (r: seq<Ward>)
    ensures forall w :: w in r <==> exists i :: 0 <= i < |t| && NameMatches(t[i].ward, name) && w == ToWard(sp, t[i])
    ensures forall w :: multiset(r)[w] == Seqs.CountWhere(t, NameFilter(name), AsWard(sp), w)
  {
    Seqs.SelectIff(t, NameFilter(name), AsWard(sp));
    forall w ensures multiset(Seqs.Select(t, NameFilter(name), AsWard(sp)))[w] == Seqs.CountWhere(t, NameFilter(name), AsWard(sp), w) {
      Seqs.SelectCount(t, NameFilter(name), AsWard(sp), w);
    }
    Seqs.Select(t, NameFilter(name), AsWard(sp))
  }

  /** The name search does not depend on the case of the search text. */
  lemma NameSearchIgnoresCase(sp: Spatial, t: seq<WardRow>, a: string, b: string)
    requires Text.Lower(a) == Text.Lower(b)
    ensures FindWardsByName(sp, t, a) == FindWardsByName(sp, t, b)
  {
    Seqs.SelectAgree(t, NameFilter(a), NameFilter(b), AsWard(sp));
  }

  /** Searching for the empty name returns every ward. */
  lemma EmptyNameMatchesAll(sp: Spatial, t: seq<WardRow>, i: int)
    requires 0 <= i < |t|
    ensures ToWard(sp, t[i]) in FindWardsByName(sp, t, "")
  {
    Text.ContainsEmpty(Text.Lower(t[i].ward));
    assert NameMatches(t[i].ward, "");
  }

  /** LOWER(county) = LOWER(countyName). */
  predicate CountyMatches(county: string, countyName: string)
  {
    Text.Lower(county) == Text.Lower(countyName)
  }

  function CountyFilter(countyName: string): WardRow -> bool
  {
    (row: WardRow) => CountyMatches(row.county, countyName)
  }

  /** findWardsByCounty: the wards of that county, ignoring case, in table order, each matching row exactly once. */
  function FindWardsByCounty(sp: Spatial, t: seq<WardRow>, countyName: string): (r: seq<Ward>)
    ensures forall w :: w in r <==> exists i :: 0 <= i < |t| && CountyMatches(t[i].county, countyName) && w == ToWard(sp, t[i])
    ensures forall w :: multiset(r)[w] == Seqs.CountWhere(t, CountyFilter(countyName), AsWard(sp), w)
  {
    Seqs.SelectIff(t, CountyFilter(countyName), AsWard(sp));
    forall w ensures multiset(Seqs.Select(t, CountyFilter(countyName), AsWard(sp)))[w] == Seqs.CountWhere(t, CountyFilter(countyName), AsWard(sp), w) {
      Seqs.SelectCount(t, CountyFilter(countyName), AsWard(sp), w);
    }
    Seqs.Select(t, CountyFilter(countyName), AsWard(sp))
  }

  /** The county filter does not depend on the case of the county name. */
  lemma CountySearchIgnoresCase(sp: Spatial, t: seq<WardRow>, a: string, b: string)
    requires Text.Lower(a) == Text.Lower(b)
    ensures FindWardsByCounty(sp, t, a) == FindWardsByCounty(sp, t, b)
  {
    Seqs.SelectAgree(t, CountyFilter(a), CountyFilter(b), AsWard(sp));
  }

  /** A ward whose county is spelled in another case is still found. */
  lemma CountyFoundInAnyCase(sp: Spatial, t: seq<WardRow>, i: int)
    requires 0 <= i < |t|
    ensures ToWard(sp, t[i]) in FindWardsByCounty(sp, t, Text.Lower(t[i].county))
  {
    Text.LowerIdempotent(t[i].county);
    assert CountyMatches(t[i].county, Text.Lower(t[i].county));
  }

  // --------------------------------------------------------- partial columns

  /** The expressions a partial query can select: the table's columns and AsGeoJSON(geom). */
  datatype Column = Id | WardCode | WardName | County | CountyCode | SubCounty | Constituency | ConstituencyCode
                  | MinX | MinY | MaxX | MaxY | GeomBlob | GeoJson

  function ColumnSql(c: Column): string
  {
    match c
    case Id => "id"
    case WardCode => "ward_code"
    case WardName => "ward"
    case County => "county"
    case CountyCode => "county_code"
    case SubCounty => "sub_county"
    case Constituency => "constituency"
    case ConstituencyCode => "constituency_code"
    case MinX => "minx"
    case MinY => "miny"
    case MaxX => "maxx"
    case MaxY => "maxy"
    case GeomBlob => "geom"
    case GeoJson => "AsGeoJSON(geom)"
  }

  /** One item of a SELECT list: an expression and, when it has one, its `as` alias. */
  datatype SelectItem = SelectItem(column: Column, alias: Option<string>)

  function ItemText(item: SelectItem): string
  {
    ColumnSql(item.column) + if item.alias.Some? then " as " + item.alias.value else ""
  }

  /** The property name the result object gives an item: its alias, else the column's own name. */
  function ItemKey(item: SelectItem): string
  {
    item.alias.GetOr(ColumnSql(item.column))
  }

  /** The column whitelist: a requested field name and the item it selects, column names unaliased. */
  function ColumnItem(name: string): Option<SelectItem>
  {
    if name == "id" then Some(SelectItem(Id, None))
    else if name == "wardCode" then Some(SelectItem(WardCode, None))
    else if name == "ward" then Some(SelectItem(WardName, None))
    else if name == "county" then Some(SelectItem(County, None))
    else if name == "countyCode" then Some(SelectItem(CountyCode, None))
    else if name == "subCounty" then Some(SelectItem(SubCounty, None))
    else if name == "constituency" then Some(SelectItem(Constituency, None))
    else if name == "constituencyCode" then Some(SelectItem(ConstituencyCode, None))
    else if name == "geometry" then Some(SelectItem(GeoJson, Some("geometry")))
    else None
  }

  const DefaultColumns: seq<string> := ["id", "ward", "county"]

  /** The whitelisted requested columns, in request order. */
  function SelectedColumns(columns: seq<string>): (r: seq<SelectItem>)
    ensures forall e :: e in r <==> exists i :: 0 <= i < |columns| && ColumnItem(columns[i]) == Some(e)
  {
    Seqs.SelectIff(columns, (c: string) => ColumnItem(c).Some?, (c: string) => ColumnItem(c).GetOr(SelectItem(Id, None)));
    Seqs.Select(columns, (c: string) => ColumnItem(c).Some?, (c: string) => ColumnItem(c).GetOr(SelectItem(Id, None)))
  }

  /** Requests are handled one name at a time: a valid name adds its item at the end, an unknown one adds nothing. */
  lemma SelectedColumnsSnoc(columns: seq<string>, c: string)
    ensures SelectedColumns(columns + [c]) ==
              SelectedColumns(columns) + (if ColumnItem(c).Some? then [ColumnItem(c).value] else [])
  {
    Seqs.SelectAppend(columns, [c], (c: string) => ColumnItem(c).Some?, (c: string) => ColumnItem(c).GetOr(SelectItem(Id, None)));
  }

  function ItemTexts(items: seq<SelectItem>): (r: seq<string>)
    ensures |r| == |items| && forall k :: 0 <= k < |items| ==> r[k] == ItemText(items[k])
  {
    seq(|items|, k requires 0 <= k < |items| => ItemText(items[k]))
  }

  /** The SELECT list: the chosen items joined by ", ", or `*` when none is valid. */
  function PartialSelectList(columns: seq<string>): (r: string)
    ensures |SelectedColumns(columns)| == 0 <==> r == "*"
  {
    var selected := SelectedColumns(columns);
    if |selected| > 0 then
      var texts := ItemTexts(selected);
      Seqs.JoinLength(texts, ", ");
      var j := Seqs.Join(texts, ", ");
      assert j != "*" by {
        if |selected| == 1 {
          assert j == ItemText(selected[0]);
          assert |ColumnSql(selected[0].column)| >= 2;
        } else {
          assert |j| >= 2;
        }
      }
      j
    else "*"
  }

  /** The default request keeps all three of its names. */
  lemma DefaultSelectedColumns()
    ensures SelectedColumns(DefaultColumns) == [SelectItem(Id, None), SelectItem(WardName, None), SelectItem(County, None)]
  {
    SelectedColumnsSnoc([], "id");
    assert ["id"] == [] + ["id"];
    SelectedColumnsSnoc(["id"], "ward");
    assert ["id", "ward"] == ["id"] + ["ward"];
    SelectedColumnsSnoc(["id", "ward"], "county");
    assert DefaultColumns == ["id", "ward"] + ["county"];
  }

  lemma DefaultJoin()
    ensures Seqs.Join(["id", "ward", "county"], ", ") == "id, ward, county"
  {
    Seqs.JoinSnoc(["id"], "ward", ", ");
    assert ["id", "ward"] == ["id"] + ["ward"];
    assert ["id", "ward", "county"] == ["id", "ward"] + ["county"];
    Seqs.JoinSnoc(["id", "ward"], "county", ", ");
  }

  /** The default request selects `id, ward, county`. */
  lemma DefaultSelectList()
    ensures PartialSelectList(DefaultColumns) == "id, ward, county"
  {
    DefaultSelectedColumns();
    assert ItemTexts(SelectedColumns(DefaultColumns)) == ["id", "ward", "county"];
    DefaultJoin();
  }

  /** A column value as the driver hands it to JavaScript. */
  datatype Value = SqlInt(i: int) | SqlReal(x: real) | SqlText(s: string) | SqlBlob(b: Geom) | SqlNull

  function OfText(v: Option<string>): Value { if v.Some? then SqlText(v.value) else SqlNull }
  function OfInt(v: Option<int>): Value { if v.Some? then SqlInt(v.value) else SqlNull }
  function OfReal(v: Option<real>): Value { if v.Some? then SqlReal(v.value) else SqlNull }
  function OfGeom(v: Option<Geom>): Value { if v.Some? then SqlBlob(v.value) else SqlNull }

  /** The value a selected expression takes on a row. */
  function Evaluate(sp: Spatial, row: WardRow, c: Column): Value
  {
    match c
    case Id => SqlInt(row.id)
    case WardCode => OfText(row.wardCode)
    case WardName => SqlText(row.ward)
    case County => SqlText(row.county)
    case CountyCode => OfInt(row.countyCode)
    case SubCounty => OfText(row.subCounty)
    case Constituency => SqlText(row.constituency)
    case ConstituencyCode => OfInt(row.constituencyCode)
    case MinX => OfReal(row.bbox.minx)
    case MinY => OfReal(row.bbox.miny)
    case MaxX => OfReal(row.bbox.maxx)
    case MaxY => OfReal(row.bbox.maxy)
    case GeomBlob => OfGeom(row.geom)
    case GeoJson => OfText(sp.asGeoJson(row.geom))
  }

  /** What `*` expands to: the thirteen columns of `kenya_wards` in declaration order. */
  const TableColumns: seq<SelectItem> := [
    SelectItem(Id, None), SelectItem(WardCode, None), SelectItem(WardName, None), SelectItem(County, None),
    SelectItem(CountyCode, None), SelectItem(SubCounty, None), SelectItem(Constituency, None),
    SelectItem(ConstituencyCode, None), SelectItem(MinX, None), SelectItem(MinY, None),
    SelectItem(MaxX, None), SelectItem(MaxY, None), SelectItem(GeomBlob, None)]

  /** The items the statement selects: the whitelisted ones, or every table column for `*`. */
  function PartialItems(columns: seq<string>): seq<SelectItem>
  {
    var selected := SelectedColumns(columns);
    if |selected| > 0 then selected else TableColumns
  }

  /** The keys of a list of items. */
  function Keys(items: seq<SelectItem>): set<string>
  {
    if |items| == 0 then {} else Keys(items[..|items| - 1]) + {ItemKey(items[|items| - 1])}
  }

  lemma {:induction false} KeysMembers(items: seq<SelectItem>)
    ensures forall x :: x in Keys(items) <==> exists k :: 0 <= k < |items| && ItemKey(items[k]) == x
  {
    if |items| > 0 {
      var n := |items| - 1;
      KeysMembers(items[..n]);
      assert forall k :: 0 <= k < n ==> items[..n][k] == items[k];
    }
  }

  /**
   * The object the driver builds from one result row: one property per item,
   * named by its key; a later item overwrites an earlier one of the same key.
   */
  function RowObject(sp: Spatial, row: WardRow, items: seq<SelectItem>): (m: map<string, Value>)
    ensures m.Keys == Keys(items)
  {
    if |items| == 0 then map[]
    else
      var n := |items| - 1;
      RowObject(sp, row, items[..n])[ItemKey(items[n]) := Evaluate(sp, row, items[n].column)]
  }

  /** A key that only one column carries holds that column's value. */
  lemma {:induction false} RowObjectValue(sp: Spatial, row: WardRow, items: seq<SelectItem>, k: nat)
    requires k < |items|
    requires forall j :: 0 <= j < |items| && ItemKey(items[j]) == ItemKey(items[k]) ==> items[j].column == items[k].column
    ensures ItemKey(items[k]) in RowObject(sp, row, items)
    ensures RowObject(sp, row, items)[ItemKey(items[k])] == Evaluate(sp, row, items[k].column)
  {
    var n := |items| - 1;
    var key := ItemKey(items[k]);
    var prefix := RowObject(sp, row, items[..n]);
    assert RowObject(sp, row, items) == prefix[ItemKey(items[n]) := Evaluate(sp, row, items[n].column)];
    if ItemKey(items[n]) == key {
      assert items[n].column == items[k].column;
    } else {
      assert k < n;
      FrontKeyUnique(items, n, k);
      RowObjectValue(sp, row, items[..n], k);
    }
  }

  /** A key carried by one column only is still carried by one column only in a prefix holding it. */
  lemma FrontKeyUnique(items: seq<SelectItem>, n: nat, k: nat)
    requires k < n <= |items|
    requires forall j :: 0 <= j < |items| && ItemKey(items[j]) == ItemKey(items[k]) ==> items[j].column == items[k].column
    ensures forall j :: 0 <= j < n && ItemKey(items[..n][j]) == ItemKey(items[..n][k]) ==>
              items[..n][j].column == items[..n][k].column
  {
    var front := items[..n];
    assert front[k] == items[k];
    forall j | 0 <= j < n && ItemKey(front[j]) == ItemKey(front[k]) ensures front[j].column == front[k].column {
      assert front[j] == items[j];
    }
  }

  function AsRowObject(sp: Spatial, items: seq<SelectItem>): WardRow -> map<string, Value>
  {
    (row: WardRow) => RowObject(sp, row, items)
  }

  /**
   * findWardsByCountyPartial: one object per row of the county, each matching
   * row exactly once, carrying one property per selected item.
   */
  function FindWardsByCountyPartial(sp: Spatial, t: seq<WardRow>, countyName: string, columns: Option<seq<string>>)
    : (r: seq<map<string, Value>>)
    ensures forall m :: m in r ==> m.Keys == Keys(PartialItems(columns.GetOr(DefaultColumns)))
    ensures forall m :: m in r <==>
              exists i :: 0 <= i < |t| && CountyMatches(t[i].county, countyName) &&
                m == RowObject(sp, t[i], PartialItems(columns.GetOr(DefaultColumns)))
    ensures forall m :: multiset(r)[m] ==
              Seqs.CountWhere(t, CountyFilter(countyName), AsRowObject(sp, PartialItems(columns.GetOr(DefaultColumns))), m)
  {
    var f := AsRowObject(sp, PartialItems(columns.GetOr(DefaultColumns)));
    Seqs.SelectIff(t, CountyFilter(countyName), f);
    forall m ensures multiset(Seqs.Select(t, CountyFilter(countyName), f))[m] == Seqs.CountWhere(t, CountyFilter(countyName), f, m) {
      Seqs.SelectCount(t, CountyFilter(countyName), f, m);
    }
    Seqs.Select(t, CountyFilter(countyName), f)
  }

  /** The value of a `PartialWard` field of a ward, or None for a name that is not a field. */
  function FieldValue(w: Ward, name: string): Option<Value>
  {
    if name == "id" then Some(SqlInt(w.id))
    else if name == "wardCode" then Some(OfText(w.wardCode))
    else if name == "ward" then Some(SqlText(w.ward))
    else if name == "county" then Some(SqlText(w.county))
    else if name == "countyCode" then Some(OfInt(w.countyCode))
    else if name == "subCounty" then Some(OfText(w.subCounty))
    else if name == "constituency" then Some(SqlText(w.constituency))
    else if name == "constituencyCode" then Some(OfInt(w.constituencyCode))
    else if name == "geometry" then Some(OfText(w.geometry))
    else None
  }

  /** The column a whitelisted name selects holds that field of the ward. */
  lemma SelectsTheField(sp: Spatial, row: WardRow, name: string)
    requires ColumnItem(name).Some?
    ensures FieldValue(ToWard(sp, row), name) == Some(Evaluate(sp, row, ColumnItem(name).value.column))
  {
  }

  /** Distinct whitelisted names select items with distinct keys. */
  lemma ColumnKeysDistinct(a: string, b: string)
    requires ColumnItem(a).Some? && ColumnItem(b).Some?
    requires ItemKey(ColumnItem(a).value) == ItemKey(ColumnItem(b).value)
    ensures ColumnItem(a) == ColumnItem(b)
  {
  }

  /**
   * As written, every requested field arrives with the ward's value, but
   * under the column's name: `wardCode` comes back as `ward_code`.
   */
  lemma PartialRowValues(sp: Spatial, row: WardRow, columns: seq<string>, c: string)
    requires c in columns && ColumnItem(c).Some?
    ensures var m := RowObject(sp, row, PartialItems(columns));
            ItemKey(ColumnItem(c).value) in m && Some(m[ItemKey(ColumnItem(c).value)]) == FieldValue(ToWard(sp, row), c)
  {
    var items := PartialItems(columns);
    var i :| 0 <= i < |columns| && columns[i] == c;
    var item := ColumnItem(c).value;
    assert item in SelectedColumns(columns);
    var k :| 0 <= k < |items| && items[k] == item;
    forall j | 0 <= j < |items| && ItemKey(items[j]) == ItemKey(items[k]) ensures items[j].column == items[k].column {
      var h :| 0 <= h < |columns| && ColumnItem(columns[h]) == Some(items[j]);
      ColumnKeysDistinct(columns[h], c);
    }
    RowObjectValue(sp, row, items, k);
    SelectsTheField(sp, row, c);
  }

  /** As written, a request for `wardCode` yields objects whose only property is `ward_code`. */
  lemma CamelCaseRequestLosesField(sp: Spatial, t: seq<WardRow>, countyName: string)
    ensures forall m :: m in FindWardsByCountyPartial(sp, t, countyName, Some(["wardCode"])) ==>
              m.Keys == {"ward_code"} && "wardCode" !in m
  {
    SelectedColumnsSnoc([], "wardCode");
    assert ["wardCode"] == [] + ["wardCode"];
    assert PartialItems(["wardCode"]) == [SelectItem(WardCode, None)];
    assert Keys([SelectItem(WardCode, None)]) == {"ward_code"};
  }

  /** The evidently intended whitelist: each item aliased to the requested field name. */
  function AliasedItem(name: string): (r: Option<SelectItem>)
    ensures r.Some? <==> ColumnItem(name).Some?
    ensures r.Some? ==> ItemKey(r.value) == name && r.value.column == ColumnItem(name).value.column
  {
    match ColumnItem(name)
    case None => None
    case Some(item) => Some(SelectItem(item.column, Some(name)))
  }

  function AliasedColumns(columns: seq<string>): (r: seq<SelectItem>)
    ensures forall e :: e in r <==> exists i :: 0 <= i < |columns| && AliasedItem(columns[i]) == Some(e)
  {
    Seqs.SelectIff(columns, (c: string) => AliasedItem(c).Some?, (c: string) => AliasedItem(c).GetOr(SelectItem(Id, None)));
    Seqs.Select(columns, (c: string) => AliasedItem(c).Some?, (c: string) => AliasedItem(c).GetOr(SelectItem(Id, None)))
  }

  lemma AliasedKeys(columns: seq<string>)
    ensures forall x :: x in Keys(AliasedColumns(columns)) <==> x in columns && ColumnItem(x).Some?
  {
    var items := AliasedColumns(columns);
    KeysMembers(items);
    forall x | x in Keys(items) ensures x in columns && ColumnItem(x).Some? {
      var k :| 0 <= k < |items| && ItemKey(items[k]) == x;
      assert items[k] in items;
      var i :| 0 <= i < |columns| && AliasedItem(columns[i]) == Some(items[k]);
      assert columns[i] == x;
    }
    forall x | x in columns && ColumnItem(x).Some? ensures x in Keys(items) {
      var i :| 0 <= i < |columns| && columns[i] == x;
      assert AliasedItem(x).value in items;
      var k :| 0 <= k < |items| && items[k] == AliasedItem(x).value;
      assert ItemKey(items[k]) == x;
    }
  }

  lemma AliasedValue(sp: Spatial, row: WardRow, columns: seq<string>, c: string)
    requires c in columns && ColumnItem(c).Some?
    ensures c in RowObject(sp, row, AliasedColumns(columns))
    ensures Some(RowObject(sp, row, AliasedColumns(columns))[c]) == FieldValue(ToWard(sp, row), c)
  {
    var items := AliasedColumns(columns);
    var i :| 0 <= i < |columns| && columns[i] == c;
    var item := AliasedItem(c).value;
    assert item in items;
    var k :| 0 <= k < |items| && items[k] == item;
    forall j | 0 <= j < |items| && ItemKey(items[j]) == ItemKey(items[k]) ensures items[j].column == items[k].column {
      var h :| 0 <= h < |columns| && AliasedItem(columns[h]) == Some(items[j]);
    }
    RowObjectValue(sp, row, items, k);
    SelectsTheField(sp, row, c);
  }

  /** With the aliases, each object's properties are exactly the valid requested field names. */
  lemma AliasedRowKeys(sp: Spatial, row: WardRow, columns: seq<string>)
    ensures forall x :: x in RowObject(sp, row, AliasedColumns(columns)) <==> x in columns && ColumnItem(x).Some?
  {
    var m := RowObject(sp, row, AliasedColumns(columns));
    AliasedKeys(columns);
    forall x ensures x in m <==> x in columns && ColumnItem(x).Some? {
      assert x in m <==> x in m.Keys;
    }
  }

  /** With the aliases, each valid requested field name holds that field of the ward. */
  lemma AliasedRowValues(sp: Spatial, row: WardRow, columns: seq<string>)
    ensures forall c :: c in columns && ColumnItem(c).Some? ==>
              c in RowObject(sp, row, AliasedColumns(columns)) &&
              Some(RowObject(sp, row, AliasedColumns(columns))[c]) == FieldValue(ToWard(sp, row), c)
  {
    forall c | c in columns && ColumnItem(c).Some?
      ensures c in RowObject(sp, row, AliasedColumns(columns)) &&
              Some(RowObject(sp, row, AliasedColumns(columns))[c]) == FieldValue(ToWard(sp, row), c)
    {
      AliasedValue(sp, row, columns, c);
    }
  }

  // ---------------------------------------------------------------- nearest

  /**
   * findNearestWard: the first row in ORDER BY distance, where a NULL distance
   * sorts before every value, returned with that distance (the first among ties).
   */
  function FindNearestWard(sp: Spatial, t: seq<WardRow>, lat: real, lng: real): (r: Option<WithDistance<Ward, Option<real>>>)
    ensures r.None? <==> |t| == 0
    ensures r.Some? ==> exists i :: 0 <= i < |t|
                          && r.value == WithDistance(ToWard(sp, t[i]), PlanarDistance(sp, t[i], lat, lng))
                          && (forall j :: 0 <= j < |t| ==> Seqs.NullsFirstLe(PlanarDistance(sp, t[i], lat, lng), PlanarDistance(sp, t[j], lat, lng)))
                          && (forall j :: 0 <= j < i ==> !Seqs.NullsFirstLe(PlanarDistance(sp, t[j], lat, lng), PlanarDistance(sp, t[i], lat, lng)))
  {
    if |t| == 0 then None
    else
      var i := Seqs.ArgMinNullsFirst(t, (row: WardRow) => PlanarDistance(sp, row, lat, lng));
      Some(WithDistance(ToWard(sp, t[i]), PlanarDistance(sp, t[i], lat, lng)))
  }

  /**
   * A ward without a geometry has a NULL distance, which sorts first: the
   * nearest-ward search returns the first such ward, with a NULL distance.
   */
  lemma GeometrylessWardIsNearest(sp: Spatial, t: seq<WardRow>, lat: real, lng: real, k: int)
    requires 0 <= k < |t| && t[k].geom.None? && sp.distance(None, Point(lng, lat)).None?
    requires forall j :: 0 <= j < k ==> PlanarDistance(sp, t[j], lat, lng).Some?
    ensures FindNearestWard(sp, t, lat, lng) == Some(WithDistance(ToWard(sp, t[k]), None))
  {
    var r := FindNearestWard(sp, t, lat, lng);
    var i :| 0 <= i < |t| && r.value == WithDistance(ToWard(sp, t[i]), PlanarDistance(sp, t[i], lat, lng))
             && (forall j :: 0 <= j < |t| ==> Seqs.NullsFirstLe(PlanarDistance(sp, t[i], lat, lng), PlanarDistance(sp, t[j], lat, lng)))
             && (forall j :: 0 <= j < i ==> !Seqs.NullsFirstLe(PlanarDistance(sp, t[j], lat, lng), PlanarDistance(sp, t[i], lat, lng)));
    assert Seqs.NullsFirstLe(PlanarDistance(sp, t[i], lat, lng), PlanarDistance(sp, t[k], lat, lng));
    assert i <= k by {
      assert Seqs.NullsFirstLe(PlanarDistance(sp, t[k], lat, lng), PlanarDistance(sp, t[i], lat, lng));
    }
  }

  // ------------------------------------------------------------------ radius

  /**
   * findWardsWithinDistance: the wards closer than the radius (1000 m by
   * default), each once, nearest first; a NULL distance fails the bound.
   */
  function WithinRadius(sp: Spatial, lat: real, lng: real, limit: real): WardRow -> bool
  {
    (row: WardRow) => Below(MetricDistance(sp, row, lat, lng), limit)
  }

  /** The ward and its metric distance; only read for rows whose distance is not NULL. */
  function WithMetricDistance(sp: Spatial, lat: real, lng: real): WardRow -> WithDistance<Ward, real>
  {
    (row: WardRow) => WithDistance(ToWard(sp, row), MetricDistance(sp, row, lat, lng).GetOr(0.0))
  }

  /** The rows the radius filter keeps, before ordering: close rows with their non-NULL distances. */
  lemma WithinSelected(sp: Spatial, t: seq<WardRow>, lat: real, lng: real, limit: real)
    ensures forall x :: x in Seqs.Select(t, WithinRadius(sp, lat, lng, limit), WithMetricDistance(sp, lat, lng)) <==>
              exists i :: 0 <= i < |t| && Below(MetricDistance(sp, t[i], lat, lng), limit) &&
                x == WithDistance(ToWard(sp, t[i]), MetricDistance(sp, t[i], lat, lng).value)
    ensures forall x :: x in Seqs.Select(t, WithinRadius(sp, lat, lng, limit), WithMetricDistance(sp, lat, lng)) ==>
              x.distance < limit
  {
    Seqs.SelectIff(t, WithinRadius(sp, lat, lng, limit), WithMetricDistance(sp, lat, lng));
  }

  function FindWardsWithinDistance(sp: Spatial, t: seq<WardRow>, lat: real, lng: real, radius: Option<real>)
    : (r: seq<WithDistance<Ward, real>>)
    ensures forall x :: x in r ==> x.distance < radius.GetOr(DefaultRadiusMeters)
    ensures forall i, j :: 0 <= i < j < |r| ==> r[i].distance <= r[j].distance
    ensures forall x :: x in r <==>
              exists i :: 0 <= i < |t| &&
                Below(MetricDistance(sp, t[i], lat, lng), radius.GetOr(DefaultRadiusMeters)) &&
                x == WithDistance(ToWard(sp, t[i]), MetricDistance(sp, t[i], lat, lng).value)
    ensures forall x :: multiset(r)[x] ==
              Seqs.CountWhere(t, WithinRadius(sp, lat, lng, radius.GetOr(DefaultRadiusMeters)), WithMetricDistance(sp, lat, lng), x)
  {
    var limit := radius.GetOr(DefaultRadiusMeters);
    var p := WithinRadius(sp, lat, lng, limit);
    var f := WithMetricDistance(sp, lat, lng);
    var selected := Seqs.Select(t, p, f);
    WithinSelected(sp, t, lat, lng, limit);
    var sorted := Seqs.SortBy(selected, (x: WithDistance<Ward, real>) => x.distance);
    assert forall x :: x in sorted <==> x in selected by {
      forall x ensures x in sorted <==> x in selected {
        assert x in sorted <==> x in multiset(sorted);
        assert x in selected <==> x in multiset(selected);
      }
    }
    forall x ensures multiset(sorted)[x] == Seqs.CountWhere(t, p, f, x) {
      Seqs.SelectCount(t, p, f, x);
    }
    sorted
  }

  // ------------------------------------------------------------------- smart

  /** findWardSmart: the containing ward, else the nearest one; None only for an empty table. */
  function FindWardSmart(sp: Spatial, t: seq<WardRow>, lat: real, lng: real): (r: Option<Found<Ward, Option<real>>>)
    ensures r.None? <==> |t| == 0
    ensures (r.Some? && r.value.Exact?) <==> exists i :: 0 <= i < |t| && ContainsPoint(sp, t[i], lat, lng)
    ensures r.Some? && r.value.Exact? ==> FindWardByPoint(sp, t, lat, lng) == Some(r.value.ward)
    ensures r.Some? && r.value.Closest? ==>
              FindNearestWard(sp, t, lat, lng) == Some(WithDistance(r.value.ward, r.value.distance))
  {
    match FindWardByPoint(sp, t, lat, lng)
    case Some(w) => Some(Exact(w))
    case None =>
      match FindNearestWard(sp, t, lat, lng)
      case None => None
      case Some(n) => Some(Closest(n.ward, n.distance))
  }

  // ------------------------------------------------------------ bounding box

  /** findWardsInBoundingBox: the wards whose MBR lies within BuildMbr(minLng, minLat, maxLng, maxLat). */
  function MbrWithinFilter(sp: Spatial, box: Rect): WardRow -> bool
  {
    (row: WardRow) => sp.mbrWithin(row.geom, box)
  }

  function FindWardsInBoundingBox(sp: Spatial, t: seq<WardRow>, minLat: real, minLng: real, maxLat: real, maxLng: real)
    : (r: seq<Ward>)
    ensures forall w :: w in r <==>
              exists i :: 0 <= i < |t| &&
                sp.mbrWithin(t[i].geom, BuildMbr(minLng, minLat, maxLng, maxLat)) && w == ToWard(sp, t[i])
    ensures forall w :: multiset(r)[w] ==
              Seqs.CountWhere(t, MbrWithinFilter(sp, BuildMbr(minLng, minLat, maxLng, maxLat)), AsWard(sp), w)
  {
    var p := MbrWithinFilter(sp, BuildMbr(minLng, minLat, maxLng, maxLat));
    Seqs.SelectIff(t, p, AsWard(sp));
    forall w ensures multiset(Seqs.Select(t, p, AsWard(sp)))[w] == Seqs.CountWhere(t, p, AsWard(sp), w) {
      Seqs.SelectCount(t, p, AsWard(sp), w);
    }
    Seqs.Select(t, p, AsWard(sp))
  }

  // ============================================================== optimized

  /** The cached bbox columns are present and enclose (lng, lat), bounds included. */
  predicate InBbox(b: Bbox, lng: real, lat: real)
  {
    HasBbox(b) && InRect(BboxRect(b), Point(lng, lat))
  }

  /** The WHERE clause of the pre-filtered lookup, in SQL's three-valued logic. */
  predicate PrefilterWhere(sp: Spatial, r: WardRow, lat: real, lng: real)
  {
    Holds(And(And(Between(Some(lng), r.bbox.minx, r.bbox.maxx),
                  Between(Some(lat), r.bbox.miny, r.bbox.maxy)),
              Of(ContainsPoint(sp, r, lat, lng))))
  }

  /** The pre-filter condition holds exactly when the bbox encloses the point and the geometry contains it. */
  lemma PrefilterWhereIff(sp: Spatial, r: WardRow, lat: real, lng: real)
    ensures PrefilterWhere(sp, r, lat, lng) <==> InBbox(r.bbox, lng, lat) && ContainsPoint(sp, r, lat, lng)
  {
    BetweenHolds(lng, r.bbox.minx, r.bbox.maxx);
    BetweenHolds(lat, r.bbox.miny, r.bbox.maxy);
  }

  /** findWardByPointOptimized: the first ward whose bbox encloses the point and whose geometry contains it. */
  function FindWardByPointOptimized(sp: Spatial, t: seq<WardRow>, lat: real, lng: real): (r: Option<OptimizedWard>)
    ensures r.None? <==> forall i :: 0 <= i < |t| ==> !(InBbox(t[i].bbox, lng, lat) && ContainsPoint(sp, t[i], lat, lng))
    ensures r.Some? ==> exists i :: 0 <= i < |t|
                          && InBbox(t[i].bbox, lng, lat) && ContainsPoint(sp, t[i], lat, lng)
                          && (forall j :: 0 <= j < i ==> !(InBbox(t[j].bbox, lng, lat) && ContainsPoint(sp, t[j], lat, lng)))
                          && r.value == ToOptimizedWard(sp, t[i])
  {
    forall row { PrefilterWhereIff(sp, row, lat, lng); }
    match Seqs.FirstIndex(t, (row: WardRow) => PrefilterWhere(sp, row, lat, lng))
    case None => None
    case Some(i) => Some(ToOptimizedWard(sp, t[i]))
  }

  /**
   * When every row has a geometry and caches its MBR, the pre-filter discards
   * no containing row, so the fast lookup finds the same ward as the plain one.
   */
  lemma PrefilterAgrees(sp: Spatial, t: seq<WardRow>, lat: real, lng: real)
    requires MbrSound(sp) && AllBboxCached(sp, t)
    requires forall i :: 0 <= i < |t| ==> t[i].geom.Some?
    ensures FindWardByPointOptimized(sp, t, lat, lng).None? == FindWardByPoint(sp, t, lat, lng).None?
    ensures FindWardByPointOptimized(sp, t, lat, lng).Some? ==>
              Some(FindWardByPointOptimized(sp, t, lat, lng).value.ward) == FindWardByPoint(sp, t, lat, lng)
  {
    var p := (row: WardRow) => PrefilterWhere(sp, row, lat, lng);
    var q := (row: WardRow) => ContainsPoint(sp, row, lat, lng);
    forall j | 0 <= j < |t| ensures p(t[j]) == q(t[j]) {
      PrefilterWhereIff(sp, t[j], lat, lng);
      if q(t[j]) {
        assert BboxCached(sp, t[j]);
        assert InRect(sp.mbr(t[j].geom.value), Point(lng, lat));
      }
    }
    Seqs.FirstIndexAgree(t, p, q);
  }

  /** findNearestWardOptimized: as findNearestWard, returning the bbox columns as well. */
  function FindNearestWardOptimized(sp: Spatial, t: seq<WardRow>, lat: real, lng: real)
    : (r: Option<WithDistance<OptimizedWard, Option<real>>>)
    ensures r.None? <==> |t| == 0
    ensures r.Some? ==> exists i :: 0 <= i < |t|
                          && r.value == WithDistance(ToOptimizedWard(sp, t[i]), PlanarDistance(sp, t[i], lat, lng))
                          && (forall j :: 0 <= j < |t| ==> Seqs.NullsFirstLe(PlanarDistance(sp, t[i], lat, lng), PlanarDistance(sp, t[j], lat, lng)))
                          && (forall j :: 0 <= j < i ==> !Seqs.NullsFirstLe(PlanarDistance(sp, t[j], lat, lng), PlanarDistance(sp, t[i], lat, lng)))
  {
    if |t| == 0 then None
    else
      var i := Seqs.ArgMinNullsFirst(t, (row: WardRow) => PlanarDistance(sp, row, lat, lng));
      Some(WithDistance(ToOptimizedWard(sp, t[i]), PlanarDistance(sp, t[i], lat, lng)))
  }

  /** NOT (maxx < minLng OR minx > maxLng OR maxy < minLat OR miny > maxLat), in three-valued logic. */
  predicate OverlapWhere(b: Bbox, minLat: real, minLng: real, maxLat: real, maxLng: real)
  {
    Holds(Not(Or(Or(Or(Lt(b.maxx, Some(minLng)), Lt(Some(maxLng), b.minx)),
                    Lt(b.maxy, Some(minLat))),
                 Lt(Some(maxLat), b.miny))))
  }

  /** The overlap condition holds exactly when the bbox is present and meets the closed query rectangle. */
  lemma OverlapWhereIff(b: Bbox, minLat: real, minLng: real, maxLat: real, maxLng: real)
    ensures OverlapWhere(b, minLat, minLng, maxLat, maxLng) <==>
              HasBbox(b) && RectsOverlap(BboxRect(b), Rect(minLng, minLat, maxLng, maxLat))
  {
  }

  /** findWardsInBoundingBoxOptimized: the wards whose cached bbox overlaps the closed query rectangle. */
  function FindWardsInBoundingBoxOptimized(sp: Spatial, t: seq<WardRow>, minLat: real, minLng: real, maxLat: real, maxLng: real)
    : (r: seq<OptimizedWard>)
    ensures forall w :: w in r <==>
              exists i :: 0 <= i < |t| &&
                HasBbox(t[i].bbox) && RectsOverlap(BboxRect(t[i].bbox), Rect(minLng, minLat, maxLng, maxLat)) &&
                w == ToOptimizedWard(sp, t[i])
    ensures forall w :: multiset(r)[w] ==
              Seqs.CountWhere(t, OverlapFilter(minLat, minLng, maxLat, maxLng), AsOptimizedWard(sp), w)
  {
    var p := OverlapFilter(minLat, minLng, maxLat, maxLng);
    forall b { OverlapWhereIff(b, minLat, minLng, maxLat, maxLng); }
    Seqs.SelectIff(t, p, AsOptimizedWard(sp));
    forall w ensures multiset(Seqs.Select(t, p, AsOptimizedWard(sp)))[w] == Seqs.CountWhere(t, p, AsOptimizedWard(sp), w) {
      Seqs.SelectCount(t, p, AsOptimizedWard(sp), w);
    }
    Seqs.Select(t, p, AsOptimizedWard(sp))
  }

  function OverlapFilter(minLat: real, minLng: real, maxLat: real, maxLng: real): WardRow -> bool
  {
    (row: WardRow) => OverlapWhere(row.bbox, minLat, minLng, maxLat, maxLng)
  }

  /**
   * For a well-formed query box over a loaded table, every ward the MBR-within
   * query returns is also returned by the bbox-overlap query.
   */
  lemma WithinResultsOverlap(sp: Spatial, t: seq<WardRow>, minLat: real, minLng: real, maxLat: real, maxLng: real)
    requires MbrWithinSound(sp) && MbrWellFormed(sp) && AllBboxCached(sp, t)
    requires forall i :: 0 <= i < |t| ==> t[i].geom.Some?
    requires minLng <= maxLng && minLat <= maxLat
    ensures forall w :: w in FindWardsInBoundingBox(sp, t, minLat, minLng, maxLat, maxLng) ==>
              exists o :: o in FindWardsInBoundingBoxOptimized(sp, t, minLat, minLng, maxLat, maxLng) && o.ward == w
  {
    var box := BuildMbr(minLng, minLat, maxLng, maxLat);
    assert box == Rect(minLng, minLat, maxLng, maxLat);
    forall w | w in FindWardsInBoundingBox(sp, t, minLat, minLng, maxLat, maxLng)
      ensures exists o :: o in FindWardsInBoundingBoxOptimized(sp, t, minLat, minLng, maxLat, maxLng) && o.ward == w
    {
      var i :| 0 <= i < |t| && sp.mbrWithin(t[i].geom, box) && w == ToWard(sp, t[i]);
      var g := t[i].geom.value;
      assert BboxCached(sp, t[i]);
      assert RectWithin(sp.mbr(g), box);
      assert WellFormed(sp.mbr(g));
      WithinImpliesOverlap(sp.mbr(g), box);
      assert BboxRect(t[i].bbox) == sp.mbr(g);
      assert ToOptimizedWard(sp, t[i]) in FindWardsInBoundingBoxOptimized(sp, t, minLat, minLng, maxLat, maxLng);
    }
  }

  /** getWardsByCodesOptimized: the wards whose ward_code is one of the codes; a NULL code matches none. */
  function CodeFilter(codes: seq<string>): WardRow -> bool
  {
    (row: WardRow) => row.wardCode.Some? && row.wardCode.value in codes
  }

  function GetWardsByCodesOptimized(sp: Spatial, t: seq<WardRow>, codes: seq<string>): (r: seq<OptimizedWard>)
    ensures forall w :: w in r <==>
              exists i :: 0 <= i < |t| &&
                t[i].wardCode.Some? && t[i].wardCode.value in codes && w == ToOptimizedWard(sp, t[i])
    ensures forall w :: multiset(r)[w] == Seqs.CountWhere(t, CodeFilter(codes), AsOptimizedWard(sp), w)
  {
    Seqs.SelectIff(t, CodeFilter(codes), AsOptimizedWard(sp));
    forall w ensures multiset(Seqs.Select(t, CodeFilter(codes), AsOptimizedWard(sp)))[w] == Seqs.CountWhere(t, CodeFilter(codes), AsOptimizedWard(sp), w) {
      Seqs.SelectCount(t, CodeFilter(codes), AsOptimizedWard(sp), w);
    }
    Seqs.Select(t, CodeFilter(codes), AsOptimizedWard(sp))
  }

  /** findWardSmartOptimized: the pre-filtered containing ward, else the nearest; None only for an empty table. */
  function FindWardSmartOptimized(sp: Spatial, t: seq<WardRow>, lat: real, lng: real): (r: Option<Found<OptimizedWard, Option<real>>>)
    ensures r.None? <==> |t| == 0
    ensures r.Some? && r.value.Exact? ==> FindWardByPointOptimized(sp, t, lat, lng) == Some(r.value.ward)
    ensures r.Some? && r.value.Closest? ==>
              FindWardByPointOptimized(sp, t, lat, lng).None? &&
              FindNearestWardOptimized(sp, t, lat, lng) == Some(WithDistance(r.value.ward, r.value.distance))
  {
    match FindWardByPointOptimized(sp, t, lat, lng)
    case Some(w) => Some(Exact(w))
    case None =>
      match FindNearestWardOptimized(sp, t, lat, lng)
      case None => None
      case Some(n) => Some(Closest(n.ward, n.distance))
  }

  /** Over a loaded table the two smart finders choose the same ward by the same route. */
  lemma SmartAgrees(sp: Spatial, t: seq<WardRow>, lat: real, lng: real)
    requires MbrSound(sp) && AllBboxCached(sp, t)
    requires forall i :: 0 <= i < |t| ==> t[i].geom.Some?
    ensures FindWardSmartOptimized(sp, t, lat, lng).None? == FindWardSmart(sp, t, lat, lng).None?
    ensures FindWardSmartOptimized(sp, t, lat, lng).Some? ==>
              var o := FindWardSmartOptimized(sp, t, lat, lng).value;
              var w := FindWardSmart(sp, t, lat, lng).value;
              o.Exact? == w.Exact? && o.ward.ward == w.ward && (o.Closest? ==> o.distance == w.distance)
  {
    PrefilterAgrees(sp, t, lat, lng);
    if |t| > 0 {
      var i := Seqs.ArgMinNullsFirst(t, (row: WardRow) => PlanarDistance(sp, row, lat, lng));
      assert FindNearestWard(sp, t, lat, lng) == Some(WithDistance(ToWard(sp, t[i]), PlanarDistance(sp, t[i], lat, lng)));
    }
  }

  // ------------------------------------------------------------ combined bbox

  /** A nullable REAL as JavaScript's Math.min/Math.max read it: null counts as 0. */
  function AsNumber(v: Option<real>): real
  {
    v.GetOr(0.0)
  }

  function MinOf(xs: seq<real>): (m: real)
    requires |xs| > 0
    ensures m in xs && forall k :: 0 <= k < |xs| ==> m <= xs[k]
  {
    if |xs| == 1 then xs[0]
    else
      var rest := MinOf(xs[1..]);
      if xs[0] <= rest then xs[0] else rest
  }

  function MaxOf(xs: seq<real>): (m: real)
    requires |xs| > 0
    ensures m in xs && forall k :: 0 <= k < |xs| ==> xs[k] <= m
  {
    if |xs| == 1 then xs[0]
    else
      var rest := MaxOf(xs[1..]);
      if rest <= xs[0] then xs[0] else rest
  }

  /**
   * calculateCombinedBBox: all zeros for no wards; otherwise the least minx/miny
   * and the greatest maxx/maxy, each taken from some ward.
   */
  function CalculateCombinedBBox(wards: seq<OptimizedWard>): (r: Rect)
    ensures |wards| == 0 ==> r == Rect(0.0, 0.0, 0.0, 0.0)
    ensures forall k :: 0 <= k < |wards| ==>
              r.minX <= AsNumber(wards[k].bbox.minx) && r.minY <= AsNumber(wards[k].bbox.miny) &&
              AsNumber(wards[k].bbox.maxx) <= r.maxX && AsNumber(wards[k].bbox.maxy) <= r.maxY
    ensures |wards| > 0 ==>
              (exists k :: 0 <= k < |wards| && r.minX == AsNumber(wards[k].bbox.minx)) &&
              (exists k :: 0 <= k < |wards| && r.minY == AsNumber(wards[k].bbox.miny)) &&
              (exists k :: 0 <= k < |wards| && r.maxX == AsNumber(wards[k].bbox.maxx)) &&
              (exists k :: 0 <= k < |wards| && r.maxY == AsNumber(wards[k].bbox.maxy))
  {
    if |wards| == 0 then Rect(0.0, 0.0, 0.0, 0.0)
    else
      var n := |wards|;
      var minXs := seq(n, k requires 0 <= k < n => AsNumber(wards[k].bbox.minx));
      var minYs := seq(n, k requires 0 <= k < n => AsNumber(wards[k].bbox.miny));
      var maxXs := seq(n, k requires 0 <= k < n => AsNumber(wards[k].bbox.maxx));
      var maxYs := seq(n, k requires 0 <= k < n => AsNumber(wards[k].bbox.maxy));
      var r := Rect(MinOf(minXs), MinOf(minYs), MaxOf(maxXs), MaxOf(maxYs));
      assert forall k :: 0 <= k < n ==>
        minXs[k] == AsNumber(wards[k].bbox.minx) && minYs[k] == AsNumber(wards[k].bbox.miny) &&
        maxXs[k] == AsNumber(wards[k].bbox.maxx) && maxYs[k] == AsNumber(wards[k].bbox.maxy);
      r
  }

  /** The combined box encloses the bbox of every ward whose four columns are set. */
  lemma CombinedBBoxEncloses(wards: seq<OptimizedWard>, k: int)
    requires 0 <= k < |wards| && HasBbox(wards[k].bbox)
    ensures RectWithin(BboxRect(wards[k].bbox), CalculateCombinedBBox(wards))
  {
  }
}
