/**
 * Row normalisation of the PostGIS loader: each GeoJSON ward feature becomes
 * one `kenya_wards` row, with its sub-county looked up in the sub-county
 * mappings, missing codes coded as -1 and the geometry rebuilt as the text of
 * a GeoJSON MultiPolygon object (section 3.1.7 of RFC 7946).
 */
module PostgisLoader {
  import opened Options
  import opened Json
  import Text
  import Seqs

  /** One entry of the sub-county mappings: a county and, per sub-county, its ward names. */
  datatype SubCountyMapping = SubCountyMapping(countyName: string, subCounties: seq<(string, seq<string>)>)

  /** Object.values(subCounties).flat(): every ward name, sub-county by sub-county. */
  function Flat(subCounties: seq<(string, seq<string>)>): seq<string>
  {
    if |subCounties| == 0 then []
    else Flat(subCounties[..|subCounties| - 1]) + subCounties[|subCounties| - 1].1
  }

  /** A name is in the flattened list exactly when some sub-county lists it. */
  lemma {:induction false} FlatMember(subCounties: seq<(string, seq<string>)>, name: string)
    ensures name in Flat(subCounties) <==>
            exists k, j :: 0 <= k < |subCounties| && 0 <= j < |subCounties[k].1| && subCounties[k].1[j] == name
  {
    if |subCounties| > 0 {
      var init := subCounties[..|subCounties| - 1];
      var last := subCounties[|subCounties| - 1];
      FlatMember(init, name);
      if name in last.1 {
        var j :| 0 <= j < |last.1| && last.1[j] == name;
        assert subCounties[|subCounties| - 1].1[j] == name;
      }
      if exists k, j :: 0 <= k < |subCounties| && 0 <= j < |subCounties[k].1| && subCounties[k].1[j] == name {
        var k, j :| 0 <= k < |subCounties| && 0 <= j < |subCounties[k].1| && subCounties[k].1[j] == name;
        if k < |subCounties| - 1 {
          assert init[k].1[j] == name;
        } else {
          assert name in last.1;
        }
      }
    }
  }

  /** Some flattened ward name contains `ward`, both lower-cased. */
  predicate Matches(m: SubCountyMapping, ward: string)
  {
    var names := Flat(m.subCounties);
    exists k :: 0 <= k < |names| && Text.Contains(Text.Lower(names[k]), Text.Lower(ward))
  }

  /** getSubCounty: county_name of the first mapping that matches, or null. */
  function GetSubCounty(mappings: seq<SubCountyMapping>, ward: string): (r: Option<string>)
    ensures r.None? <==> forall i :: 0 <= i < |mappings| ==> !Matches(mappings[i], ward)
    ensures r.Some? ==> exists i :: 0 <= i < |mappings| && Matches(mappings[i], ward) &&
                                    r.value == mappings[i].countyName &&
                                    forall j :: 0 <= j < i ==> !Matches(mappings[j], ward)
  {
    match Seqs.FirstIndex(mappings, m => Matches(m, ward))
    case None => None
    case Some(i) => Some(mappings[i].countyName)
  }

  /** A ward name found in a sub-county list of a mapping that comes first resolves to that mapping's county. */
  lemma ListedWardResolves(mappings: seq<SubCountyMapping>, i: nat, k: nat, j: nat)
    requires i < |mappings| && k < |mappings[i].subCounties| && j < |mappings[i].subCounties[k].1|
    requires forall h :: 0 <= h < i ==> !Matches(mappings[h], mappings[i].subCounties[k].1[j])
    ensures GetSubCounty(mappings, mappings[i].subCounties[k].1[j]) == Some(mappings[i].countyName)
  {
    var ward := mappings[i].subCounties[k].1[j];
    var names := Flat(mappings[i].subCounties);
    FlatMember(mappings[i].subCounties, ward);
    var n :| 0 <= n < |names| && names[n] == ward;
    Text.ContainsIff(Text.Lower(ward), Text.Lower(ward));
    assert Text.OccursAt(Text.Lower(ward), Text.Lower(ward), 0);
    assert Matches(mappings[i], ward);
  }

  /** The feature properties and coordinates the loader reads. */
  datatype PgFeature = PgFeature(
    id: string,
    ward: string,
    wardcode: string,
    county: string,
    countycode: Option<int>,
    const_: string,
    constcode: Option<int>,
    coordinates: Json
  )

  /** The row handed to the insert; `id` is None where parseInt yields NaN. */
  datatype PgWardRow = PgWardRow(
    id: Option<int>,
    ward: string,
    wardCode: string,
    county: string,
    countyCode: int,
    subCounty: string,
    constituency: string,
    constituencyCode: int,
    geometry: string
  )

  /** `code ? code : -1`: null and 0 are falsy. */
  function CodeOrMissing(code: Option<int>): (r: int)
    ensures code.Some? && code.value != 0 ==> r == code.value
    ensures code.None? || code == Some(0) ==> r == -1
  {
    if code.Some? && code.value != 0 then code.value else -1
  }

  function MultiPolygon(coordinates: Json): (g: Json)
    ensures g.JObj? && Keys(g.members) == ["type", "coordinates"]
    ensures Get(g.members, "type") == Some(JStr("MultiPolygon")) && Get(g.members, "coordinates") == Some(coordinates)
  {
    JObj([("type", JStr("MultiPolygon")), ("coordinates", coordinates)])
  }

  /** One feature's row: `subCounty || "Unknown"` also replaces an empty county name. */
  function Normalise(mappings: seq<SubCountyMapping>, f: PgFeature, numberText: real -> string): (r: PgWardRow)
    ensures r.id == Text.ParseInt(f.id)
    ensures r.ward == f.ward && r.wardCode == f.wardcode && r.county == f.county && r.constituency == f.const_
    ensures r.countyCode == CodeOrMissing(f.countycode) && r.constituencyCode == CodeOrMissing(f.constcode)
    ensures r.subCounty == "Unknown" <==>
              GetSubCounty(mappings, f.ward).None? || GetSubCounty(mappings, f.ward).value in {"", "Unknown"}
    ensures GetSubCounty(mappings, f.ward).Some? && GetSubCounty(mappings, f.ward).value != "" ==>
              r.subCounty == GetSubCounty(mappings, f.ward).value
    ensures r.geometry == Stringify(MultiPolygon(f.coordinates), numberText)
  {
    var sub := GetSubCounty(mappings, f.ward);
    PgWardRow(Text.ParseInt(f.id), f.ward, f.wardcode, f.county, CodeOrMissing(f.countycode),
              if sub.Some? && sub.value != "" then sub.value else "Unknown",
              f.const_, CodeOrMissing(f.constcode), Stringify(MultiPolygon(f.coordinates), numberText))
  }

  /** The feature list mapped row by row, in feature order. */
  function NormaliseAll(mappings: seq<SubCountyMapping>, fs: seq<PgFeature>, numberText: real -> string): (rs: seq<PgWardRow>)
    ensures |rs| == |fs|
    ensures forall i :: 0 <= i < |fs| ==> rs[i] == Normalise(mappings, fs[i], numberText)
  {
    seq(|fs|, i requires 0 <= i < |fs| => Normalise(mappings, fs[i], numberText))
  }

  /** A feature whose id is the decimal text of a number keeps that number as its row id. */
  lemma DecimalIdKept(mappings: seq<SubCountyMapping>, f: PgFeature, n: int, numberText: real -> string)
    requires f.id == Text.IntToString(n)
    ensures Normalise(mappings, f, numberText).id == Some(n)
  {
    Text.ParseIntRoundTrip(n);
  }

  /** The JSON text of a two-member object. */
  lemma StringifyPair(k1: string, v1: Json, k2: string, v2: Json, numberText: real -> string)
    ensures Stringify(JObj([(k1, v1), (k2, v2)]), numberText) ==
            "{" + Quote(k1) + ":" + Stringify(v1, numberText) + "," + Quote(k2) + ":" + Stringify(v2, numberText) + "}"
  {
    var s1, s2 := Stringify(v1, numberText), Stringify(v2, numberText);
    PairParts(k1, v1, k2, v2, numberText);
    JoinPair(Quote(k1) + ":" + s1, Quote(k2) + ":" + s2, ",");
    Regroup(Quote(k1), s1, Quote(k2), s2);
  }

  lemma Regroup(q1: string, s1: string, q2: string, s2: string)
    ensures "{" + ((q1 + ":" + s1) + "," + (q2 + ":" + s2)) + "}" == "{" + q1 + ":" + s1 + "," + q2 + ":" + s2 + "}"
  {
  }

  /** The member texts of a two-member object. */
  lemma PairParts(k1: string, v1: Json, k2: string, v2: Json, numberText: real -> string)
    ensures var members := [(k1, v1), (k2, v2)];
            Stringify(JObj(members), numberText) ==
            "{" + Seqs.Join([Quote(k1) + ":" + Stringify(v1, numberText), Quote(k2) + ":" + Stringify(v2, numberText)], ",") + "}"
  {
    var members := [(k1, v1), (k2, v2)];
    var parts := seq(|members|, k requires 0 <= k < |members| => Quote(members[k].0) + ":" + Stringify(members[k].1, numberText));
    assert parts == [Quote(k1) + ":" + Stringify(v1, numberText), Quote(k2) + ":" + Stringify(v2, numberText)];
  }

  lemma JoinPair(a: string, b: string, sep: string)
    ensures Seqs.Join([a, b], sep) == a + sep + b
  {
    assert [a, b][..1] == [a];
  }

  /** The stored geometry text is the coordinates' JSON text inside a fixed MultiPolygon wrapper. */
  lemma GeometryText(c: Json, numberText: real -> string)
    ensures Stringify(MultiPolygon(c), numberText) ==
            "{\"type\":\"MultiPolygon\",\"coordinates\":" + Stringify(c, numberText) + "}"
  {
    assert Plain("type") && Plain("MultiPolygon") && Plain("coordinates");
    PairText("type", "MultiPolygon", "coordinates", c, numberText);
    WrapperText();
  }

  /** The two-member object text with plain keys and a plain string value. */
  lemma PairText(k1: string, v1: string, k2: string, c: Json, numberText: real -> string)
    requires Plain(k1) && Plain(v1) && Plain(k2)
    ensures Stringify(JObj([(k1, JStr(v1)), (k2, c)]), numberText) ==
            "{" + ("\"" + k1 + "\"") + ":" + ("\"" + v1 + "\"") + "," + ("\"" + k2 + "\"") + ":" + Stringify(c, numberText) + "}"
  {
    StringifyPair(k1, JStr(v1), k2, c, numberText);
    QuotePlain(k1);
    QuotePlain(v1);
    QuotePlain(k2);
  }

  lemma WrapperText()
    ensures "{" + ("\"" + "type" + "\"") + ":" + ("\"" + "MultiPolygon" + "\"") + "," + ("\"" + "coordinates" + "\"") + ":" ==
            "{\"type\":\"MultiPolygon\",\"coordinates\":"
  {
  }
}
