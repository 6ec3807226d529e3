/**
 * The PostGIS ward resolver over `kenya_wards` (geometry(MultiPolygon, 4326),
 * NOT NULL). The table is its rows in the order a sequential scan returns them.
 */
module PostgisQueries {
  import opened Options
  import opened Geometry
  import opened WardRows
  import Seqs
  import Text

  datatype PgWard = PgWard(
    id: int,
    wardCode: string,
    ward: string,
    county: string,
    countyCode: int,
    subCounty: Option<string>,
    constituency: string,
    constituencyCode: int,
    geometry: Geom
  )

  /** The PostGIS primitives the queries call. */
  datatype PostGis = PostGis(
    contains: (Geom, Point) -> bool,        // ST_Contains(geometry, ST_SetSRID(ST_MakePoint(lng, lat), 4326))
    distance: (Geom, Point) -> real,        // ST_Distance(geometry, point) and `geometry <-> point`: planar, in degrees
    intersects: (Geom, Rect) -> bool,       // ST_Intersects(geometry, ST_MakeEnvelope(..., 4326))
    geodesicDistance: (Geom, Point) -> real // ST_Distance(geometry::geography, point::geography): in metres
  )

  const DefaultRadius: real := 1000.0

  function Distance(pg: PostGis, w: PgWard, lat: real, lng: real): real
  {
    pg.distance(w.geometry, Point(lng, lat))
  }

  /** findWardByPoint: the first ward containing the point, or None. */
  function FindWardByPoint(pg: PostGis, t: seq<PgWard>, lat: real, lng: real): (r: Option<PgWard>)
    ensures r.None? <==> forall i :: 0 <= i < |t| ==> !pg.contains(t[i].geometry, Point(lng, lat))
    ensures r.Some? ==> exists i :: 0 <= i < |t| && pg.contains(t[i].geometry, Point(lng, lat)) &&
                          (forall j :: 0 <= j < i ==> !pg.contains(t[j].geometry, Point(lng, lat))) &&
                          r.value == t[i]
  {
    Seqs.FirstWhere(t, (w: PgWard) => pg.contains(w.geometry, Point(lng, lat)))
  }

  /** findNearestWard: the first ward in `<->` order, with its ST_Distance; None only for an empty table. */
  function FindNearestWard(pg: PostGis, t: seq<PgWard>, lat: real, lng: real): (r: Option<WithDistance<PgWard, real>>)
    ensures r.None? <==> |t| == 0
    ensures r.Some? ==> exists i :: 0 <= i < |t| &&
                          r.value == WithDistance(t[i], Distance(pg, t[i], lat, lng)) &&
                          (forall j :: 0 <= j < |t| ==> Distance(pg, t[i], lat, lng) <= Distance(pg, t[j], lat, lng)) &&
                          (forall j :: 0 <= j < i ==> Distance(pg, t[i], lat, lng) < Distance(pg, t[j], lat, lng))
  {
    if |t| == 0 then None
    else
      var i := Seqs.ArgMinFirst(t, (w: PgWard) => Distance(pg, w, lat, lng));
      Some(WithDistance(t[i], Distance(pg, t[i], lat, lng)))
  }

  /** A ward paired with its `<->` distance from the point. */
  function WithItsDistance(pg: PostGis, lat: real, lng: real): PgWard -> WithDistance<PgWard, real>
  {
    (w: PgWard) => WithDistance(w, Distance(pg, w, lat, lng))
  }

  /** The rows a selection keeps, each once per row, with their distances, in ascending `<->` order. */
  function NearestFirst(pg: PostGis, t: seq<PgWard>, keep: PgWard -> bool, lat: real, lng: real)
    : (r: seq<WithDistance<PgWard, real>>)
    ensures forall i, j :: 0 <= i < j < |r| ==> r[i].distance <= r[j].distance
    ensures forall x :: x in r <==>
              exists i :: 0 <= i < |t| && keep(t[i]) && x == WithDistance(t[i], Distance(pg, t[i], lat, lng))
    ensures forall x :: multiset(r)[x] == Seqs.CountWhere(t, keep, WithItsDistance(pg, lat, lng), x)
  {
    var f := WithItsDistance(pg, lat, lng);
    var selected := Seqs.Select(t, keep, f);
    Seqs.SelectIff(t, keep, f);
    forall x ensures multiset(selected)[x] == Seqs.CountWhere(t, keep, f, x) {
      Seqs.SelectCount(t, keep, f, x);
    }
    var sorted := Seqs.SortBy(selected, (x: WithDistance<PgWard, real>) => x.distance);
    assert forall x :: x in sorted <==> x in selected by {
      forall x ensures x in sorted <==> x in selected {
        assert x in sorted <==> x in multiset(sorted);
        assert x in selected <==> x in multiset(selected);
      }
    }
    sorted
  }

  /** The ST_DWithin test as written: planar distance at most the limit. */
  function WithinDegrees(pg: PostGis, lat: real, lng: real, limit: real): PgWard -> bool
  {
    (w: PgWard) => Distance(pg, w, lat, lng) <= limit
  }

  /** The intended test: geodesic distance at most the limit, in metres. */
  function WithinMeters(pg: PostGis, lat: real, lng: real, limit: real): PgWard -> bool
  {
    (w: PgWard) => pg.geodesicDistance(w.geometry, Point(lng, lat)) <= limit
  }

  /**
   * findWardsWithinDistance as written: ST_DWithin(geometry, point, d) on
   * SRID 4326 compares the planar distance in degrees with d, bounds included,
   * although d is documented and defaulted as metres.
   */
  function FindWardsWithinDistance(pg: PostGis, t: seq<PgWard>, lat: real, lng: real, radius: Option<real>)
    : (r: seq<WithDistance<PgWard, real>>)
    ensures forall x :: x in r ==> x.distance <= radius.GetOr(DefaultRadius)
    ensures forall i, j :: 0 <= i < j < |r| ==> r[i].distance <= r[j].distance
    ensures forall x :: x in r <==>
              exists i :: 0 <= i < |t| && Distance(pg, t[i], lat, lng) <= radius.GetOr(DefaultRadius) &&
                x == WithDistance(t[i], Distance(pg, t[i], lat, lng))
    ensures forall x :: multiset(r)[x] ==
              Seqs.CountWhere(t, WithinDegrees(pg, lat, lng, radius.GetOr(DefaultRadius)), WithItsDistance(pg, lat, lng), x)
  {
    NearestFirst(pg, t, WithinDegrees(pg, lat, lng, radius.GetOr(DefaultRadius)), lat, lng)
  }

  /**
   * A ward 500 km from the point (4.5 degrees away) is returned by the default
   * "1000 metre" search, since the bound is read in degrees.
   */
  lemma DefaultRadiusIsDegrees()
    ensures var pg := PostGis((g, p) => false, (g, p) => 4.5, (g, e) => false, (g, p) => 500000.0);
            var w := PgWard(1, "0001", "Far", "Far County", 1, None, "Far Constituency", 1, []);
            pg.geodesicDistance(w.geometry, Point(36.8, -1.3)) > DefaultRadius &&
            WithDistance(w, 4.5) in FindWardsWithinDistance(pg, [w], -1.3, 36.8, None)
  {
    var pg := PostGis((g, p) => false, (g, p) => 4.5, (g, e) => false, (g, p) => 500000.0);
    var w := PgWard(1, "0001", "Far", "Far County", 1, None, "Far Constituency", 1, []);
    assert Distance(pg, [w][0], -1.3, 36.8) <= DefaultRadius;
  }

  /**
   * findWardsWithinDistance as intended: the wards whose geodesic distance is
   * within the radius in metres, bounds included, in ascending `<->` order.
   */
  function FindWardsWithinMeters(pg: PostGis, t: seq<PgWard>, lat: real, lng: real, radius: Option<real>)
    : (r: seq<WithDistance<PgWard, real>>)
    ensures forall x :: x in r ==> pg.geodesicDistance(x.ward.geometry, Point(lng, lat)) <= radius.GetOr(DefaultRadius)
    ensures forall i, j :: 0 <= i < j < |r| ==> r[i].distance <= r[j].distance
    ensures forall x :: x in r <==>
              exists i :: 0 <= i < |t| && pg.geodesicDistance(t[i].geometry, Point(lng, lat)) <= radius.GetOr(DefaultRadius) &&
                x == WithDistance(t[i], Distance(pg, t[i], lat, lng))
    ensures forall x :: multiset(r)[x] ==
              Seqs.CountWhere(t, WithinMeters(pg, lat, lng, radius.GetOr(DefaultRadius)), WithItsDistance(pg, lat, lng), x)
  {
    NearestFirst(pg, t, WithinMeters(pg, lat, lng, radius.GetOr(DefaultRadius)), lat, lng)
  }

  /** findWardSmart: the containing ward, else the nearest; None only for an empty table. */
  function FindWardSmart(pg: PostGis, t: seq<PgWard>, lat: real, lng: real): (r: Option<Found<PgWard, real>>)
    ensures r.None? <==> |t| == 0
    ensures (r.Some? && r.value.Exact?) <==> exists i :: 0 <= i < |t| && pg.contains(t[i].geometry, Point(lng, lat))
    ensures r.Some? && r.value.Exact? ==> FindWardByPoint(pg, t, lat, lng) == Some(r.value.ward)
    ensures r.Some? && r.value.Closest? ==>
              FindNearestWard(pg, t, lat, lng) == Some(WithDistance(r.value.ward, r.value.distance))
  {
    match FindWardByPoint(pg, t, lat, lng)
    case Some(w) => Some(Exact(w))
    case None =>
      match FindNearestWard(pg, t, lat, lng)
      case None => None
      case Some(n) => Some(Closest(n.ward, n.distance))
  }

  /** findWardsByCounty: every ward whose county equals the name, ignoring case, as often as the table holds it. */
  function FindWardsByCounty(t: seq<PgWard>, countyName: string): (r: seq<PgWard>)
    ensures forall w :: w in r <==> w in t && Text.Lower(w.county) == Text.Lower(countyName)
    ensures forall w :: multiset(r)[w] == if Text.Lower(w.county) == Text.Lower(countyName) then multiset(t)[w] else 0
  {
    var r := Seqs.Filter(t, (w: PgWard) => Text.Lower(w.county) == Text.Lower(countyName));
    assert forall w :: w in r <==> w in multiset(r);
    r
  }

  /** findWardsInBoundingBox: the wards whose geometry intersects the envelope itself, not merely its MBR. */
  function FindWardsInBoundingBox(pg: PostGis, t: seq<PgWard>, minLat: real, minLng: real, maxLat: real, maxLng: real)
    : (r: seq<PgWard>)
    ensures forall w :: w in r <==> w in t && pg.intersects(w.geometry, BuildMbr(minLng, minLat, maxLng, maxLat))
    ensures forall w :: multiset(r)[w] ==
              if pg.intersects(w.geometry, BuildMbr(minLng, minLat, maxLng, maxLat)) then multiset(t)[w] else 0
  {
    var envelope := BuildMbr(minLng, minLat, maxLng, maxLat);
    var r := Seqs.Filter(t, (w: PgWard) => pg.intersects(w.geometry, envelope));
    assert forall w :: w in r <==> w in multiset(r);
    r
  }
}
