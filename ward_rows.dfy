/**
 * The SpatiaLite `kenya_wards` table: one row per ward with a denormalised
 * bounding box beside its geometry, and the records the queries return.
 * A table is the sequence of its rows in rowid order, the order a scan
 * without ORDER BY visits them.
 */
module WardRows {
  import opened Options
  import opened Geometry

  /** The nullable REAL columns minx, miny, maxx, maxy. */
  datatype Bbox = Bbox(minx: Option<real>, miny: Option<real>, maxx: Option<real>, maxy: Option<real>)

  const NullBbox := Bbox(None, None, None, None)

  datatype WardRow = WardRow(
    id: int,
    wardCode: Option<string>,
    ward: string,
    county: string,
    countyCode: Option<int>,
    subCounty: Option<string>,
    constituency: string,
    constituencyCode: Option<int>,
    bbox: Bbox,
    geom: Option<Geom>
  )

  /** The `Ward` record: the row's attributes and `AsGeoJSON(geom) as geometry`. */
  datatype Ward = Ward(
    id: int,
    wardCode: Option<string>,
    ward: string,
    county: string,
    countyCode: Option<int>,
    subCounty: Option<string>,
    constituency: string,
    constituencyCode: Option<int>,
    geometry: Option<string>
  )

  /** The `OptimizedWard` record: a `Ward` plus the four bbox columns. */
  datatype OptimizedWard = OptimizedWard(ward: Ward, bbox: Bbox)

  /** A record with the `distance` column the nearest/radius queries add; `D` is `Option<real>` where it may be NULL. */
  datatype WithDistance<W, D> = WithDistance(ward: W, distance: D)

  /** What the smart finders return: the containing ward, or the nearest one with its distance. */
  datatype Found<W, D> = Exact(ward: W) | Closest(ward: W, distance: D)

  function ToWard(sp: Spatial, r: WardRow): (w: Ward)
    ensures w.id == r.id && w.wardCode == r.wardCode && w.geometry == sp.asGeoJson(r.geom)
  {
    Ward(r.id, r.wardCode, r.ward, r.county, r.countyCode, r.subCounty,
         r.constituency, r.constituencyCode, sp.asGeoJson(r.geom))
  }

  function ToOptimizedWard(sp: Spatial, r: WardRow): (w: OptimizedWard)
    ensures w.ward == ToWard(sp, r) && w.bbox == r.bbox
  {
    OptimizedWard(ToWard(sp, r), r.bbox)
  }

  /** The values MbrMinX(geom) .. MbrMaxY(geom) give: all NULL for a NULL geometry. */
  function MbrColumns(sp: Spatial, g: Option<Geom>): Bbox
  {
    match g
    case None => NullBbox
    case Some(v) =>
      var m := sp.mbr(v);
      Bbox(Some(m.minX), Some(m.minY), Some(m.maxX), Some(m.maxY))
  }

  /** The row's cached bounding box is the MBR of its geometry. */
  predicate BboxCached(sp: Spatial, r: WardRow)
  {
    r.bbox == MbrColumns(sp, r.geom)
  }

  ghost predicate AllBboxCached(sp: Spatial, t: seq<WardRow>)
  {
    forall i :: 0 <= i < |t| ==> BboxCached(sp, t[i])
  }

  /** Row ids strictly increase along the table: rowid order with unique ids. */
  ghost predicate IdsAscending(t: seq<WardRow>)
  {
    forall i, j :: 0 <= i < j < |t| ==> t[i].id < t[j].id
  }

  /** The four bbox columns are non-NULL; then they form a rectangle. */
  predicate HasBbox(b: Bbox)
  {
    b.minx.Some? && b.miny.Some? && b.maxx.Some? && b.maxy.Some?
  }

  function BboxRect(b: Bbox): Rect
    requires HasBbox(b)
  {
    Rect(b.minx.value, b.miny.value, b.maxx.value, b.maxy.value)
  }
}
