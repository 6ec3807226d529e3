/**
 * The spatial store's primitives, left uninterpreted. A geometry is the blob
 * the store keeps (WKB in SpatiaLite); the model never looks inside it. Every
 * primitive the queries call is a field of `Spatial`, a record of total
 * functions supplied from outside, so that each lemma holds for every store.
 */
module Geometry {
  import opened Options

  type byte = x: int | 0 <= x < 256

  /** A stored geometry (SRID 4326). */
  type Geom = seq<byte>

  /** MakePoint(lng, lat, 4326): x is the longitude, y the latitude. */
  datatype Point = Point(lng: real, lat: real)

  /** An axis-aligned rectangle, as MbrMinX/MbrMinY/MbrMaxX/MbrMaxY report it. */
  datatype Rect = Rect(minX: real, minY: real, maxX: real, maxY: real)

  /** A rectangle whose minima do not exceed its maxima. */
  predicate WellFormed(r: Rect)
  {
    r.minX <= r.maxX && r.minY <= r.maxY
  }

  /** The point lies in the closed rectangle. */
  predicate InRect(r: Rect, p: Point)
  {
    r.minX <= p.lng <= r.maxX && r.minY <= p.lat <= r.maxY
  }

  /** `inner` lies in the closed rectangle `outer` (SpatiaLite's MbrWithin on two MBRs). */
  predicate RectWithin(inner: Rect, outer: Rect)
  {
    outer.minX <= inner.minX && inner.maxX <= outer.maxX &&
    outer.minY <= inner.minY && inner.maxY <= outer.maxY
  }

  /** The two closed rectangles share at least one point. */
  predicate RectsOverlap(a: Rect, b: Rect)
  {
    a.minX <= b.maxX && b.minX <= a.maxX && a.minY <= b.maxY && b.minY <= a.maxY
  }

  function Min(a: real, b: real): real { if a <= b then a else b }
  function Max(a: real, b: real): real { if a <= b then b else a }

  /** BuildMbr(x1, y1, x2, y2): the rectangle with those two opposite corners. */
  function BuildMbr(x1: real, y1: real, x2: real, y2: real): (r: Rect)
    ensures WellFormed(r)
    ensures InRect(r, Point(x1, y1)) && InRect(r, Point(x2, y2))
    ensures x1 <= x2 && y1 <= y2 ==> r == Rect(x1, y1, x2, y2)
  {
    Rect(Min(x1, x2), Min(y1, y2), Max(x1, x2), Max(y1, y2))
  }

  /** A well-formed rectangle within another overlaps it. */
  lemma WithinImpliesOverlap(inner: Rect, outer: Rect)
    requires WellFormed(inner) && RectWithin(inner, outer)
    ensures RectsOverlap(inner, outer)
  {
  }

  /**
   * The SpatiaLite primitives the queries call. A NULL geometry is `None`;
   * what the store answers for it is part of the primitive.
   */
  datatype Spatial = Spatial(
    contains: (Option<Geom>, Point) -> bool,        // ST_Contains(geom, MakePoint(lng, lat, 4326))
    distance: (Option<Geom>, Point) -> Option<real>,        // ST_Distance(geom, point): planar, in degrees; NULL possible
    distanceMeters: (Option<Geom>, Point) -> Option<real>,  // ST_Distance(geom, point, 1): ellipsoidal, in metres; NULL possible
    mbr: Geom -> Rect,                              // MbrMinX(geom) .. MbrMaxY(geom)
    mbrWithin: (Option<Geom>, Rect) -> bool,        // MbrWithin(geom, BuildMbr(...))
    asGeoJson: Option<Geom> -> Option<string>,      // AsGeoJSON(geom)
    fromGeoJson: string -> Option<Geom>             // ST_MakeValid(GeomFromGeoJSON(text))
  )

  /** MbrWithin on a stored geometry compares its MBR with the rectangle. */
  ghost predicate MbrWithinSound(sp: Spatial)
  {
    forall g, r :: sp.mbrWithin(Some(g), r) == RectWithin(sp.mbr(g), r)
  }

  /** Every MBR the store reports has its minima below its maxima. */
  ghost predicate MbrWellFormed(sp: Spatial)
  {
    forall g :: WellFormed(sp.mbr(g))
  }

  /** The one fact about geometry the pre-filter relies on: a contained point lies in the MBR. */
  ghost predicate MbrSound(sp: Spatial)
  {
    forall g: Geom, p :: sp.contains(Some(g), p) ==> InRect(sp.mbr(g), p)
  }
}
