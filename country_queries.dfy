/**
 * Queries on the `country` table (the Kenya border polygon) and the
 * coordinate-range check that needs no table at all.
 */
module CountryQueries {
  import opened Options
  import opened Geometry
  import Seqs

  datatype CountryRow = CountryRow(
    id: int,
    shapeName: string,
    shapeIso: string,
    shapeId: Option<string>,
    shapeGroup: Option<string>,
    shapeType: Option<string>,
    geom: Option<Geom>
  )

  /** The `Country` record: every column but the geometry. */
  datatype Country = Country(
    id: int,
    shapeName: string,
    shapeIso: string,
    shapeId: Option<string>,
    shapeGroup: Option<string>,
    shapeType: Option<string>
  )

  function ToCountry(c: CountryRow): Country
  {
    Country(c.id, c.shapeName, c.shapeIso, c.shapeId, c.shapeGroup, c.shapeType)
  }

  predicate CountryContains(sp: Spatial, c: CountryRow, lat: real, lng: real)
  {
    sp.contains(c.geom, Point(lng, lat))
  }

  /** isPointInKenya: some country row contains the point. */
  function IsPointInKenya(sp: Spatial, t: seq<CountryRow>, lat: real, lng: real): (r: bool)
    ensures r <==> exists i :: 0 <= i < |t| && CountryContains(sp, t[i], lat, lng)
  {
    Seqs.FirstIndex(t, (c: CountryRow) => CountryContains(sp, c, lat, lng)).Some?
  }

  /** getCountryAtPoint: the first country row containing the point, without its geometry. */
  function GetCountryAtPoint(sp: Spatial, t: seq<CountryRow>, lat: real, lng: real): (r: Option<Country>)
    ensures r.Some? <==> IsPointInKenya(sp, t, lat, lng)
    ensures r.Some? ==> exists i :: 0 <= i < |t| && CountryContains(sp, t[i], lat, lng) &&
                          (forall j :: 0 <= j < i ==> !CountryContains(sp, t[j], lat, lng)) &&
                          r.value == ToCountry(t[i])
  {
    match Seqs.FirstIndex(t, (c: CountryRow) => CountryContains(sp, c, lat, lng))
    case None => None
    case Some(i) => Some(ToCountry(t[i]))
  }

  /**
   * getDistanceToKenyaBorder: the metric distance to the first country row;
   * 0 when there is no row or its distance is NULL (`result?.distance || 0`).
   */
  function GetDistanceToKenyaBorder(sp: Spatial, t: seq<CountryRow>, lat: real, lng: real): (d: real)
    ensures |t| == 0 ==> d == 0.0
    ensures |t| > 0 && sp.distanceMeters(t[0].geom, Point(lng, lat)).None? ==> d == 0.0
    ensures |t| > 0 && sp.distanceMeters(t[0].geom, Point(lng, lat)).Some? ==>
              d == sp.distanceMeters(t[0].geom, Point(lng, lat)).value
  {
    if |t| == 0 then 0.0 else sp.distanceMeters(t[0].geom, Point(lng, lat)).GetOr(0.0)
  }

  /** A JavaScript number: a finite value, an infinity, or NaN. */
  datatype Number = Finite(value: real) | PosInfinity | NegInfinity | NaN

  /** JavaScript `x < c` for a finite constant c: false whenever x is NaN. */
  predicate LessThan(x: Number, c: real)
  {
    match x
    case Finite(v) => v < c
    case NegInfinity => true
    case PosInfinity => false
    case NaN => false
  }

  /** JavaScript `x > c` for a finite constant c: false whenever x is NaN. */
  predicate GreaterThan(x: Number, c: real)
  {
    match x
    case Finite(v) => v > c
    case PosInfinity => true
    case NegInfinity => false
    case NaN => false
  }

  /** A coordinate the range test lets through: NaN, or a finite value within [lo, hi]. */
  predicate Passes(x: Number, lo: real, hi: real)
  {
    x.NaN? || (x.Finite? && lo <= x.value <= hi)
  }

  datatype Validation = Validation(valid: bool, reason: Option<string>)

  const LatitudeReason := "Latitude outside Kenya region"
  const LongitudeReason := "Longitude outside Kenya region"

  /**
   * validateKenyaCoordinates: latitude in [-5, 6] and longitude in [33, 42];
   * latitude is checked first. Both tests are written as "out of range"
   * comparisons, so a NaN coordinate fails neither and passes.
   */
  function ValidateKenyaCoordinates(lat: Number, lng: Number): (r: Validation)
    ensures r.valid <==> Passes(lat, -5.0, 6.0) && Passes(lng, 33.0, 42.0)
    ensures r.valid <==> r.reason.None?
    ensures !Passes(lat, -5.0, 6.0) ==> r.reason == Some(LatitudeReason)
    ensures Passes(lat, -5.0, 6.0) && !Passes(lng, 33.0, 42.0) ==> r.reason == Some(LongitudeReason)
  {
    if LessThan(lat, -5.0) || GreaterThan(lat, 6.0) then Validation(false, Some(LatitudeReason))
    else if LessThan(lng, 33.0) || GreaterThan(lng, 42.0) then Validation(false, Some(LongitudeReason))
    else Validation(true, None)
  }

  /** NaN coordinates are reported valid; infinite ones are rejected. */
  lemma NaNCoordinatesAreValid(lat: Number, lng: Number)
    ensures ValidateKenyaCoordinates(NaN, NaN).valid
    ensures lat.NaN? && lng.Finite? && 33.0 <= lng.value <= 42.0 ==> ValidateKenyaCoordinates(lat, lng).valid
    ensures !ValidateKenyaCoordinates(PosInfinity, lng).valid && !ValidateKenyaCoordinates(NegInfinity, lng).valid
  {
  }
}
