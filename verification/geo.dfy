/** Coordinates, the GeoJSON point stored beside them, and the abstract distance. */
module Geo {
  import opened Wrappers

  datatype Coordinate = Coordinate(latitude: real, longitude: real)

  /** Great-circle distance in kilometres between two coordinates (the haversine
      formula of backend/utils/distance.js); its arithmetic is not modelled. */
  type Distance = (Coordinate, Coordinate) -> real

  /** `parseFloat(d.toFixed(2))`: a distance rounded to two decimals. */
  type Rounding = real -> real

  /** A GeoJSON point: `{ type: 'Point', coordinates: [longitude, latitude] }`. */
  datatype GeoPoint = GeoPoint(kind: string, coordinates: seq<real>)

  /** The position fields shared by camps and refugees: the scalar
      `latitude`/`longitude` pair and the indexed `location` point. */
  datatype Site = Site(latitude: real, longitude: real, location: GeoPoint)

  /** The point a controller builds from a latitude and a longitude. */
  function PointAt(latitude: real, longitude: real): (g: GeoPoint)
    ensures g.kind == "Point" && |g.coordinates| == 2
    ensures g.coordinates[0] == longitude && g.coordinates[1] == latitude
  {
    GeoPoint("Point", [longitude, latitude])
  }

  /** Reads a point back as a coordinate, longitude first. */
  function CoordinateOf(g: GeoPoint): Option<Coordinate> {
    if g.kind == "Point" && |g.coordinates| == 2
    then Some(Coordinate(g.coordinates[1], g.coordinates[0]))
    else None
  }

  /** Reading a built point gives back the latitude and longitude it was built from. */
  lemma PointAtRoundTrip(latitude: real, longitude: real)
    ensures CoordinateOf(PointAt(latitude, longitude)) == Some(Coordinate(latitude, longitude))
  {
  }

  /** A new site: scalar fields as given, location `[longitude, latitude]`. */
  function SiteAt(latitude: real, longitude: real): (s: Site)
    ensures Consistent(s)
    ensures s.latitude == latitude && s.longitude == longitude
  {
    Site(latitude, longitude, PointAt(latitude, longitude))
  }

  /** The location point agrees with the scalar latitude and longitude. */
  predicate Consistent(s: Site) {
    CoordinateOf(s.location) == Some(Coordinate(s.latitude, s.longitude))
  }

  function Position(s: Site): Coordinate {
    Coordinate(s.latitude, s.longitude)
  }

  /** JavaScript truthiness of a number taken from a request body: absent and
      zero are both falsy. */
  predicate Truthy(x: Option<real>) {
    x.Some? && x.value != 0.0
  }

  /** `updateCamp`/`updateRefugee` as written: the given scalar fields are
      overwritten, but the location is rebuilt only when both values are truthy. */
  function UpdateSite(s: Site, latitude: Option<real>, longitude: Option<real>): (s': Site)
    ensures s'.latitude == latitude.GetOr(s.latitude)
    ensures s'.longitude == longitude.GetOr(s.longitude)
    ensures Truthy(latitude) && Truthy(longitude) ==> Consistent(s')
    ensures !(Truthy(latitude) && Truthy(longitude)) ==> s'.location == s.location
  {
    var location :=
      if Truthy(latitude) && Truthy(longitude) then PointAt(latitude.value, longitude.value)
      else s.location;
    Site(latitude.GetOr(s.latitude), longitude.GetOr(s.longitude), location)
  }

  /** Moving a consistent site onto the equator leaves its location behind. */
  lemma UpdateSiteLeavesStaleLocation()
    ensures var s := SiteAt(10.0, 20.0);
            Consistent(s) && !Consistent(UpdateSite(s, Some(0.0), Some(5.0)))
  {
    var s := SiteAt(10.0, 20.0);
    var s' := UpdateSite(s, Some(0.0), Some(5.0));
    assert s'.location == s.location;
    assert CoordinateOf(s'.location) == Some(Coordinate(10.0, 20.0));
  }

  /** As written, the update keeps a consistent site consistent exactly when
      both values are truthy or the scalar fields end up where they were. */
  lemma UpdateSiteConsistency(s: Site, latitude: Option<real>, longitude: Option<real>)
    requires Consistent(s)
    ensures Consistent(UpdateSite(s, latitude, longitude)) <==>
              (Truthy(latitude) && Truthy(longitude))
              || (latitude.GetOr(s.latitude) == s.latitude && longitude.GetOr(s.longitude) == s.longitude)
  {
  }

  /** The update as intended: whenever a coordinate is given, the location is
      rebuilt from the resulting latitude and longitude. */
  function UpdateSiteFixed(s: Site, latitude: Option<real>, longitude: Option<real>): (s': Site)
    ensures s'.latitude == latitude.GetOr(s.latitude)
    ensures s'.longitude == longitude.GetOr(s.longitude)
    ensures Consistent(s) ==> Consistent(s')
    ensures latitude.Some? || longitude.Some? ==> Consistent(s')
  {
    var lat := latitude.GetOr(s.latitude);
    var lon := longitude.GetOr(s.longitude);
    if latitude.Some? || longitude.Some? then SiteAt(lat, lon) else s
  }
}
