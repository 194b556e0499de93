/**
 * Geographic points and what the core assumes of the geometry around them.
 *
 * A GeoPoint keeps both forms of each coordinate: the decimal string exactly as read from the
 * map data (the identity of the point) and its numeric value. The geometry routines of the
 * program (great-circle distance, bearing of a line, turning angle, midpoint) live outside the
 * core; every operation that needs one takes it as a function parameter.
 */
module GeoPoints {

  datatype GeoPoint = GeoPoint(sLatitude: string, sLongitude: string, latitude: real, longitude: real)

  /** The string form of a point, used as the key of every table. */
  function Key(p: GeoPoint): string
  {
    p.sLatitude + "," + p.sLongitude
  }

  /** What the core assumes of the distance function: it is never negative. */
  ghost predicate NonNegative(distance: (GeoPoint, GeoPoint) -> real)
  {
    forall p, q :: distance(p, q) >= 0.0
  }
}
