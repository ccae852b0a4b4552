/**
 * The orbital-mechanics library (SGP4 through Skyfield) as the worker sees it:
 * a partial function from an element set and an instant to a position.
 * Nothing about its numerics is modelled; every property proved elsewhere
 * holds for every choice of these functions.
 */
module Propagation {
  import opened Wrappers

  /** The two text lines of a NORAD element set, as stored in the `tles` table. */
  datatype Tle = Tle(line1: string, line2: string)

  /** A geodetic subpoint: latitude and longitude in degrees, elevation in km. */
  datatype Geo = Geo(lat: real, lon: real, altKm: real)

  /** An Earth-centred inertial position, in km. */
  datatype Vec3 = Vec3(x: real, y: real, z: real)

  /** What `calculate_satellite_position` returns: the inertial vector and the subpoint. */
  datatype Position = Position(eci: Vec3, geo: Geo)

  /**
   * The propagation port, with instants in whole seconds.
   *   position: `calculate_satellite_position` evaluated at an instant; None when it caught an error.
   *   loads:    whether `EarthSatellite(line1, line2)` can be constructed without raising.
   *   subpoint: `sat.at(t).subpoint()` for a constructed satellite; None when it raises.
   */
  datatype Port = Port(
    position: (Tle, int) -> Option<Position>,
    loads: Tle -> bool,
    subpoint: (Tle, int) -> Option<Geo>)
}
