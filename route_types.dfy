/** The shared vocabulary of the analysis scripts (analysis/common.py, lines 20-30). */
module RouteTypes {

  /**
   * A (latitude, longitude) point. The scripts hold these as float pairs; the
   * model only ever compares them for equality and hands them to the distance
   * and ISO-region functions, so two fixed-point integers suffice.
   */
  datatype Coordinate = Coordinate(lat: int, long: int)

  /** A traceroute as the IP addresses of its hops, source first. */
  type RouteInIp = seq<string>

  /** A traceroute resolved to the coordinates of its hops, source first. */
  type RouteInCoordinate = seq<Coordinate>

  /** The metrics a route can be measured by; a metric prints as its value. */
  datatype RouteMetric = HopCount | DistanceKm {
    function Value(): string {
      match this
      case HopCount => "hop_count"
      case DistanceKm => "distance_km"
    }
  }
}
