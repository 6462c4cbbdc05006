/** Identities and streets of the road network.

    Intersections and streets refer to each other only through ids, so the
    network is a set of plain values rather than a graph of shared pointers.
    A street keeps only its id and its two ends: its length and the
    intersections' positions serve the completion fraction and rendering,
    which are not modelled.
 */
module Network {

  type VehicleId = int
  type IntersectionId = int
  type StreetId = int

  /** A street between two intersections, `inIntersection` and `outIntersection`. */
  datatype Street = Street(
    id: StreetId,
    inIntersection: IntersectionId,
    outIntersection: IntersectionId)
  {
    /** True if `ix` is one of the two ends of this street. */
    predicate HasEndpoint(ix: IntersectionId) {
      ix == inIntersection || ix == outIntersection
    }

    /** True if the street connects two different intersections. */
    predicate IsProper() {
      inIntersection != outIntersection
    }
  }
}
