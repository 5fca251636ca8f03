/** The values the route finder works on: airports, direct flights and routes. */
module Airports {

  /** An airport's IATA code, for example "VLC". It is the node identity of the graph. */
  type Code = string

  /** An airport record: its code, name, country and position in decimal degrees. */
  datatype Airport = Airport(code: Code, name: string, country: string, latitude: real, longitude: real)

  /** A direct (zero-stop) flight between two airports, by their codes. */
  datatype Flight = Flight(origin: Code, destination: Code)

  /** A candidate or final route: its accumulated price and the airports it visits, in order. */
  datatype Route = Route(price: real, path: seq<Code>)

  /** What the search returns: the cheapest route, or the not-found sentinel
      (the source returns the float infinity in that case). */
  datatype Outcome = Found(route: Route) | NotFound

  /** The price of a direct flight between two airports. */
  type PriceFn = (Code, Code) -> real

  /** A price function that never charges a negative amount, as a distance times a
      positive rate never does. */
  ghost predicate NonNegative(price: PriceFn)
  {
    forall a, b :: 0.0 <= price(a, b)
  }

  /** The last airport of a non-empty path. */
  function Last(path: seq<Code>): Code
    requires |path| > 0
  {
    path[|path| - 1]
  }
}
