/** The response shapes of the two web services the view model consumes,
    mirroring `DirectionsModel.kt` and `GeocodingModel.kt`. No list in them
    is assumed non-empty. */
module Responses {

  datatype Distance = Distance(text: string, value: int)

  datatype Duration = Duration(text: string, value: int)

  /** One leg of a route: its length, travel time and end addresses. */
  datatype Leg = Leg(distance: Distance, duration: Duration, startAddress: string, endAddress: string)

  /** The route's whole geometry as an encoded polyline. */
  datatype OverviewPolyline = OverviewPolyline(points: string)

  datatype Route = Route(overviewPolyline: OverviewPolyline, legs: seq<Leg>)

  datatype DirectionsModel = DirectionsModel(routes: seq<Route>)

  datatype GeocodingResult = GeocodingResult(formattedAddress: string)

  datatype GeocodingResponse = GeocodingResponse(results: seq<GeocodingResult>)

  /** What a suspending service call hands back: the parsed body, or an
      exception (network failure, HTTP error status, malformed JSON). */
  datatype Reply<T> = Received(body: T) | Thrown
}
