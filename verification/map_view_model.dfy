/** The navigation state machine of `MapViewModel`.

    The view model's observable fields become one immutable record, and each
    command and each asynchronous completion becomes a pure function from
    the record before to the record after. The location subscription
    (`requestLocationUpdates` / `removeLocationUpdates`) is recorded in the
    `subscribed` flag. Distances come from a function parameter standing for
    `Location.distanceBetween`, about which nothing is assumed. */
module MapViewModel {
  import opened Wrappers
  import opened Polyline
  import opened Responses

  /** A position in degrees (the app's doubles). */
  datatype LatLng = LatLng(latitude: real, longitude: real)

  /** A position and its human-readable label. */
  datatype LocationInfo = LocationInfo(latLng: LatLng, title: string)

  datatype NavigationState = Idle | Started | Arrived

  /** The label used when reverse geocoding yields no address. */
  const UnknownPlace: string := "未知位置"

  /** The default `thresholdInMeters` of `hasArrived`. */
  const ArrivalThreshold: real := 30.0

  /** A distance in meters between two positions. */
  type Geodesic = (LatLng, LatLng) -> real

  /** The view model's state flows plus the subscription to position
      updates. Route points stay E5 integers. */
  datatype MapState = MapState(
    routePoints: seq<Point>,
    currentLocation: Option<LocationInfo>,
    directionLeg: Option<Leg>,
    startLocation: Option<LocationInfo>,
    endLocation: Option<LocationInfo>,
    navigationState: NavigationState,
    subscribed: bool)

  /** What every state the view model can reach satisfies:
      - position updates are only subscribed while navigation is STARTED;
      - ARRIVED is only entered with a destination and a known position;
      - a route is only shown together with the leg it came with. */
  predicate Consistent(s: MapState) {
    && (s.subscribed ==> s.navigationState == Started)
    && (s.navigationState == Arrived ==> s.endLocation.Some? && s.currentLocation.Some?)
    && (s.routePoints != [] ==> s.directionLeg.Some?)
  }

  /** The state a fresh view model starts in. */
  function Initial(): (s: MapState)
    ensures s.routePoints == [] && s.navigationState == Idle && !s.subscribed
    ensures s.currentLocation.None? && s.directionLeg.None?
    ensures s.startLocation.None? && s.endLocation.None?
    ensures Consistent(s)
  {
    MapState([], None, None, None, None, Idle, false)
  }

  /*************************************************************************
   * Arrival and reverse geocoding
   *************************************************************************/

  /** `hasArrived`: never without a destination, otherwise exactly when the
      distance is within the threshold. */
  function HasArrived(dist: Geodesic, current: LatLng, destination: Option<LatLng>, threshold: real): (r: bool)
    ensures destination.None? ==> !r
    ensures destination.Some? ==> (r <==> dist(current, destination.value) <= threshold)
  {
    match destination
    case None => false
    case Some(d) => dist(current, d) <= threshold
  }

  /** The coordinate of the destination, if one is set (`_endLocation.value?.latLng`). */
  function EndLatLng(s: MapState): (p: Option<LatLng>)
    ensures p.Some? <==> s.endLocation.Some?
    ensures p.Some? ==> p.value == s.endLocation.value.latLng
  {
    match s.endLocation
    case None => None
    case Some(loc) => Some(loc.latLng)
  }

  /** The single value `reverseGeocode` passes to its callback: the first
      result's formatted address, or null when there is no result or the
      call threw. */
  function ReverseGeocode(reply: Reply<GeocodingResponse>): (address: Option<string>)
    ensures address.Some? <==> reply.Received? && |reply.body.results| > 0
    ensures address.Some? ==> address.value == reply.body.results[0].formattedAddress
  {
    match reply
    case Thrown => None
    case Received(response) =>
      if |response.results| == 0 then None else Some(response.results[0].formattedAddress)
  }

  /** `address ?: "未知位置"`. */
  function Title(address: Option<string>): string {
    address.GetOr(UnknownPlace)
  }

  /*************************************************************************
   * Commands
   *************************************************************************/

  /** `startNavigation`: STARTED and subscribed, from any state and with or
      without a destination; nothing else changes. */
  function StartNavigation(s: MapState): (r: MapState)
    ensures r.navigationState == Started && r.subscribed
    ensures r.(navigationState := s.navigationState, subscribed := s.subscribed) == s
    ensures Consistent(s) ==> Consistent(r)
  {
    s.(navigationState := Started, subscribed := true)
  }

  /** `clearRoute`: only the route points are emptied. */
  function ClearRoute(s: MapState): (r: MapState)
    ensures r.routePoints == []
    ensures r.(routePoints := s.routePoints) == s
    ensures Consistent(s) ==> Consistent(r)
  {
    s.(routePoints := [])
  }

  /** `stopNavigation`: unsubscribes, goes IDLE, forgets the destination,
      the leg and the route. The start and current locations survive, and
      the result is consistent whatever the state before. */
  function StopNavigation(s: MapState): (r: MapState)
    ensures r.navigationState == Idle && !r.subscribed
    ensures r.endLocation.None? && r.directionLeg.None? && r.routePoints == []
    ensures r.startLocation == s.startLocation && r.currentLocation == s.currentLocation
    ensures Consistent(r)
  {
    var stopped := s.(subscribed := false);
    var idle := stopped.(navigationState := Idle, endLocation := None, directionLeg := None);
    ClearRoute(idle)
  }

  /** `setEndLocation`: only the destination is replaced. */
  function SetEndLocation(s: MapState, location: LocationInfo): (r: MapState)
    ensures r.endLocation == Some(location)
    ensures r.(endLocation := s.endLocation) == s
    ensures Consistent(s) ==> Consistent(r)
  {
    s.(endLocation := Some(location))
  }

  /*************************************************************************
   * Asynchronous completions
   *************************************************************************/

  /** The reverse-geocode callback inside `locationCallback`: the position
      becomes the current location, the phase is forced to STARTED, and if
      the destination is within the threshold the phase becomes ARRIVED and
      updates are unsubscribed. The start location is never touched. */
  function OnGeocodedPosition(s: MapState, dist: Geodesic, latLng: LatLng, address: Option<string>): (r: MapState)
    ensures r.currentLocation == Some(LocationInfo(latLng, Title(address)))
    ensures r.navigationState == Arrived <==> HasArrived(dist, latLng, EndLatLng(s), ArrivalThreshold)
    ensures r.navigationState != Arrived ==> r.navigationState == Started && r.subscribed == s.subscribed
    ensures r.navigationState == Arrived ==> !r.subscribed
    ensures r.(currentLocation := s.currentLocation, navigationState := s.navigationState, subscribed := s.subscribed) == s
    ensures Consistent(s) ==> Consistent(r)
  {
    var started := s.(navigationState := Started);
    var located := started.(currentLocation := Some(LocationInfo(latLng, Title(address))));
    if HasArrived(dist, latLng, EndLatLng(located), ArrivalThreshold) then
      located.(navigationState := Arrived, subscribed := false)
    else
      located
  }

  /** `onLocationResult` together with the completion of the reverse
      geocode it starts: a null `lastLocation` changes nothing. */
  function OnLocationResult(s: MapState, dist: Geodesic, lastLocation: Option<LatLng>, geocode: Reply<GeocodingResponse>): (r: MapState)
    ensures lastLocation.None? ==> r == s
    ensures lastLocation.Some? ==> r == OnGeocodedPosition(s, dist, lastLocation.value, ReverseGeocode(geocode))
    ensures Consistent(s) ==> Consistent(r)
  {
    match lastLocation
    case None => s
    case Some(latLng) => OnGeocodedPosition(s, dist, latLng, ReverseGeocode(geocode))
  }

  /** `initStartLocation` with the last known location and the reverse
      geocode of it: only the start location changes, and only when a last
      location is known. */
  function OnStartLocation(s: MapState, lastLocation: Option<LatLng>, geocode: Reply<GeocodingResponse>): (r: MapState)
    ensures lastLocation.None? ==> r == s
    ensures lastLocation.Some? ==> r.startLocation == Some(LocationInfo(lastLocation.value, Title(ReverseGeocode(geocode))))
    ensures r.(startLocation := s.startLocation) == s
    ensures Consistent(s) ==> Consistent(r)
  {
    match lastLocation
    case None => s
    case Some(latLng) => s.(startLocation := Some(LocationInfo(latLng, Title(ReverseGeocode(geocode)))))
  }

  /** The response carries a first route with a first leg; otherwise
      `routes[0].legs[0]` throws. */
  predicate HasFirstLeg(response: DirectionsModel) {
    |response.routes| > 0 && |response.routes[0].legs| > 0
  }

  /** The coroutine of `fetchDirections` once the service call returns.
      `routes[0].legs[0]` is read before the emptiness check, so an empty
      route or leg list throws before any write and the catch leaves the
      state as it was. Otherwise the leg is stored first and the route
      points second; a polyline that fails to decode throws between the two
      writes, leaving the new leg with the old points. */
  function OnDirections(s: MapState, reply: Reply<DirectionsModel>): (r: MapState)
    ensures reply.Thrown? ==> r == s
    ensures reply.Received? && !HasFirstLeg(reply.body) ==> r == s
    ensures reply.Received? && HasFirstLeg(reply.body) ==>
              var route := reply.body.routes[0];
              var decoded := Decode(route.overviewPolyline.points);
              && r.directionLeg == Some(route.legs[0])
              && (decoded.Success? ==> r.routePoints == decoded.value)
              && (decoded.Failure? ==> r.routePoints == s.routePoints)
    ensures r.(directionLeg := s.directionLeg, routePoints := s.routePoints) == s
    ensures r.routePoints != s.routePoints ==>
              reply.Received? && WellFormed(reply.body.routes[0].overviewPolyline.points)
    ensures Consistent(s) ==> Consistent(r)
  {
    match reply
    case Thrown => s
    case Received(response) =>
      if !HasFirstLeg(response) then s
      else
        var withLeg := s.(directionLeg := Some(response.routes[0].legs[0]));
        match Decode(response.routes[0].overviewPolyline.points)
        case Success(points) => withLeg.(routePoints := points)
        case Failure(_) => withLeg
  }

  /*************************************************************************
   * Runs
   *************************************************************************/

  /** Everything that can happen to the view model: a command from the
      screen, or the completion of an asynchronous operation. Completions
      carry what the collaborator produced; they may arrive in any order and
      at any phase, since nothing in the view model discards stale ones. */
  datatype Event =
    | StartNavigationCmd
    | StopNavigationCmd
    | SetEndLocationCmd(location: LocationInfo)
    | ClearRouteCmd
    | LocationUpdate(lastLocation: Option<LatLng>, geocode: Reply<GeocodingResponse>)
    | StartLocationFound(lastLocation: Option<LatLng>, geocode: Reply<GeocodingResponse>)
    | DirectionsFetched(directions: Reply<DirectionsModel>)

  function Step(dist: Geodesic, s: MapState, e: Event): (r: MapState)
    ensures Consistent(s) ==> Consistent(r)
  {
    match e
    case StartNavigationCmd => StartNavigation(s)
    case StopNavigationCmd => StopNavigation(s)
    case SetEndLocationCmd(location) => SetEndLocation(s, location)
    case ClearRouteCmd => ClearRoute(s)
    case LocationUpdate(lastLocation, geocode) => OnLocationResult(s, dist, lastLocation, geocode)
    case StartLocationFound(lastLocation, geocode) => OnStartLocation(s, lastLocation, geocode)
    case DirectionsFetched(directions) => OnDirections(s, directions)
  }

  /** The state after applying `events` in order. */
  function Run(dist: Geodesic, s: MapState, events: seq<Event>): (r: MapState)
    ensures Consistent(s) ==> Consistent(r)
    decreases |events|
  {
    if events == [] then s else Run(dist, Step(dist, s, events[0]), events[1..])
  }
}
