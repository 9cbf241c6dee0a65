/** Properties of runs of the `MapViewModel` state machine, including the
    behaviours the Kotlin code has as written: no destination guard on
    `startNavigation`, no discarding of stale completions, and a position
    handler that restarts navigation after a stop. */
module NavigationFacts {
  import opened Wrappers
  import opened Polyline
  import opened Responses
  import opened MapViewModel

  /** Every state reachable from a fresh view model is consistent. */
  lemma ReachableConsistent(dist: Geodesic, events: seq<Event>)
    ensures Consistent(Run(dist, Initial(), events))
  {
  }

  /** Stopping twice is stopping once. */
  lemma StopIdempotent(s: MapState)
    ensures StopNavigation(StopNavigation(s)) == StopNavigation(s)
  {
  }

  predicate IsStart(e: Event) {
    e.StartNavigationCmd?
  }

  /** Only `startNavigation` subscribes to position updates: without it,
      an unsubscribed view model stays unsubscribed. */
  lemma {:induction false} OnlyStartSubscribes(dist: Geodesic, s: MapState, events: seq<Event>)
    requires !s.subscribed
    requires forall i :: 0 <= i < |events| ==> !IsStart(events[i])
    ensures !Run(dist, s, events).subscribed
    decreases |events|
  {
    if events != [] {
      var next := Step(dist, s, events[0]);
      assert !IsStart(events[0]);
      assert !next.subscribed;
      OnlyStartSubscribes(dist, next, events[1..]);
    }
  }

  predicate SetsStart(e: Event) {
    e.StartLocationFound?
  }

  /** Only `initStartLocation` writes the start location: position updates,
      however many, never do. */
  lemma {:induction false} OnlyInitSetsStart(dist: Geodesic, s: MapState, events: seq<Event>)
    requires forall i :: 0 <= i < |events| ==> !SetsStart(events[i])
    ensures Run(dist, s, events).startLocation == s.startLocation
    decreases |events|
  {
    if events != [] {
      var next := Step(dist, s, events[0]);
      assert !SetsStart(events[0]);
      assert next.startLocation == s.startLocation;
      OnlyInitSetsStart(dist, next, events[1..]);
    }
  }

  predicate BringsDirections(e: Event) {
    e.DirectionsFetched?
  }

  /** Route points only ever come from a directions response: without one,
      the route is either what it was or cleared. */
  lemma {:induction false} RouteOnlyFromDirections(dist: Geodesic, s: MapState, events: seq<Event>)
    requires forall i :: 0 <= i < |events| ==> !BringsDirections(events[i])
    ensures var r := Run(dist, s, events); r.routePoints == s.routePoints || r.routePoints == []
    decreases |events|
  {
    if events != [] {
      var next := Step(dist, s, events[0]);
      assert !BringsDirections(events[0]);
      assert next.routePoints == s.routePoints || next.routePoints == [];
      RouteOnlyFromDirections(dist, next, events[1..]);
      if next.routePoints == [] {
        RouteStaysEmpty(dist, next, events[1..]);
      }
    }
  }

  /** Once cleared, the route stays empty until a directions response. */
  lemma {:induction false} RouteStaysEmpty(dist: Geodesic, s: MapState, events: seq<Event>)
    requires s.routePoints == []
    requires forall i :: 0 <= i < |events| ==> !BringsDirections(events[i])
    ensures Run(dist, s, events).routePoints == []
    decreases |events|
  {
    if events != [] {
      var next := Step(dist, s, events[0]);
      assert !BringsDirections(events[0]);
      assert next.routePoints == [];
      RouteStaysEmpty(dist, next, events[1..]);
    }
  }

  /*************************************************************************
   * The code as written
   *************************************************************************/

  /** `startNavigation` has no destination guard: a fresh view model starts
      navigating towards nothing. */
  lemma StartWithoutDestination()
    ensures var r := StartNavigation(Initial());
            r.navigationState == Started && r.subscribed && r.endLocation.None?
  {
  }

  /** A position completion that lands after `stopNavigation` puts the
      phase back to STARTED, with no destination and no subscription. */
  lemma PositionAfterStopRestarts(dist: Geodesic, s: MapState, latLng: LatLng, geocode: Reply<GeocodingResponse>)
    ensures var r := OnLocationResult(StopNavigation(s), dist, Some(latLng), geocode);
            r.navigationState == Started && !r.subscribed && r.endLocation.None?
  {
  }

  /** Reverse-geocode completions are applied in the order they arrive:
      when the result for an older position P1 lands after the one for a
      newer position P2, the current location ends at P1. */
  lemma StaleGeocodeWins(dist: Geodesic, s: MapState, p1: LatLng, a1: Option<string>, p2: LatLng, a2: Option<string>)
    ensures var r := OnGeocodedPosition(OnGeocodedPosition(s, dist, p2, a2), dist, p1, a1);
            r.currentLocation == Some(LocationInfo(p1, Title(a1)))
  {
  }

  /** A directions response that arrives after `stopNavigation` puts a leg
      and a route back on the map. */
  lemma DirectionsAfterStopRestoreRoute(s: MapState, response: DirectionsModel)
    requires HasFirstLeg(response)
    requires Decode(response.routes[0].overviewPolyline.points).Success?
    ensures var r := OnDirections(StopNavigation(s), Received(response));
            && r.directionLeg == Some(response.routes[0].legs[0])
            && r.routePoints == Decode(response.routes[0].overviewPolyline.points).value
  {
  }

  /** The arrival check reads the destination set by `setEndLocation`, not
      the end of the fetched leg: a position within the threshold of the
      destination arrives and unsubscribes. */
  lemma ArrivalAtDestination(dist: Geodesic, s: MapState, latLng: LatLng, address: Option<string>)
    requires s.endLocation.Some?
    requires dist(latLng, s.endLocation.value.latLng) <= ArrivalThreshold
    ensures var r := OnGeocodedPosition(s, dist, latLng, address);
            r.navigationState == Arrived && !r.subscribed
  {
  }

  /** A larger threshold never turns an arrival into a non-arrival. */
  lemma HasArrivedMonotone(dist: Geodesic, current: LatLng, destination: Option<LatLng>, t1: real, t2: real)
    requires t1 <= t2
    ensures HasArrived(dist, current, destination, t1) ==> HasArrived(dist, current, destination, t2)
  {
  }
}
