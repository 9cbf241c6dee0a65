# VeoMapDemo navigation core in Dafny

This project models the two parts of the VeoMapDemo Android app that hold real logic.

1. **The polyline decoder `MapUtil.decodePolyline`.** It implements Google's Encoded Polyline Algorithm Format. Each character carries a 6-bit chunk: its code minus 63. A chunk's low five bits are payload, and its 0x20 bit says that the value continues. Values are zig-zag encoded. They come in (latitude, longitude) delta pairs, which are summed into running E5 coordinates (units of 1e-5 degree).
2. **The navigation state machine of `MapViewModel`.** This covers:
   - the route points, the current, start and end locations, the direction leg and the `NavigationState` phase (IDLE, STARTED, ARRIVED);
   - the subscription to position updates;
   - the commands `startNavigation`, `stopNavigation`, `setEndLocation` and `clearRoute`;
   - the completions of the position callback, of `initStartLocation` and of `fetchDirections`;
   - the arrival check `hasArrived`.

Modules:

- `Wrappers` (`wrappers.dfy`): `Option` for Kotlin's nullable types and `Result` for code that may throw.
- `Polyline` (`polyline.dfy`): the decoder. It holds a functional definition (`Decode`), reference definitions of what a well-formed input and its deltas are, and the lemmas that connect them. It also has an index-by-index transcription of the Kotlin loops: `ReadVarintLoop` is proved equal to `ReadVarint`, `ReadPairLoop` to `ReadPair`, and `DecodeLoop` to `Decode`.
- `PolylineEncoder` (`polyline_encoder.dfy`): a ghost encoder for the same format. It is used to prove that the decoder is a left inverse of it, and to check the format's reference example.
- `Responses` (`responses.dfy`): the shapes of the directions and geocoding responses, with no non-emptiness assumptions on their lists. `Reply` is either a parsed body or a thrown exception.
- `MapViewModel` (`map_view_model.dfy`): the state record, each operation as a pure transition, the invariant `Consistent`, and `Step` and `Run` over sequences of events.
- `NavigationFacts` (`navigation_facts.dfy`): lemmas about runs, and the behaviours the code has as written.

The state invariant `Consistent` holds in every state reachable through the view model's commands and completions:

- position updates are subscribed only while the phase is STARTED;
- ARRIVED implies that both a destination and a current location are set;
- a non-empty route implies that a leg is set.

The model follows the view model as written, including where it does not enforce what the screen enforces (the navigation button is only enabled when `endLocation != null`, `GoogleMapCompose.kt:214`) or what its own state names suggest:

- `startNavigation` has no destination guard.
- The position handler never sets `startLocation`.
- The position handler forces the phase to STARTED even after `stopNavigation`.
- Stale reverse-geocode results are not discarded.
- A directions response that arrives after `stopNavigation` puts a route back on the map.
- The arrival check uses the destination from `setEndLocation`, not the end of the fetched leg.

`fetchDirections` reads `routes[0].legs[0]` before its `isNotEmpty` check. An empty route list or leg list therefore throws before any write, and the `catch` leaves the state unchanged. The emptiness check is dead code.

## Model

| member | source | states |
|---|---|---|
| `Polyline.Group` | app/src/main/java/com/github/linlangli/veomapdemo/utils/MapUtil.kt:32 | `b and 0x1f` keeps five payload bits: a group is at most 0x1f, also for characters below '?' |
| `Polyline.ReadGroupsSpec` | app/src/main/java/com/github/linlangli/veomapdemo/utils/MapUtil.kt:30-34 | the do-while's `shift` and `result` accumulate the groups read so far; it runs off the end exactly when every remaining character has the continuation bit, and otherwise stops after the first character without it |
| `Polyline.ReadVarint` | app/src/main/java/com/github/linlangli/veomapdemo/utils/MapUtil.kt:27-34 | reading one value fails exactly when all remaining characters continue; otherwise it consumes one complete varint and returns the sum of its groups, group i shifted left by 5*i |
| `Polyline.ReadVarintLoop` | app/src/main/java/com/github/linlangli/veomapdemo/utils/MapUtil.kt:27-34 | the do-while loop as written, with `encoded[index++]` past the end as an error, computes the same value and end index as `ReadVarint` |
| `Polyline.SixGroupsFit` | app/src/main/java/com/github/linlangli/veomapdemo/utils/MapUtil.kt:30-34 | a complete value of at most six groups has a group sum in [0, 2^30), inside the 32-bit `Int` range; that `or` of the disjoint shifted groups equals their sum is argued in comments, not proved |
| `Polyline.ZigZag` | app/src/main/java/com/github/linlangli/veomapdemo/utils/MapUtil.kt:35 | zig-zag decoding: an even raw value 2k gives k and an odd raw value 2k+1 gives -(k+1); the delta is non-negative exactly for even raw values |
| `Polyline.ReadPair` | app/src/main/java/com/github/linlangli/veomapdemo/utils/MapUtil.kt:26-46 | one outer iteration strictly advances the index without passing the end |
| `Polyline.ReadPairReadsTwoVarints` | app/src/main/java/com/github/linlangli/veomapdemo/utils/MapUtil.kt:30-45 | a pair read at `index` is two consecutive complete varints, latitude first then longitude, and its deltas are the zig-zag decodings of their group sums |
| `Polyline.ReadPairLoop` | app/src/main/java/com/github/linlangli/veomapdemo/utils/MapUtil.kt:26-46 | the two inline do-whiles of one outer iteration, as written, read exactly the pair `ReadPair` reads, or fail where it fails |
| `Polyline.PairShape` | app/src/main/java/com/github/linlangli/veomapdemo/utils/MapUtil.kt:26-46 | one outer iteration consumes exactly two varints, that is two terminating characters; it fails only on input that is not well formed |
| `Polyline.DeltasShape` | app/src/main/java/com/github/linlangli/veomapdemo/utils/MapUtil.kt:26-50 | the input reads as delta pairs exactly when it is well formed (empty or ending in a terminating character, with an even number of them); there is one pair per two varints |
| `Polyline.DecodeFromIsPrefixSums` | app/src/main/java/com/github/linlangli/veomapdemo/utils/MapUtil.kt:23-49 | the running `lat`/`lng` accumulators make the i-th point the starting value plus the sum of the first i+1 deltas; decoding fails exactly when reading the deltas does |
| `Polyline.Decode` | app/src/main/java/com/github/linlangli/veomapdemo/utils/MapUtil.kt:19-52 | succeeds exactly on well-formed input, so truncated input (a trailing continuation character, or a latitude without a longitude) is an error and not a shortened list; one point per two varints; point i is the sum of the first i+1 deltas; the empty string decodes to the empty list |
| `Polyline.DecodeLoop` | app/src/main/java/com/github/linlangli/veomapdemo/utils/MapUtil.kt:19-52 | the `while (index < len)` loop with its two inline do-whiles, as written, returns exactly `Decode` |
| `PolylineEncoder.ZigZagEncode` | app/src/main/java/com/github/linlangli/veomapdemo/utils/MapUtil.kt:35 | zig-zag encoding is undone by the decoder's zig-zag step for every integer |
| `PolylineEncoder.EncodeVarintShape` | app/src/main/java/com/github/linlangli/veomapdemo/utils/MapUtil.kt:30-34 | an encoded value is a run of continuation characters closed by exactly one terminating character, which is what the do-while stops on |
| `PolylineEncoder.EncodeVarintWeights` | app/src/main/java/com/github/linlangli/veomapdemo/utils/MapUtil.kt:32-33 | the shifted groups of an encoded value add back up to the value |
| `PolylineEncoder.ReadEncodedVarint` | app/src/main/java/com/github/linlangli/veomapdemo/utils/MapUtil.kt:30-34 | reading at the start of an encoded value consumes exactly that value and returns it, whatever surrounds it |
| `PolylineEncoder.DeltasOfEncoding` | app/src/main/java/com/github/linlangli/veomapdemo/utils/MapUtil.kt:26-50 | reading pairs from the encoding of a delta sequence, after any prefix, recovers exactly those deltas |
| `PolylineEncoder.DeltasRoundTrip` | app/src/main/java/com/github/linlangli/veomapdemo/utils/MapUtil.kt:26-50 | the delta pairs of an encoded delta sequence are that sequence |
| `PolylineEncoder.DifferencesTelescope` | app/src/main/java/com/github/linlangli/veomapdemo/utils/MapUtil.kt:36-46 | summing the differences of consecutive points from a start point gives back each point |
| `PolylineEncoder.RoundTrip` | app/src/main/java/com/github/linlangli/veomapdemo/utils/MapUtil.kt:19-52 | decoding the Google encoding of any sequence of E5 points yields exactly those points |
| `PolylineEncoder.StandardVector` | app/src/main/java/com/github/linlangli/veomapdemo/utils/MapUtil.kt:19-52 | the reference string decodes to (3850000,-12020000), (4070000,-12095000), (4325200,-12645300) |
| `MapViewModel.Initial` | app/src/main/java/com/github/linlangli/veomapdemo/viewModel/MapViewModel.kt:36-52 | a fresh view model has no route, no locations, no leg, phase IDLE and no subscription, and satisfies the invariant |
| `MapViewModel.HasArrived` | app/src/main/java/com/github/linlangli/veomapdemo/viewModel/MapViewModel.kt:173-186 | never arrived without a destination; otherwise arrived exactly when the distance is at most the threshold |
| `MapViewModel.EndLatLng` | app/src/main/java/com/github/linlangli/veomapdemo/viewModel/MapViewModel.kt:77 | the arrival check's destination is the coordinate of `endLocation`, and is null exactly when `endLocation` is |
| `MapViewModel.ReverseGeocode` | app/src/main/java/com/github/linlangli/veomapdemo/viewModel/MapViewModel.kt:156-171 | the callback gets an address exactly when the call returned at least one result, and then it is the first result's formatted address; otherwise null |
| `MapViewModel.StartNavigation` | app/src/main/java/com/github/linlangli/veomapdemo/viewModel/MapViewModel.kt:188-191 | STARTED and subscribed from any state, with no check on the destination; every other field unchanged; keeps the invariant |
| `MapViewModel.StopNavigation` | app/src/main/java/com/github/linlangli/veomapdemo/viewModel/MapViewModel.kt:193-199 | unsubscribed, IDLE, with no destination, leg or route; start and current locations kept; the result satisfies the invariant from any state |
| `MapViewModel.SetEndLocation` | app/src/main/java/com/github/linlangli/veomapdemo/viewModel/MapViewModel.kt:201-203 | replaces only the destination; keeps the invariant |
| `MapViewModel.ClearRoute` | app/src/main/java/com/github/linlangli/veomapdemo/viewModel/MapViewModel.kt:205-207 | empties only the route points; keeps the invariant |
| `MapViewModel.OnGeocodedPosition` | app/src/main/java/com/github/linlangli/veomapdemo/viewModel/MapViewModel.kt:71-85 | the current location becomes the position with the address or "未知位置"; the phase is ARRIVED, with updates unsubscribed, exactly when `hasArrived` holds for the destination, and otherwise STARTED whatever it was before; the start location, destination, leg and route are untouched; keeps the invariant |
| `MapViewModel.OnLocationResult` | app/src/main/java/com/github/linlangli/veomapdemo/viewModel/MapViewModel.kt:64-88 | a null `lastLocation` changes nothing; otherwise the completion above runs with the reverse-geocoded address; keeps the invariant |
| `MapViewModel.OnStartLocation` | app/src/main/java/com/github/linlangli/veomapdemo/viewModel/MapViewModel.kt:104-119 | with a last known location, the start location becomes it with the address or "未知位置"; nothing else changes, and nothing at all changes without a last location |
| `MapViewModel.OnDirections` | app/src/main/java/com/github/linlangli/veomapdemo/viewModel/MapViewModel.kt:127-154 | a thrown call, or a response with no first route or no first leg, leaves the state unchanged; otherwise the leg becomes `routes[0].legs[0]` and the route becomes the decoded polyline, or stays as it was when decoding fails; only leg and route change, and a changed route comes from a well-formed polyline; keeps the invariant |
| `MapViewModel.Step` | app/src/main/java/com/github/linlangli/veomapdemo/viewModel/MapViewModel.kt:63-207 | every command and completion keeps the invariant |
| `MapViewModel.Run` | app/src/main/java/com/github/linlangli/veomapdemo/viewModel/MapViewModel.kt:63-207 | any sequence of commands and completions, in any order, keeps the invariant |
| `NavigationFacts.ReachableConsistent` | app/src/main/java/com/github/linlangli/veomapdemo/viewModel/MapViewModel.kt:35-207 | every state reachable from a fresh view model through its commands and completions satisfies the invariant |
| `NavigationFacts.StopIdempotent` | app/src/main/java/com/github/linlangli/veomapdemo/viewModel/MapViewModel.kt:193-199 | stopping twice is the same as stopping once |
| `NavigationFacts.OnlyStartSubscribes` | app/src/main/java/com/github/linlangli/veomapdemo/viewModel/MapViewModel.kt:90-97 | among the view model's commands and completions, only `startNavigation` subscribes: without it, an unsubscribed view model stays unsubscribed through any events |
| `NavigationFacts.OnlyInitSetsStart` | app/src/main/java/com/github/linlangli/veomapdemo/viewModel/MapViewModel.kt:104-119 | only `initStartLocation` writes the start location; position updates never do |
| `NavigationFacts.RouteOnlyFromDirections` | app/src/main/java/com/github/linlangli/veomapdemo/viewModel/MapViewModel.kt:148 | without a directions response the route is either unchanged or empty: only `fetchDirections` puts points on the map |
| `NavigationFacts.RouteStaysEmpty` | app/src/main/java/com/github/linlangli/veomapdemo/viewModel/MapViewModel.kt:205-207 | once cleared, the route stays empty until a directions response arrives |
| `NavigationFacts.StartWithoutDestination` | app/src/main/java/com/github/linlangli/veomapdemo/viewModel/MapViewModel.kt:188-191 | a fresh view model can start navigating with no destination set |
| `NavigationFacts.PositionAfterStopRestarts` | app/src/main/java/com/github/linlangli/veomapdemo/viewModel/MapViewModel.kt:71-85 | a position completion after `stopNavigation` puts the phase back to STARTED, with no destination and no subscription |
| `NavigationFacts.StaleGeocodeWins` | app/src/main/java/com/github/linlangli/veomapdemo/viewModel/MapViewModel.kt:71-76 | completions apply in arrival order: an older position's late geocode result overwrites a newer one's |
| `NavigationFacts.DirectionsAfterStopRestoreRoute` | app/src/main/java/com/github/linlangli/veomapdemo/viewModel/MapViewModel.kt:127-154 | a directions response that completes after `stopNavigation` restores a leg and a route |
| `NavigationFacts.ArrivalAtDestination` | app/src/main/java/com/github/linlangli/veomapdemo/viewModel/MapViewModel.kt:77-81 | a position within 30 of the destination set by `setEndLocation` moves to ARRIVED and unsubscribes |
| `NavigationFacts.HasArrivedMonotone` | app/src/main/java/com/github/linlangli/veomapdemo/viewModel/MapViewModel.kt:173-186 | raising the threshold never turns an arrival into a non-arrival |

## Left out

- NavigationFacts.OnlyStartSubscribes: direct calls to the public `startLocationUpdates` and `stopLocationUpdates` (MapViewModel.kt:90-100) are not modelled as events. In this app they are called only from `startNavigation`, `stopNavigation` and the position callback. A direct `startLocationUpdates` call in another phase would subscribe outside STARTED and break `Consistent`, so this lemma, `ReachableConsistent` and `Run` hold only for the view model's commands and completions.
- Polyline.Decode: uses unbounded integers, so 32-bit `Int` wrap-around is not modelled. In Kotlin this only matters for a value of seven or more groups, or for accumulators that leave the `Int` range. At exactly seven groups, `shl 30` pushes the seventh group's upper bits past bit 31 and can set the sign bit; no shift count is masked and no bits overlap yet. From eight groups on, `shl` masks its shift count to five bits and `or` overlaps earlier groups. Within six groups the value stays below 2^30 (`SixGroupsFit`), so no bit leaves the `Int` range; that `or` of disjoint shifted groups equals `+` and that `b and 0x1f` equals the Euclidean `% 32` are argued in comments and not proved at bit level. Valid coordinates need at most six groups.
- The `LatLng(lat / 1E5, lng / 1E5)` construction (MapUtil.kt:48) is left out. Points and route points stay E5 integers. It converts to doubles, and Google's `LatLng` constructor also clamps latitude into [-90, 90] and wraps longitude into [-180, 180). `Decode`'s points, and the points `RoundTrip` recovers, are the values before that clamp and wrap. For out-of-range E5 values the app's route points differ from them.
- `Location.distanceBetween` is left out. It is Android's float computation on the WGS84 ellipsoid. The model takes it as a parameter `dist`, about which nothing is assumed, and the code promises nothing about its symmetry or accuracy. Doubles and floats are modelled as `real`.
- Coroutines (`viewModelScope`), `FusedLocationProviderClient`, `Looper`, the 5000 ms and 2000 ms request intervals, and `StateFlow` observation are left out. Each command and each completion is an explicit `Event`, and interleavings are represented only by the order of events.
- The position callback and the completion of the reverse geocode it starts form one event. The callback writes nothing before the geocode completes, and nothing discards stale completions, so splitting them would add no states.
- Retrofit and Gson transport are left out: `MapUtil.directionService`, `MapUtil.geocodingService`, `IDirectionService.kt` and `IGeocodingService.kt`. Any exception from a service call is `Reply.Thrown`. Null fields that Gson can produce from incomplete JSON are not modelled, because response fields are non-null in the model.
- `reverseGeocode` would invoke its callback a second time, with null, if the callback itself threw inside the `try`. The callbacks here do not throw, so this is not modelled.
- `createTextMarkerIcon`, `MapOverlayText.kt`, `GoogleMapCompose.kt` and `build.gradle.kts` are left out: they are bitmap rendering, Compose UI, camera animation and build configuration. The button in `GoogleMapCompose.kt` is the only caller that requires a destination before `fetchDirections` and `startNavigation`. It is not modelled, so the view model's operations are modelled without that guard.
- `Log` and `printStackTrace` side effects are left out.
- Kotlin strings index UTF-16 code units, while the model indexes Unicode scalar values. The two differ only for characters outside the Basic Multilingual Plane, which never occur in an encoded polyline.
