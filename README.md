# Trip state of the path optimizer, in Dafny

This project models the browser-side trip bookkeeping of the path optimizer in
`src/App.tsx`. A user keeps an ordered list of stops, each with an address as
its key. A remote directions service is asked for an optimized route through
the stops. The app then rebuilds its stop list, its route summary and a
"current leg" cursor from the reply.

The model has three layers.

- **Route assembly** (`Directions`, `Orders`, `Geometry`, `Tags`). This is the
  non-network part of `optimizeWaypoints` as pure functions. The first and
  last stops stay pinned. The interior is permuted by the reply's
  `waypoint_order`. Decoded polyline points have their axes swapped. Markup is
  stripped from the step texts. Legs are labelled with stop addresses, and
  distance and duration are summed. The service's reply is an input of type
  `Option<OracleRoute>`, where `None` stands for every failure of the call. A
  list of fewer than two stops gives `None` whatever the reply would have been,
  because the source sends no request for it.
- **List operations** (`Markers`). These are the delete filter and
  `reorderMarkers`: `find` of the chosen address, then that stop first and
  every stop with another address behind it.
- **Trip state** (`Trip.App`). This is a class with the component's four state
  fields: `markers`, `routeData`, `currentWaypointIndex` and
  `selectedStartLocation`. Each handler is a method:
  - `fetchMarkers`
  - the `markers` effect
  - `deleteMarker`
  - `reorderMarkers`
  - `handleChangeRoute`
  - `handleNextStop`

  The list returned by the marker store and the directions reply are method
  parameters.

Proved properties include:

- origin and destination are pinned;
- the stop multiset is preserved when the reply permutes the interior indices;
- the delete filter removes exactly the stops with the given address and keeps
  the rest in their order; after a successful re-optimization the list is in
  the order the reply gives instead;
- `handleNextStop`, `fetchMarkers` and `deleteMarker` keep the cursor below the
  number of stops (or at 0); `handleChangeRoute` keeps it in range only when
  addresses are unique and the reply permutes the interior, because a shorter
  reordered list is left with the old cursor (the reset lives in the
  `selectedStartLocation` effect, which is not modelled);
- the summed totals agree with the left folds the source writes;
- the `instructions` field agrees with the legs' step texts;
- the tag stripper removes each `<...>` tag whole and keeps the text around
  the tags in order; it is idempotent, and its output never has a '<'
  followed later by a '>'.

## Model

| member | source | states |
|---|---|---|
| Tags.StripTags | src/App.tsx:78 | the result is no longer than the input, uses only characters of the input, and has no '<' followed later by a '>' |
| Tags.StripTagsKeepsTagFree | src/App.tsx:86 | text in which no '<' has a later '>' is returned unchanged |
| Tags.StripTagsKeepsPlainPrefix | src/App.tsx:78 | text with no '<' in front of the rest is kept as it is, followed by the stripped rest |
| Tags.StripTagsDropsTag | src/App.tsx:78 | a '<', a body without '>', and a '>' are removed together, and only the text after them is stripped further |
| Tags.StripTagsIdempotent | src/App.tsx:78 | stripping twice equals stripping once |
| Tags.StripTagsUnchangedIff | src/App.tsx:78 | stripping leaves a text unchanged exactly when no '<' in it has a later '>' (both directions) |
| Tags.StripTagsWithoutOpen | src/App.tsx:86 | a text without '<' is unchanged |
| Geometry.SwapAxes | src/App.tsx:21 | same number of points; point i becomes (lng, lat) of decoded point i |
| Geometry.ConvertToGeoJson | src/App.tsx:16-28 | a "LineString" with one coordinate per decoded point, in order, axes swapped |
| Geometry.SwapAxesInvolution | src/App.tsx:21 | swapping twice gives back the decoded points |
| Geometry.SwapAxesAppend | src/App.tsx:21 | the swap commutes with concatenation, so no point changes place |
| Markers.WithoutAddress | src/App.tsx:445 | no remaining stop has the deleted address; every remaining stop was in the list; the list does not grow |
| Markers.WithoutAddressCount | src/App.tsx:445 | a stop with the deleted address occurs 0 times afterwards; every other stop keeps its number of occurrences |
| Markers.WithoutAddressOrder | src/App.tsx:445 | the remaining stops are a subsequence of the list, so their relative order is kept |
| Markers.WithoutAbsentAddress | src/App.tsx:445 | deleting an address that no stop has leaves the list unchanged |
| Markers.Find | src/App.tsx:467 | `None` exactly when no stop has the key; otherwise a stop of the list carrying the key |
| Markers.FindFirst | src/App.tsx:467 | the stop found is the first one carrying the key |
| Markers.Reorder | src/App.tsx:466-482 | an absent key leaves the list as it is; otherwise the first stop of the list with that key (the one `find` returns) comes first, followed by every stop with another address (the filter) |
| Markers.ReorderPermutes | src/App.tsx:474-477 | with unique addresses, reordering is a permutation (same multiset, same length) |
| Markers.ReorderStable | src/App.tsx:476 | the stops after the chosen one keep their original relative order |
| Orders.Permute | src/App.tsx:69-71 | one stop per order entry; entry i is the interior stop the i-th index names |
| Orders.PermuteIdentity | src/App.tsx:69-71 | the order 0, 1, ..., n-1 picks the interior as submitted |
| Orders.PermuteByMultiset | src/App.tsx:69-71 | orders with the same index multiset pick the same multiset of stops |
| Orders.PermutationInRange | src/App.tsx:69-71 | a permutation of 0..n-1 names only existing interior positions |
| Orders.PermuteRearranges | src/App.tsx:69-71 | picking by a permutation of the interior indices yields the interior's multiset exactly |
| Directions.Query | src/App.tsx:37-49 | a request exists exactly when there are at least two stops; it has the first stop as origin, the last as destination and the interior stops as waypoints in order |
| Directions.QueryDescribesRoute | src/App.tsx:37-49 | no request means no route; on success the optimized ends are the request's origin and destination, and optimized stop i+1 is at the request waypoint that `waypoint_order[i]` names |
| Directions.Interior | src/App.tsx:45 | `slice(1, -1)`: two fewer stops, stop i being submitted stop i+1 |
| Directions.OrderOf | src/App.tsx:68 | `waypoint_order || []`; no contract of its own: `Directions.MissingOrderKeepsEnds` and `Directions.Optimize` state its effect |
| Directions.FinalMarkers | src/App.tsx:73 | length is 2 plus the order's length; first and last stops pinned; position i+1 holds the interior stop named by order[i] |
| Directions.Optimize | src/App.tsx:36-100 | `Some` exactly when there are at least two stops and the call succeeded; then the ends are pinned, the interior follows `waypoint_order`, there are as many legs as oracle legs, and swapping the geometry back gives the decoded polyline |
| Directions.OptimizeMarkers | src/App.tsx:68-73 | on success, the optimized stops are the pinned-and-permuted list |
| Directions.ReduceIsSum | src/App.tsx:80-81 | the `reduce` left fold from any start value equals that value plus the sum |
| Directions.RouteTotals | src/App.tsx:80-81 | `distance` and `duration` are the sums of the legs' `value` fields |
| Directions.OptimizedFromSubmitted | src/App.tsx:69-73 | every optimized stop is one of the submitted stops |
| Directions.MissingOrderKeepsEnds | src/App.tsx:68 | a missing `waypoint_order` yields `[first, last]` |
| Directions.IdentityOrderKeepsStops | src/App.tsx:68-73 | an identity order (for example `[0]` with one interior stop) keeps the submission order |
| Directions.OptimizePreservesStops | src/App.tsx:45-73 | if `waypoint_order` permutes the interior indices, the optimized stops are a permutation of the submitted ones |
| Directions.PermutationFits | src/App.tsx:69-71 | a reply that permutes the interior only names existing interior stops |
| Directions.Assemble | src/App.tsx:75-92 | the result object; no contract of its own: `Directions.Optimize`, `Directions.RouteTotals`, `Directions.LegLabels` and `Directions.InstructionsMatchLegs` state its fields |
| Directions.FlatInstructions | src/App.tsx:77-79 | the `flatMap` over legs; no contract of its own: `Directions.InstructionsMatchLegs` states it equals the legs' step texts, all tag-free |
| Directions.Reduce | src/App.tsx:80-81 | the `reduce` left fold; no contract of its own: `Directions.ReduceIsSum` states it equals the start value plus the sum |
| Directions.Label | src/App.tsx:83-84 | `finalMarkers[i]?.address || fallback`: never empty for a non-empty fallback; anything other than the fallback is stop i's address; a present stop with a non-empty address gives that address |
| Directions.MakeLeg | src/App.tsx:82-90 | one displayed leg: both labels non-empty; a start other than "Unknown Start" is stop i's address, an end other than "Unknown End" is stop i+1's address |
| Directions.LegLabels | src/App.tsx:82-90 | leg i starts at stop i's address ("Unknown Start" if it is missing or empty) and ends at stop i+1's address ("Unknown End"); its steps are `ConvertSteps` of oracle leg i's steps, one per oracle step, with markup stripped |
| Directions.LegsChain | src/App.tsx:82-84 | with one leg per consecutive pair and non-empty addresses, the first leg starts at the origin, the last ends at the destination, and each leg ends where the next starts |
| Directions.InstructionsMatchLegs | src/App.tsx:77-90 | `instructions` is the concatenation of the legs' step texts, in order, and none has markup left |
| Directions.LabelLegs | src/App.tsx:82-90 | one leg per oracle leg, in oracle order, labelled by stop position |
| Directions.ConvertSteps | src/App.tsx:85-89 | one displayed step per oracle step, with stripped instruction and the distance and duration texts |
| Directions.StepInstructions | src/App.tsx:77-79 | one stripped text per step, in order |
| Directions.TwoStopScenario | src/App.tsx:36-100 | Toronto then Hamilton with one leg: the order is kept, one leg from "Toronto" to "Hamilton", and distance equals that leg's value |
| Trip.App.constructor | src/App.tsx:329-338 | empty list, no route, cursor 0, no start chosen |
| Trip.App.HandleNextStop | src/App.tsx:340-344 | the cursor rises by exactly 1 when it is below `markers.length - 1` and a route exists, and is otherwise unchanged; nothing else changes; the bound is kept |
| Trip.App.FetchMarkers | src/App.tsx:365-387 | an empty fetch with no start chosen throws and changes nothing; otherwise the start is chosen if unset; fewer than two stops replace the list and clear the route; a successful optimization replaces list and route; a failed one leaves both; the cursor is reset to 0 |
| Trip.App.FetchUpdatedRoute | src/App.tsx:389-403 | fewer than two stops clear the route; otherwise the first stop becomes the start if none is chosen |
| Trip.App.DeleteMarker | src/App.tsx:433-464 | fewer than two remaining clear the route; otherwise the remaining list is optimized, and on failure the filtered list stays with the previous route; no stop with the address remains; an absent address leaves the list unchanged when fewer than two stops remain or the optimization fails (a successful one stores the reply's order); the cursor is 0 afterwards |
| Trip.App.ReorderMarkers | src/App.tsx:466-482 | returns and stores the reordered list |
| Trip.App.HandleChangeRoute | src/App.tsx:484-502 | the start becomes the key; success replaces list and route; failure or at most one stop keeps the reordered list and clears the route; with unique addresses and a permuting reply no stop is gained or lost and the cursor stays in range |
| Trip.ReorderThenOptimizeKeepsStops | src/App.tsx:484-501 | with unique addresses and a permuting reply, reordering and then optimizing keeps the multiset of stops, whether or not optimization succeeds |

## Left out

- HTTP calls to `/directions`, `/get_markers`, `/delete_marker`,
  `/healthcheck` and `/get_mapbox_token`. Their results are method parameters.
  Transport failures of the marker and delete calls, whose `catch` blocks skip
  the state updates, are not modelled.
- The `polyline.decode` library call (src/App.tsx:18). It is a foreign library;
  the decoded (lat, lng) pairs are an input.
- `Directions.Query` records the request's coordinates, not the `"lat,lng"`
  strings or the `|`-joined waypoint list. Formatting floating-point numbers
  is out of scope.
- `Directions.Optimize` requires every `waypoint_order` index to name an
  interior stop (predicate `Fits`). The directions service returns a
  permutation of the interior indices. An index out of range would put
  `undefined` into the stop list in the source, and the model has no such
  element.
- The `MapboxMap` component (src/App.tsx:102-325). It is map drawing, popups,
  reverse geocoding and click handling.
- The healthcheck retry loop (src/App.tsx:347-359). It is timer-driven I/O.
- The `selectedStartLocation` effect (src/App.tsx:405-431). It is React
  scheduling of an asynchronous re-optimization, and it is also where the
  cursor is reset after a start change. `Trip.App.HandleChangeRoute` therefore
  leaves the cursor alone.
- Trip.App.HandleChangeRoute: promises the cursor stays in range only for
  unique addresses and a reply whose `waypoint_order` permutes the interior.
  With duplicate addresses, or with a successful reply whose `waypoint_order`
  does not permute the interior (a missing one leaves only the two ends), the
  new list can be shorter than the cursor: 4 stops with the cursor at 3, then
  a reply without `waypoint_order`, leaves 2 stops and the cursor at 3. The
  source only repairs this in the `selectedStartLocation` effect.
- Interleaving of handlers across `await`s, and React closures that hold stale
  state, are not modelled. Each handler runs to completion on the current
  fields. Intermediate renders are not modelled either (for example, the
  filtered list that `deleteMarker` shows before its optimization returns).
- `console.error` logging, the km and minute display arithmetic
  (src/App.tsx:578, 581), the clipboard, and all JSX and `MarkerTable`
  rendering.
- `src/components/MarkerMenu.tsx`, including the add-stop flow. It is an
  autocomplete widget with HTTP calls. `src/index.tsx` only mounts React.
- Numbers: distances and durations are unbounded integers, which JavaScript
  numbers represent exactly at these sizes. Latitude and longitude are reals
  on which nothing is computed.

Behaviour of the code worth noting:

- No request sequence number or stale-response guard exists. The last handler
  to run wins.
- `fetchMarkers` keeps the previous list and route if optimization fails; it
  does not show the unoptimized fetched order.
- `deleteMarker` keeps the previous, now stale, route if re-optimization fails.
- `deleteMarker` sends the delete request even for an address no stop has.
- The cursor is clamped by `markers.length - 1`, not by the number of legs.
- `handleChangeRoute` does not reset the cursor itself.
- Nothing guarantees one leg per consecutive pair of stops. Labels fall back
  to "Unknown Start" and "Unknown End".
