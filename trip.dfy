/**
  The trip state held by the `App` component (src/App.tsx lines 328-502): the
  stop list, the current route, the "current leg" cursor and the chosen start.
  Each handler is a method; the list fetched from the marker store and the
  reply of the directions service are its parameters, and the awaits between
  the state updates are taken to complete without another handler running.
*/
module Trip {
  import opened Wrappers
  import opened Markers
  import opened Orders
  import opened Directions

  class App {
    var markers: seq<Marker>
    var routeData: Option<RouteData>
    var currentWaypointIndex: nat
    var selectedStartLocation: string

    /** The initial `useState` values. */
    constructor ()
      ensures markers == [] && routeData == None
      ensures currentWaypointIndex == 0 && selectedStartLocation == ""
    {
      markers := [];
      routeData := None;
      currentWaypointIndex := 0;
      selectedStartLocation := "";
    }

    /** The cursor stays within `0 <= index <= max(0, markers.length - 1)`. */
    predicate CursorInRange()
      reads this
    {
      currentWaypointIndex == 0 || currentWaypointIndex < |markers|
    }

    /**
      `handleNextStop`: one step forward when there is a route and a stop
      after the current one; otherwise nothing changes. An empty `legs` array
      still counts as present.
    */
    method HandleNextStop()
      modifies this`currentWaypointIndex
      ensures old(currentWaypointIndex) < |markers| - 1 && routeData.Some? ==>
        currentWaypointIndex == old(currentWaypointIndex) + 1
      ensures !(old(currentWaypointIndex) < |markers| - 1 && routeData.Some?) ==>
        currentWaypointIndex == old(currentWaypointIndex)
      ensures currentWaypointIndex > old(currentWaypointIndex) ==> currentWaypointIndex < |markers|
      ensures old(CursorInRange()) ==> CursorInRange()
    {
      if currentWaypointIndex < |markers| - 1 && routeData.Some? {
        currentWaypointIndex := currentWaypointIndex + 1;
      }
    }

    /**
      `fetchMarkers` with `fetched` as the store's list and `oracle` as the
      directions reply. With no start chosen yet, an empty list makes
      `fetchedMarkers[0].address` throw, and the error handler leaves the
      state as it was. Otherwise the first fetched address becomes the start
      if none was chosen; fewer than two stops replace the list and clear the
      route; more are optimized, and only a successful result replaces list
      and route. The cursor is then reset.
    */
    method FetchMarkers(fetched: seq<Marker>, oracle: Option<OracleRoute>)
      requires Fits(oracle, |fetched|)
      modifies this
      ensures old(selectedStartLocation) == "" && fetched == [] ==>
        && markers == old(markers) && routeData == old(routeData)
        && currentWaypointIndex == old(currentWaypointIndex)
        && selectedStartLocation == old(selectedStartLocation)
      ensures !(old(selectedStartLocation) == "" && fetched == []) ==>
        && selectedStartLocation == (if old(selectedStartLocation) == "" then fetched[0].address else old(selectedStartLocation))
        && currentWaypointIndex == 0
        && (|fetched| < 2 ==> markers == fetched && routeData == None)
        && (|fetched| >= 2 && oracle.Some? ==>
              routeData == Optimize(fetched, oracle) && markers == routeData.value.optimizedMarkers)
        && (|fetched| >= 2 && oracle.None? ==> markers == old(markers) && routeData == old(routeData))
      ensures old(CursorInRange()) ==> CursorInRange()
    {
      if selectedStartLocation == "" {
        if fetched == [] {
          return;
        }
        selectedStartLocation := fetched[0].address;
      }
      if |fetched| < 2 {
        markers := fetched;
        routeData := None;
      } else {
        var optimizedData := Optimize(fetched, oracle);
        if optimizedData.Some? {
          markers := optimizedData.value.optimizedMarkers;
          routeData := optimizedData;
        }
      }
      currentWaypointIndex := 0;
    }

    /**
      The effect that runs whenever `markers` changes: fewer than two stops
      clear the route; otherwise the first stop becomes the start if none is
      chosen yet.
    */
    method FetchUpdatedRoute()
      modifies this`routeData, this`selectedStartLocation
      ensures |markers| < 2 ==> routeData == None && selectedStartLocation == old(selectedStartLocation)
      ensures |markers| >= 2 ==> routeData == old(routeData)
      ensures |markers| >= 2 ==>
        selectedStartLocation == if old(selectedStartLocation) == "" then markers[0].address else old(selectedStartLocation)
    {
      if |markers| < 2 {
        routeData := None;
      } else if selectedStartLocation == "" {
        selectedStartLocation := markers[0].address;
      }
    }

    /**
      `deleteMarker(address)` once the store has accepted the delete: the
      list loses every stop with that address, keeping the others in order;
      fewer than two remaining clear the route, otherwise the remaining list
      is optimized and a successful result replaces list and route (a failed
      one leaves the previous route in place). The cursor is reset either way.
    */
    method DeleteMarker(address: string, oracle: Option<OracleRoute>)
      requires Fits(oracle, |WithoutAddress(markers, address)|)
      modifies this`markers, this`routeData, this`currentWaypointIndex
      ensures var remaining := WithoutAddress(old(markers), address);
        && (|remaining| < 2 ==> markers == remaining && routeData == None)
        && (|remaining| >= 2 && oracle.Some? ==>
              routeData == Optimize(remaining, oracle) && markers == routeData.value.optimizedMarkers)
        && (|remaining| >= 2 && oracle.None? ==> markers == remaining && routeData == old(routeData))
      ensures forall i :: 0 <= i < |markers| ==> markers[i].address != address
      ensures !HasAddress(old(markers), address) && (|old(markers)| < 2 || oracle.None?) ==>
        markers == old(markers)
      ensures currentWaypointIndex == 0
    {
      DeleteRemovesAddress(markers, address, oracle);
      var updatedMarkers := WithoutAddress(markers, address);
      markers := updatedMarkers;
      if |updatedMarkers| < 2 {
        routeData := None;
        currentWaypointIndex := 0;
      } else {
        var updatedRouteData := Optimize(updatedMarkers, oracle);
        if updatedRouteData.Some? {
          markers := updatedRouteData.value.optimizedMarkers;
          routeData := updatedRouteData;
        }
        currentWaypointIndex := 0;
      }
    }

    /**
      `reorderMarkers(newStartKey)`: the chosen stop moves to the front, the
      others follow in their order; an unknown key leaves the list alone.
    */
    method ReorderMarkers(newStartKey: string) returns (reordered: seq<Marker>)
      modifies this`markers
      ensures reordered == Reorder(old(markers), newStartKey) && markers == reordered
    {
      var startMarker := Find(markers, newStartKey);
      if startMarker.None? {
        return markers;
      }
      reordered := [startMarker.value] + WithoutAddress(markers, newStartKey);
      markers := reordered;
    }

    /**
      `handleChangeRoute(newStartKey)`: the key becomes the chosen start, the
      list is reordered, and the reordered list is optimized; success replaces
      list and route, failure (or at most one stop) keeps the reordered list
      and clears the route. The cursor is not touched here.
    */
    method HandleChangeRoute(newStartKey: string, oracle: Option<OracleRoute>)
      requires Fits(oracle, |Reorder(markers, newStartKey)|)
      modifies this`markers, this`routeData, this`selectedStartLocation
      ensures selectedStartLocation == newStartKey
      ensures var reordered := Reorder(old(markers), newStartKey);
        && (|reordered| > 1 && oracle.Some? ==>
              routeData == Optimize(reordered, oracle) && markers == routeData.value.optimizedMarkers)
        && (|reordered| <= 1 || oracle.None? ==> markers == reordered && routeData == None)
      ensures AddressesUnique(old(markers)) && Permutes(oracle, |old(markers)|) ==>
        multiset(markers) == multiset(old(markers)) && |markers| == |old(markers)|
      ensures currentWaypointIndex < |old(markers)| && AddressesUnique(old(markers)) && Permutes(oracle, |old(markers)|) ==>
        currentWaypointIndex < |markers|
    {
      selectedStartLocation := newStartKey;
      var reorderedMarkers := ReorderMarkers(newStartKey);
      if |reorderedMarkers| > 1 {
        var updatedRouteData := Optimize(reorderedMarkers, oracle);
        if updatedRouteData.Some? {
          markers := updatedRouteData.value.optimizedMarkers;
          routeData := updatedRouteData;
        } else {
          routeData := None;
        }
      } else {
        routeData := None;
      }
      if AddressesUnique(old(markers)) && Permutes(oracle, |old(markers)|) {
        ReorderThenOptimizeKeepsStops(old(markers), newStartKey, oracle);
      }
    }
  }

  /**
    With unique addresses and a reply that permutes the interior, changing
    the start neither gains nor loses a stop, whether or not the
    optimization succeeds.
  */
  lemma ReorderThenOptimizeKeepsStops(ms: seq<Marker>, key: string, oracle: Option<OracleRoute>)
    requires AddressesUnique(ms) && Permutes(oracle, |ms|)
    ensures var reordered := Reorder(ms, key);
      && |reordered| == |ms| && multiset(reordered) == multiset(ms)
      && Fits(oracle, |reordered|)
      && (|reordered| > 1 && oracle.Some? ==>
            multiset(Optimize(reordered, oracle).value.optimizedMarkers) == multiset(ms))
  {
    var reordered := Reorder(ms, key);
    ReorderPermutes(ms, key);
    PermutationFits(oracle, |ms|);
    if |reordered| > 1 && oracle.Some? {
      OptimizePreservesStops(reordered, oracle);
    }
  }

  /**
    After a delete, no stop with the address remains, whether the filtered
    list is kept or replaced by its optimization; an absent address leaves
    the filtered list equal to the original.
  */
  lemma DeleteRemovesAddress(ms: seq<Marker>, address: string, oracle: Option<OracleRoute>)
    requires Fits(oracle, |WithoutAddress(ms, address)|)
    ensures var remaining := WithoutAddress(ms, address);
      && (forall i :: 0 <= i < |remaining| ==> remaining[i].address != address)
      && (Optimize(remaining, oracle).Some? ==>
            forall i :: 0 <= i < |Optimize(remaining, oracle).value.optimizedMarkers| ==>
              Optimize(remaining, oracle).value.optimizedMarkers[i].address != address)
      && (!HasAddress(ms, address) ==> remaining == ms)
  {
    var remaining := WithoutAddress(ms, address);
    if Optimize(remaining, oracle).Some? {
      OptimizedFromSubmitted(remaining, oracle);
    }
    if !HasAddress(ms, address) {
      WithoutAbsentAddress(ms, address);
    }
  }
}
