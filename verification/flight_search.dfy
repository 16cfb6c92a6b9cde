/** `FlightSearchComponent`: the list of found flights and how an edited flight is merged back into it. */
module FlightSearch {
  import opened Wrappers
  import opened Forms
  import opened Flights

  /** The component's initial search terms. */
  const DefaultFrom: string := "Graz"
  const DefaultTo: string := "Hamburg"

  /** The search `ngOnInit` issues for the current terms, if any. */
  function OnInitQuery(from: Value, to: Value): (q: Option<Query>)
    ensures q.Some? <==> Truthy(from) && Truthy(to)
    ensures q.Some? ==> q.value == Query(from, to)
  {
    if Truthy(from) && Truthy(to) then Some(Query(from, to)) else None
  }

  /** A freshly created component searches for its default terms. */
  lemma DefaultTermsSearchOnInit()
    ensures OnInitQuery(Str(DefaultFrom), Str(DefaultTo)) == Some(Query(Str("Graz"), Str("Hamburg")))
  {
  }

  /** The callback given to `map`: a flight with the updated flight's id is swapped for it. */
  function Replace(flight: Flight, updated: Flight): Flight {
    if flight.id == updated.id then updated else flight
  }

  /** `updateFlight`: the list the component holds after `updated` has been reported by the edit view. */
  function UpdateFlight(flights: seq<Flight>, updated: Flight): (r: seq<Flight>)
    ensures |r| == |flights|
    // every flight with another id stays where it was
    ensures forall i :: 0 <= i < |flights| && flights[i].id != updated.id ==> r[i] == flights[i]
    // every flight with the updated id is replaced, even when ids repeat
    ensures forall i :: 0 <= i < |flights| && flights[i].id == updated.id ==> r[i] == updated
  {
    if flights == [] then [] else [Replace(flights[0], updated)] + UpdateFlight(flights[1..], updated)
  }

  /** The position of each id in the list survives the update. */
  lemma UpdateFlightKeepsIds(flights: seq<Flight>, updated: Flight)
    ensures forall i :: 0 <= i < |flights| ==> UpdateFlight(flights, updated)[i].id == flights[i].id
  {
  }

  /** When no flight has the updated id, the list is unchanged. */
  lemma UpdateFlightWithoutMatchIsIdentity(flights: seq<Flight>, updated: Flight)
    requires forall i :: 0 <= i < |flights| ==> flights[i].id != updated.id
    ensures UpdateFlight(flights, updated) == flights
  {
    var r := UpdateFlight(flights, updated);
    assert forall i :: 0 <= i < |flights| ==> r[i] == flights[i];
  }

  /** Reporting the same updated flight twice has the effect of reporting it once. */
  lemma UpdateFlightIdempotent(flights: seq<Flight>, updated: Flight)
    ensures UpdateFlight(UpdateFlight(flights, updated), updated) == UpdateFlight(flights, updated)
  {
    var once := UpdateFlight(flights, updated);
    var twice := UpdateFlight(once, updated);
    assert forall i :: 0 <= i < |flights| ==> twice[i] == once[i];
  }

  /** The updated flight is in the result exactly when some flight had its id (or it was there already). */
  lemma UpdateFlightContainsUpdated(flights: seq<Flight>, updated: Flight)
    ensures updated in UpdateFlight(flights, updated) <==>
              (updated in flights || exists i :: 0 <= i < |flights| && flights[i].id == updated.id)
  {
    var r := UpdateFlight(flights, updated);
    if updated in r {
      var k :| 0 <= k < |r| && r[k] == updated;
      assert flights[k].id == updated.id;
    }
    if exists i :: 0 <= i < |flights| && flights[i].id == updated.id {
      var k :| 0 <= k < |flights| && flights[k].id == updated.id;
      assert r[k] == updated;
    }
    if updated in flights {
      var k :| 0 <= k < |flights| && flights[k] == updated;
      assert r[k] == updated;
    }
  }
}
