/**
 How the edit view and the search view work together: the edit form's verdict
 on concrete entries, and a saved flight flowing back into the search list
 through `flightChange` and `updateFlight`.
 */
module BookingFlow {
  import opened Wrappers
  import opened Forms
  import opened Flights
  import opened Validation
  import opened FlightEdit
  import opened FlightSearch

  /** The search list after the edit view has reported the effect `e` of a save. */
  function ListAfterSave(flights: seq<Flight>, e: SaveEffect): seq<Flight> {
    match e.emitted
    case Some(f) => UpdateFlight(flights, f)
    case None => flights
  }

  /**
   A failed save leaves the search list alone; a successful one replaces every
   entry with the saved flight's id by the flight the service returned, and
   keeps all other entries and their order.
   */
  lemma SaveUpdatesSearchList(flights: seq<Flight>, response: SaveResponse)
    ensures response.SaveFailed? ==> ListAfterSave(flights, OnSave(response)) == flights
    ensures |ListAfterSave(flights, OnSave(response))| == |flights|
    ensures response.Saved? ==>
              forall i :: 0 <= i < |flights| ==>
                ListAfterSave(flights, OnSave(response))[i]
                == (if flights[i].id == response.flight.id then response.flight else flights[i])
  {
  }

  /** The edit form holding the given id, endpoints and date. */
  function EditEntry(id: int, from: string, to: string, date: string): Controls {
    map["id" := Num(id), "from" := Str(from), "to" := Str(to), "date" := Str(date)]
  }

  /** Graz to Hamburg with a date of length 33 is a valid form when the external rules accept both cities. */
  lemma GrazToHamburgIsValid(rules: ExternalRules, id: int, date: string)
    requires Utf16Length(date) == DateLength
    requires rules.pattern(Str("Graz")) && rules.pattern(Str("Hamburg"))
    requires rules.cityAccepts(EditCities, Str("Graz")) && rules.cityAccepts(EditCities, Str("Hamburg"))
    ensures FormValid(rules, EditEntry(id, "Graz", "Hamburg", date))
  {
    var form := EditEntry(id, "Graz", "Hamburg", date);
    assert ValueOf(form, "from") == Str("Graz");
    assert ValueOf(form, "to") == Str("Hamburg");
    assert ValueOf(form, "date") == Str(date);
    assert ValueOf(form, "id") == Num(id);
  }

  /** Graz to Graz is a round trip: the form is invalid whatever else it holds. */
  lemma GrazToGrazIsRoundTrip(rules: ExternalRules, id: int, date: string)
    ensures FormErrors(EditEntry(id, "Graz", "Graz", date)) == RoundTrip
    ensures !FormValid(rules, EditEntry(id, "Graz", "Graz", date))
  {
    RoundTripMakesFormInvalid(rules, EditEntry(id, "Graz", "Graz", date));
  }
}
