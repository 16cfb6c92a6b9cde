/**
 `FlightEditComponent`: the reactive edit form for one flight, its validators,
 the change filter on its value stream, patching from the `flight` input and
 the outcome of saving.
 */
module FlightEdit {
  import opened Wrappers
  import opened Forms
  import opened Flights
  import opened Validation
  import opened FieldValidators
  import RoundTripValidator

  /** The allow-list handed to the city rule of `from` and `to`. */
  const EditCities: seq<string> := ["Graz", "Wien", "Hamburg", "Berlin"]
  const CityMinLength: nat := 3
  const CityMaxLength: nat := 15
  const DateLength: nat := 33

  /**
   Validators the form uses whose definitions are not part of this model: the
   shared `pattern` test, and `validateCity(list)` (true when it accepts the value).
   */
  datatype ExternalRules = ExternalRules(pattern: Value -> bool, cityAccepts: (seq<string>, Value) -> bool)

  /** The form as built: `id` 0 and empty `from`, `to` and `date`. */
  const InitialForm: Controls := map["id" := Num(0), "from" := Str(""), "to" := Str(""), "date" := Str("")]

  /** Errors on the `from` or `to` control holding `v`. */
  function EndpointErrors(rules: ExternalRules, v: Value): (e: set<FieldError>)
    ensures Required in e <==> IsEmptyInput(v)
    // a string fails the required and length rules exactly when its length is outside 3..15
    ensures v.Str? ==>
              ((Required in e || MinLength(CityMinLength, Utf16Length(v.s)) in e
                || MaxLength(CityMaxLength, Utf16Length(v.s)) in e)
               <==> (Utf16Length(v.s) < CityMinLength || Utf16Length(v.s) > CityMaxLength))
    // a string is accepted exactly when its length is in range and both external rules accept it
    ensures v.Str? ==>
              (e == {} <==> CityMinLength <= Utf16Length(v.s) <= CityMaxLength
                            && rules.pattern(v) && rules.cityAccepts(EditCities, v))
    ensures CityRule in e <==> !rules.cityAccepts(EditCities, v)
  {
    RequiredErrors(v)
    + MinLengthErrors(CityMinLength, v)
    + MaxLengthErrors(CityMaxLength, v)
    + PatternErrors(rules.pattern, v)
    + (if rules.cityAccepts(EditCities, v) then {} else {CityRule})
  }

  /** Errors on the `date` control holding `v`. */
  function DateErrors(v: Value): (e: set<FieldError>)
    ensures IsEmptyInput(v) ==> e == {Required}
    // a string date is accepted exactly when its length is 33
    ensures v.Str? ==> (e == {} <==> Utf16Length(v.s) == DateLength)
  {
    RequiredErrors(v) + MinLengthErrors(DateLength, v) + MaxLengthErrors(DateLength, v)
  }

  /** Errors on the control `name` of the edit form when it holds `v`. */
  function ControlErrors(rules: ExternalRules, name: string, v: Value): set<FieldError> {
    match name
    case "id" => RequiredErrors(v)
    case "from" => EndpointErrors(rules, v)
    case "to" => EndpointErrors(rules, v)
    case "date" => DateErrors(v)
    case _ => {}
  }

  /** The validator the constructor installs on the form group itself. */
  function FormErrors(form: Controls): ValidationResult {
    RoundTripValidator.ValidateRoundTrip(form)
  }

  /** The form is valid: no control has an error and the group-level validator accepts. */
  predicate FormValid(rules: ExternalRules, form: Controls) {
    && ControlErrors(rules, "id", ValueOf(form, "id")) == {}
    && ControlErrors(rules, "from", ValueOf(form, "from")) == {}
    && ControlErrors(rules, "to", ValueOf(form, "to")) == {}
    && ControlErrors(rules, "date", ValueOf(form, "date")) == {}
    && FormErrors(form) == Valid
  }

  /** Equal non-empty endpoints put the round-trip error on the form and make it invalid. */
  lemma RoundTripMakesFormInvalid(rules: ExternalRules, form: Controls)
    requires "from" in form && "to" in form && Truthy(form["from"]) && form["from"] == form["to"]
    ensures FormErrors(form) == RoundTrip
    ensures !FormValid(rules, form)
  {
  }

  /** The form as built is invalid: its endpoints and date are required. */
  lemma InitialFormInvalid(rules: ExternalRules)
    ensures Required in ControlErrors(rules, "from", ValueOf(InitialForm, "from"))
    ensures Required in ControlErrors(rules, "date", ValueOf(InitialForm, "date"))
    ensures !FormValid(rules, InitialForm)
  {
    assert ValueOf(InitialForm, "from") == Str("");
    assert ValueOf(InitialForm, "date") == Str("");
  }

  // ---- the change filter on `valueChanges` ----

  /** The `distinctUntilChanged` comparator: the same `id`, `from`, `to` and `date`. */
  predicate SameTuple(a: Controls, b: Controls) {
    && ValueOf(a, "id") == ValueOf(b, "id")
    && ValueOf(a, "from") == ValueOf(b, "from")
    && ValueOf(a, "to") == ValueOf(b, "to")
    && ValueOf(a, "date") == ValueOf(b, "date")
  }

  const TupleFields: set<string> := {"id", "from", "to", "date"}

  /** Two form values compare equal exactly when they agree on every tuple field. */
  lemma SameTupleIffTupleFieldsAgree(a: Controls, b: Controls)
    ensures SameTuple(a, b) <==> forall k :: k in TupleFields ==> ValueOf(a, k) == ValueOf(b, k)
  {
    if forall k :: k in TupleFields ==> ValueOf(a, k) == ValueOf(b, k) {
      assert "id" in TupleFields && "from" in TupleFields && "to" in TupleFields && "date" in TupleFields;
    }
  }

  /** Fields outside the tuple are ignored by the comparator. */
  lemma SameTupleIgnoresOtherFields(a: Controls, name: string, v: Value)
    requires name !in TupleFields
    ensures SameTuple(a, a[name := v])
    ensures SameTuple(a, a - {name})
  {
  }

  /** The comparator is an equivalence relation. */
  lemma SameTupleIsEquivalence()
    ensures forall a :: SameTuple(a, a)
    ensures forall a, b :: SameTuple(a, b) ==> SameTuple(b, a)
    ensures forall a, b, c :: SameTuple(a, b) && SameTuple(b, c) ==> SameTuple(a, c)
  {
  }

  /**
   The values `distinctUntilChanged` passes on from `xs`, when the value it
   passed on last is `last` (`None` before the first one).
   */
  function DistinctFrom(xs: seq<Controls>, last: Option<Controls>): (r: seq<Controls>)
    ensures |r| <= |xs|
    ensures forall y :: y in r ==> y in xs
    // never the same tuple twice in a row, counting the one passed on before
    ensures last.Some? && |r| > 0 ==> !SameTuple(last.value, r[0])
    ensures forall i :: 0 <= i < |r| - 1 ==> !SameTuple(r[i], r[i + 1])
    decreases |xs|
  {
    if xs == [] then
      []
    else if last.Some? && SameTuple(last.value, xs[0]) then
      DistinctFrom(xs[1..], last)
    else
      [xs[0]] + DistinctFrom(xs[1..], Some(xs[0]))
  }

  /**
   Reference definition of the change filter: keeps each value exactly when
   there is no earlier value or its tuple differs from the value just before
   it in the input (`prev` for the first one), in input order.
   */
  function Changes(xs: seq<Controls>, prev: Option<Controls>): seq<Controls>
    decreases |xs|
  {
    if xs == [] then
      []
    else if prev.Some? && SameTuple(prev.value, xs[0]) then
      Changes(xs[1..], Some(xs[0]))
    else
      [xs[0]] + Changes(xs[1..], Some(xs[0]))
  }

  /**
   Comparing with the last value passed on is the same as comparing with the
   value just before in the input, as long as the two have the same tuple.
   */
  lemma {:induction false} DistinctFromMatchesChanges(xs: seq<Controls>, last: Option<Controls>, prev: Option<Controls>)
    requires last.None? <==> prev.None?
    requires last.Some? ==> SameTuple(last.value, prev.value)
    ensures DistinctFrom(xs, last) == Changes(xs, prev)
    decreases |xs|
  {
    if xs != [] {
      if last.Some? && SameTuple(last.value, xs[0]) {
        assert SameTuple(prev.value, xs[0]);
        DistinctFromMatchesChanges(xs[1..], last, Some(xs[0]));
      } else {
        assert !(prev.Some? && SameTuple(prev.value, xs[0]));
        DistinctFromMatchesChanges(xs[1..], Some(xs[0]), Some(xs[0]));
      }
    }
  }

  /** The subscriber is notified of exactly the values whose tuple differs from the one before, in order. */
  lemma DistinctUntilChangedKeepsChanges(xs: seq<Controls>)
    ensures DistinctUntilChanged(xs) == Changes(xs, None)
  {
    DistinctFromMatchesChanges(xs, None, None);
  }

  /** The notifications the subscriber of `valueChanges` receives for the (debounced) values `xs`. */
  function DistinctUntilChanged(xs: seq<Controls>): seq<Controls> {
    DistinctFrom(xs, None)
  }

  /** The first value always passes. */
  lemma FirstValuePasses(xs: seq<Controls>)
    requires |xs| > 0
    ensures |DistinctUntilChanged(xs)| > 0 && DistinctUntilChanged(xs)[0] == xs[0]
  {
  }

  /** Values with the same tuple as the last one passed on are all swallowed. */
  lemma {:induction false} UnchangedTupleSwallowed(xs: seq<Controls>, last: Controls)
    requires forall i :: 0 <= i < |xs| ==> SameTuple(last, xs[i])
    ensures DistinctFrom(xs, Some(last)) == []
    decreases |xs|
  {
    if xs != [] {
      assert SameTuple(last, xs[0]);
      UnchangedTupleSwallowed(xs[1..], last);
    }
  }

  /** A stream whose tuple never changes notifies once. */
  lemma UnchangedTupleNotifiesOnce(xs: seq<Controls>)
    requires |xs| > 0
    requires forall i :: 0 <= i < |xs| ==> SameTuple(xs[0], xs[i])
    ensures DistinctUntilChanged(xs) == [xs[0]]
  {
    UnchangedTupleSwallowed(xs[1..], xs[0]);
  }

  /** A stream whose tuple changes at every step passes every value on. */
  lemma {:induction false} ChangingTuplePassesAll(xs: seq<Controls>, last: Option<Controls>)
    requires forall i :: 0 <= i < |xs| - 1 ==> !SameTuple(xs[i], xs[i + 1])
    requires last.Some? && |xs| > 0 ==> !SameTuple(last.value, xs[0])
    ensures DistinctFrom(xs, last) == xs
    decreases |xs|
  {
    if xs != [] {
      ChangingTuplePassesAll(xs[1..], Some(xs[0]));
    }
  }

  // ---- `ngOnChanges` ----

  /** The flight as an object of control values; `delayed` only when it is set. */
  function FlightValue(f: Flight): Controls {
    map["id" := Num(f.id), "from" := Str(f.from), "to" := Str(f.to), "date" := Str(f.date)]
    + (if f.delayed.Some? then map["delayed" := Bool(f.delayed.value)] else map[])
  }

  /** `patchValue`: each existing control named in `value` takes its value; nothing is added. */
  function PatchValue(form: Controls, value: Controls): Controls {
    map k | k in form :: if k in value then value[k] else form[k]
  }

  /** The form after `ngOnChanges` with the `flight` input `flight` (`None` when unset). */
  function OnChanges(form: Controls, flight: Option<Flight>): (r: Controls)
    // no `flight` input: the form is left alone
    ensures flight.None? ==> r == form
    // no control is ever added or removed
    ensures r.Keys == form.Keys
    // the tuple controls take the flight's values
    ensures flight.Some? && "from" in form ==> r["from"] == Str(flight.value.from)
    ensures flight.Some? && "to" in form ==> r["to"] == Str(flight.value.to)
    ensures flight.Some? && "date" in form ==> r["date"] == Str(flight.value.date)
    ensures flight.Some? && "id" in form ==> r["id"] == Num(flight.value.id)
    // other controls keep their values
    ensures forall k :: k in form && k !in TupleFields && k != "delayed" ==> r[k] == form[k]
  {
    match flight
    case None => form
    case Some(f) => PatchValue(form, FlightValue(f))
  }

  /** Patching the edit form with a flight makes its value exactly that flight's tuple. */
  lemma PatchedEditFormHoldsFlight(form: Controls, f: Flight)
    requires form.Keys == TupleFields
    ensures OnChanges(form, Some(f))
            == map["id" := Num(f.id), "from" := Str(f.from), "to" := Str(f.to), "date" := Str(f.date)]
  {
    var r := OnChanges(form, Some(f));
    var m := map["id" := Num(f.id), "from" := Str(f.from), "to" := Str(f.to), "date" := Str(f.date)];
    assert r.Keys == m.Keys;
  }

  // ---- `save` ----

  /** How the service's `save` answered. */
  datatype SaveResponse = Saved(flight: Flight) | SaveFailed

  /** The message shown afterwards and the flight emitted on `flightChange`, if any. */
  datatype SaveEffect = SaveEffect(message: string, emitted: Option<Flight>)

  const InitialMessage: string := ""

  function OnSave(response: SaveResponse): (e: SaveEffect)
    // a flight is emitted exactly when the save succeeded, and it is the one the service returned
    ensures e.emitted.Some? <==> response.Saved?
    ensures response.Saved? ==> e.emitted.value == response.flight
    ensures e.message == (if response.Saved? then "Success!" else "Error!")
    ensures e.message != InitialMessage
  {
    match response
    case Saved(flight) => SaveEffect("Success!", Some(flight))
    case SaveFailed => SaveEffect("Error!", None)
  }
}
