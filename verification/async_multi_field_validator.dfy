/**
 `AsyncMultiFieldValidatorDirective`: the pair of values in two named controls
 is accepted when the service knows a flight between them.
 */
module AsyncMultiFieldValidator {
  import opened Wrappers
  import opened Forms
  import opened Flights
  import opened Validation

  /** The directive's `asyncMulti` input names exactly two controls. */
  predicate WellConfigured(names: Option<seq<string>>) {
    names.Some? && |names.value| == 2
  }

  /** The answer to a lookup for `from`/`to`: no error when it found a flight, else the error with both values. */
  function Resolve(find: Finder, from: Value, to: Value): ValidationResult {
    if |find(from, to)| > 0 then Valid else AsyncMulti(from, to)
  }

  /**
   `validate` as written, on the form group `g` with the `asyncMulti` input `names`
   (`None` when the input is unset). The falsy-value test builds a result that is
   thrown away, so it does not change the outcome; the delay is not modelled.
   */
  function AsyncMultiValidate(names: Option<seq<string>>, find: Finder, g: Controls): (r: AsyncOutcome)
    // without exactly two names: accepted at once, no lookup
    ensures !WellConfigured(names) ==> r == AsyncOutcome(None, Valid)
    // with two names: one lookup on the first and second named controls' values, in that order
    ensures WellConfigured(names) ==>
              r.query == Some(Query(ValueOf(g, names.value[0]), ValueOf(g, names.value[1])))
    // the lookup's answer decides: accepted exactly when it found a flight
    ensures r.query.Some? ==> (r.result == Valid <==> |find(r.query.value.from, r.query.value.to)| > 0)
    // the error carries exactly the two values that were looked up
    ensures r.query.Some? && r.result != Valid ==> r.result == AsyncMulti(r.query.value.from, r.query.value.to)
  {
    if !WellConfigured(names) then
      AsyncOutcome(None, Valid)
    else
      var from := ValueOf(g, names.value[0]);
      var to := ValueOf(g, names.value[1]);
      AsyncOutcome(Some(Query(from, to)), Resolve(find, from, to))
  }

  /** A missing or empty value does not short-circuit: the lookup is still issued and still decides. */
  lemma MissingValueStillLooksUp(names: Option<seq<string>>, find: Finder, g: Controls)
    requires WellConfigured(names)
    requires !Truthy(ValueOf(g, names.value[0])) || !Truthy(ValueOf(g, names.value[1]))
    ensures AsyncMultiValidate(names, find, g).query.Some?
    ensures AsyncMultiValidate(names, find, g).result
            == Resolve(find, ValueOf(g, names.value[0]), ValueOf(g, names.value[1]))
  {
  }

  /**
   A concrete form that the falsy-value test was meant to accept without a lookup:
   `to` has no control, yet a lookup that finds nothing makes the form invalid.
   */
  lemma MissingDestinationIsRejected()
    ensures AsyncMultiValidate(Some(["from", "to"]), (a, b) => [], map["from" := Str("Graz")])
            == AsyncOutcome(Some(Query(Str("Graz"), Undefined)), AsyncMulti(Str("Graz"), Undefined))
  {
    var g := map["from" := Str("Graz")];
    assert ValueOf(g, "to") == Undefined;
  }

  /**
   `validate` with the falsy-value test returning `of(null)`, so that a missing
   value is accepted without a lookup, as the arity guard already does.
   */
  function AsyncMultiValidateIntended(names: Option<seq<string>>, find: Finder, g: Controls): (r: AsyncOutcome)
    ensures !WellConfigured(names) ==> r == AsyncOutcome(None, Valid)
    // a missing or falsy value: accepted at once, no lookup
    ensures WellConfigured(names) &&
              (!Truthy(ValueOf(g, names.value[0])) || !Truthy(ValueOf(g, names.value[1])))
            ==> r == AsyncOutcome(None, Valid)
    // a lookup is issued exactly when both values are present
    ensures r.query.Some? <==>
              (WellConfigured(names) && Truthy(ValueOf(g, names.value[0])) && Truthy(ValueOf(g, names.value[1])))
    ensures r.query.Some? ==> (r.result == Valid <==> |find(r.query.value.from, r.query.value.to)| > 0)
  {
    if !WellConfigured(names) then
      AsyncOutcome(None, Valid)
    else
      var from := ValueOf(g, names.value[0]);
      var to := ValueOf(g, names.value[1]);
      if !Truthy(from) || !Truthy(to) then
        AsyncOutcome(None, Valid)
      else
        AsyncOutcome(Some(Query(from, to)), Resolve(find, from, to))
  }

  /** The correction changes nothing once both values are present. */
  lemma IntendedAgreesWhenValuesPresent(names: Option<seq<string>>, find: Finder, g: Controls)
    requires WellConfigured(names)
    requires Truthy(ValueOf(g, names.value[0])) && Truthy(ValueOf(g, names.value[1]))
    ensures AsyncMultiValidateIntended(names, find, g) == AsyncMultiValidate(names, find, g)
  {
  }
}
