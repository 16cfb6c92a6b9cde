/** `AsyncCityValidatorDirective`: a city is accepted when the service knows a flight from it. */
module AsyncCityValidator {
  import opened Wrappers
  import opened Forms
  import opened Flights
  import opened Validation

  /** `validate` on a control holding `c`; the two-second delay is not modelled. */
  function AsyncCityValidate(find: Finder, c: Value): (r: AsyncOutcome)
    // the lookup uses the value as `from` and the empty string as `to`
    ensures r.query == Some(Query(c, Str("")))
    // accepted exactly when that lookup finds at least one flight
    ensures r.result == Valid <==> |find(c, Str(""))| > 0
    ensures r.result == Valid || r.result == AsyncCity
  {
    var flights := find(c, Str(""));
    AsyncOutcome(Some(Query(c, Str(""))), if |flights| > 0 then Valid else AsyncCity)
  }

  /** Only whether the lookup found anything matters, not which flights it found. */
  lemma AsyncCityDependsOnlyOnEmptiness(find1: Finder, find2: Finder, c: Value)
    requires (|find1(c, Str(""))| == 0) == (|find2(c, Str(""))| == 0)
    ensures AsyncCityValidate(find1, c) == AsyncCityValidate(find2, c)
  {
  }
}
