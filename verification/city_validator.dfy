/** `CityValidatorDirective`: a city must be a non-empty entry of the configured allow-list. */
module CityValidator {
  import opened Forms
  import opened Validation

  /** JavaScript `cities.includes(v)`: only a string can equal an entry of a string list. */
  predicate Includes(cities: seq<string>, v: Value) {
    v.Str? && v.s in cities
  }

  /** `validate` of the directive whose `city` input is `cities`, on a control holding `value`. */
  function ValidateCity(value: Value, cities: seq<string>): (r: ValidationResult)
    // the error carries the rejected value and the configured list, unchanged
    ensures r == Valid || r == City(value, cities)
    // accepted exactly when the value is a non-empty string listed in `cities`
    ensures r == Valid <==> value.Str? && value.s != "" && value.s in cities
    // empty and falsy values are rejected whatever the list
    ensures !Truthy(value) ==> r != Valid
  {
    if !Truthy(value) || !Includes(cities, value) then
      City(value, cities)
    else
      Valid
  }

  /** Growing the allow-list never turns an accepted city into a rejected one. */
  lemma AllowListMonotone(value: Value, cities: seq<string>, more: seq<string>)
    requires forall c :: c in cities ==> c in more
    ensures ValidateCity(value, cities) == Valid ==> ValidateCity(value, more) == Valid
  {
  }

  /** With an empty allow-list every value is rejected. */
  lemma EmptyAllowListRejectsAll(value: Value)
    ensures ValidateCity(value, []) == City(value, [])
  {
  }
}
