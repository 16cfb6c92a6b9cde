/**
 What a validator reports: no error (`null` in the source) or one error object.
 Each error constructor stands for the error object one validator builds.
 */
module Validation {
  import opened Wrappers
  import opened Forms
  import opened Flights

  datatype ValidationResult =
    | Valid
      /** `{city: {actualCity, validCities}}` */
    | City(actualCity: Value, validCities: seq<string>)
      /** `{roundTrip: true}` */
    | RoundTrip
      /** `{asyncCity: true}` */
    | AsyncCity
      /** `{asyncMulti: true, from, to}` */
    | AsyncMulti(from: Value, to: Value)

  /**
   What an asynchronous validator does: the lookup it issues, if any, and the
   result its observable emits once that lookup has answered.
   */
  datatype AsyncOutcome = AsyncOutcome(query: Option<Query>, result: ValidationResult)
}
