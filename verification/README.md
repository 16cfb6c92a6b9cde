# Flight booking validation, modelled in Dafny

This project models the decision logic of a small Angular flight-booking
tutorial application: the synchronous and asynchronous form validators, the
edit form's validation rules and change filter, the merge of an edited flight
into the search list, and the outcome of saving. Everything the application
does around that logic (HTTP, timers, RxJS pipelines, routing, templates) is
abstracted away: the flight service's `find` is a function parameter
(`Flights.Finder`), a save is a success/failure input, and a form group is a
map from control name to the control's current value (a missing key is a
missing control).

Modules follow the source files:

- `Forms` (forms.dfy): control values as JavaScript values (`undefined`,
  `null`, strings, integer numbers, booleans) with JavaScript truthiness and
  JavaScript string length (UTF-16 code units); form groups as
  `map<string, Value>`.
- `Flights` (flights.dfy): the `Flight` record, lookup queries and `Finder`.
- `Validation` (validation_result.dfy): the validator result — `Valid` or
  one error object per validator (`City`, `RoundTrip`, `AsyncCity`,
  `AsyncMulti`) — and the outcome of an asynchronous validator (the lookup it
  issues, if any, and its result).
- `RoundTripValidator`, `MultiFieldValidator`, `CityValidator`,
  `AsyncCityValidator`, `AsyncMultiFieldValidator`: the five validators.
- `FieldValidators`: the framework's `required`, `minLength`, `maxLength`
  and `pattern` validators, with the framework's documented behaviour (empty
  input is left to `required`; values without a length pass length checks).
- `FlightSearch`: `updateFlight` and the `ngOnInit` search guard.
- `FlightEdit`: the edit form's control rules, form-level round-trip hook,
  `distinctUntilChanged` comparator and filter, `ngOnChanges` patching and
  the `save` outcome.
- `BookingFlow`: the edit and search views together.

## Model

| member | source | states |
|---|---|---|
| RoundTripValidator.ValidateRoundTrip | src/app/flight-booking/shared/validation/round-trip-validator.ts:3-16 | a missing `from` or `to` control, a falsy `from`, or distinct values give no error; both controls present with a truthy `from` equal to `to` give exactly the round-trip error; nothing else is ever returned |
| RoundTripValidator.RoundTripDependsOnlyOnEndpoints | src/app/flight-booking/shared/validation/round-trip-validator.ts:4-5 | two groups that agree on presence and value of `from` and `to` get the same verdict |
| RoundTripValidator.RoundTripIgnoresOtherControls | src/app/flight-booking/shared/validation/round-trip-validator.ts:4-5 | adding, changing or removing any other control does not change the verdict |
| MultiFieldValidator.Validate | src/app/flight-booking/shared/validation/multi-field-validator.directive.ts:9-24 | the directive: missing control gives no error; equal truthy values give exactly the round-trip error; falsy `from` or differing values give no error |
| MultiFieldValidator.DirectiveAgreesWithValidateRoundTrip | src/app/flight-booking/shared/validation/multi-field-validator.directive.ts:9-24 | on every form group the directive and `validateRoundTrip` return the same result |
| CityValidator.ValidateCity | src/app/flight-booking/shared/validation/city-validator.directive.ts:13-28 | accepted if and only if the value is a non-empty string in the list; falsy values always rejected; the error carries the value itself and the configured list unchanged |
| CityValidator.AllowListMonotone | src/app/flight-booking/shared/validation/city-validator.directive.ts:18 | a value accepted by a list is accepted by every list containing all its entries |
| CityValidator.EmptyAllowListRejectsAll | src/app/flight-booking/shared/validation/city-validator.directive.ts:18-24 | with an empty list every value is rejected with the city error |
| AsyncCityValidator.AsyncCityValidate | src/app/flight-booking/shared/validation/async-city-validator.directive.ts:22-27 | the lookup is `find(value, '')`; the result is valid if and only if it returned at least one flight, otherwise exactly `asyncCity` |
| AsyncCityValidator.AsyncCityDependsOnlyOnEmptiness | src/app/flight-booking/shared/validation/async-city-validator.directive.ts:24 | two lookups that agree on being empty give the same outcome, whatever flights they hold |
| AsyncMultiFieldValidator.AsyncMultiValidate | src/app/flight-booking/shared/validation/async-multi-field-validator.directive.ts:23-39 | an unset name list or one not of length 2 gives valid with no lookup; otherwise the lookup takes the first and second named controls' values in order (`undefined` for a missing control), valid if and only if it found a flight, else the error carrying exactly the two looked-up values |
| AsyncMultiFieldValidator.MissingValueStillLooksUp | src/app/flight-booking/shared/validation/async-multi-field-validator.directive.ts:33-36 | with two names and a falsy value the validator does not short-circuit: the lookup is issued and its answer decides |
| AsyncMultiFieldValidator.MissingDestinationIsRejected | src/app/flight-booking/shared/validation/async-multi-field-validator.directive.ts:30-36 | a group with `from` = Graz and no `to` control, with a lookup finding nothing, is rejected with `{asyncMulti, from: Graz, to: undefined}` |
| AsyncMultiFieldValidator.AsyncMultiValidateIntended | src/app/flight-booking/shared/validation/async-multi-field-validator.directive.ts:33 | corrected validator: a falsy value gives valid with no lookup; a lookup is issued exactly when both values are truthy and it decides the verdict |
| AsyncMultiFieldValidator.IntendedAgreesWhenValuesPresent | src/app/flight-booking/shared/validation/async-multi-field-validator.directive.ts:33-38 | the correction agrees with the code as written whenever both values are truthy |
| FlightSearch.OnInitQuery | src/app/flight-booking/flight-search/flight-search.component.ts:43-47 | a search is issued exactly when both terms are truthy, and it uses those two terms in order |
| FlightSearch.DefaultTermsSearchOnInit | src/app/flight-booking/flight-search/flight-search.component.ts:18-46 | the initial terms Graz and Hamburg lead to a search on initialisation |
| FlightSearch.UpdateFlight | src/app/flight-booking/flight-search/flight-search.component.ts:88-93 | length preserved; every entry with another id unchanged at its index; every entry with the updated id replaced by the updated flight, all of them when ids repeat |
| FlightSearch.UpdateFlightKeepsIds | src/app/flight-booking/flight-search/flight-search.component.ts:92 | the id at every index is the same after the update |
| FlightSearch.UpdateFlightWithoutMatchIsIdentity | src/app/flight-booking/flight-search/flight-search.component.ts:92 | when no entry has the updated id the list is unchanged |
| FlightSearch.UpdateFlightIdempotent | src/app/flight-booking/flight-search/flight-search.component.ts:92 | applying the same update twice equals applying it once |
| FlightSearch.UpdateFlightContainsUpdated | src/app/flight-booking/flight-search/flight-search.component.ts:92 | the updated flight appears in the result if and only if some entry had its id or it was already listed |
| FlightEdit.EndpointErrors | src/app/flight-booking/flight-edit/flight-edit.component.ts:29-56 | `from`/`to`: required error exactly on empty input; a string fails the required/length rules exactly when its JavaScript length (UTF-16 code units) is outside 3..15; a string is accepted exactly when that length is in range and the pattern and city rules accept it |
| FlightEdit.DateErrors | src/app/flight-booking/flight-edit/flight-edit.component.ts:57 | empty input gives exactly the required error; a string date is accepted exactly when its JavaScript length (UTF-16 code units) is 33 |
| FlightEdit.RoundTripMakesFormInvalid | src/app/flight-booking/flight-edit/flight-edit.component.ts:63 | the form-level validator is the round-trip check, so equal truthy endpoints put `roundTrip` on the form and make it invalid |
| FlightEdit.InitialFormInvalid | src/app/flight-booking/flight-edit/flight-edit.component.ts:27-58 | the form as built has required errors on `from` and `date` and is invalid |
| FlightEdit.SameTupleIffTupleFieldsAgree | src/app/flight-booking/flight-edit/flight-edit.component.ts:76 | the comparator holds if and only if `id`, `from`, `to` and `date` all agree |
| FlightEdit.SameTupleIgnoresOtherFields | src/app/flight-booking/flight-edit/flight-edit.component.ts:76 | changing or removing any other field keeps two values equal under the comparator |
| FlightEdit.SameTupleIsEquivalence | src/app/flight-booking/flight-edit/flight-edit.component.ts:76 | the comparator is reflexive, symmetric and transitive |
| FlightEdit.DistinctFrom | src/app/flight-booking/flight-edit/flight-edit.component.ts:73-77 | the filter passes on only input values, never more of them than came in, and never two with the same tuple in a row (nor one with the tuple passed on before) |
| FlightEdit.DistinctFromMatchesChanges | src/app/flight-booking/flight-edit/flight-edit.component.ts:76 | comparing each value with the last one passed on gives the same output, in the same order, as comparing it with the input value just before it (the reference filter `Changes`) |
| FlightEdit.DistinctUntilChangedKeepsChanges | src/app/flight-booking/flight-edit/flight-edit.component.ts:73-77 | the subscriber is notified of exactly the values whose tuple differs from the previous input value, plus the first, in input order |
| FlightEdit.FirstValuePasses | src/app/flight-booking/flight-edit/flight-edit.component.ts:76 | the first value always reaches the subscriber |
| FlightEdit.UnchangedTupleSwallowed | src/app/flight-booking/flight-edit/flight-edit.component.ts:76 | values whose tuple equals the last one passed on are all suppressed |
| FlightEdit.UnchangedTupleNotifiesOnce | src/app/flight-booking/flight-edit/flight-edit.component.ts:76 | a stream whose tuple never changes notifies exactly once, with its first value |
| FlightEdit.ChangingTuplePassesAll | src/app/flight-booking/flight-edit/flight-edit.component.ts:76 | a stream whose tuple changes at every step is passed on whole |
| FlightEdit.OnChanges | src/app/flight-booking/flight-edit/flight-edit.component.ts:66-70 | without a `flight` input the form is unchanged; with one, no control is added or removed, the tuple controls take the flight's values and the others keep theirs |
| FlightEdit.PatchedEditFormHoldsFlight | src/app/flight-booking/flight-edit/flight-edit.component.ts:66-70 | patching the four-control edit form yields exactly the flight's id, from, to and date |
| FlightEdit.OnSave | src/app/flight-booking/flight-edit/flight-edit.component.ts:88-109 | a flight is emitted exactly on success and it is the returned one; the message is `Success!` on success and `Error!` on failure, never the initial empty message |
| BookingFlow.SaveUpdatesSearchList | src/app/flight-booking/flight-edit/flight-edit.component.ts:100-106 | after a save, a failure leaves the search list unchanged; a success replaces each entry with the saved id by the returned flight and keeps the rest in place |
| BookingFlow.GrazToHamburgIsValid | src/app/flight-booking/flight-edit/flight-edit.component.ts:27-63 | Graz to Hamburg with a date of length 33 is a valid edit form when pattern and city rules accept both cities |
| BookingFlow.GrazToGrazIsRoundTrip | src/app/flight-booking/flight-edit/flight-edit.component.ts:63 | Graz to Graz carries the round-trip error and the form is invalid |

## Left out

- HTTP and the flight service: `find` is an arbitrary total function of its two terms, `save` an outcome given as input; `findById` is not used by the modelled code.
- Timing: the two-second `delay` of both asynchronous validators and the 250 ms `debounceTime` of the edit form. `DistinctFrom` is applied to the values that come out of the debounce.
- Superseding or cancelling pending asynchronous validations: that is the framework's validator pipeline, not this code.
- RxJS and lifecycle machinery: subscriptions, `takeUntil` teardown in `ngOnDestroy`, `EventEmitter`, validator registration through `NG_VALIDATORS`/`NG_ASYNC_VALIDATORS`, and `updateOn: 'blur'`.
- `validateCity` (src/app/flight-booking/shared/validation/city-validator.ts) and the shared `pattern` constant are not part of this model: they are the parameters `cityAccepts` and `pattern` of `FlightEdit.ExternalRules`.
- The edit form wiring `flightChange` to `updateFlight` lives in templates that are not part of this model; `BookingFlow.ListAfterSave` assumes that binding.
- Routing: `onEdit`, and reading `id`/`showDetails` from the route in the edit component.
- `FlightCardComponent`, the module files, the older `src/app/flight-search` component and the end-to-end browser tests (they depend on templates).
- Console logging everywhere, and `search()` storing its results (the result list is simply the service's answer).
- CityValidator.ValidateCity: assumes the `city` input is set; with it unset the source throws on a truthy value, which is not modelled.
- Numbers are integers: `NaN` (for which `===` is not reflexive, so the change comparator would not be either), `-0` and fractions are not modelled.
- `ngOnChanges` also tests `this.editForm`, which is always set once the component exists, so the model tests only the `flight` input.
- FlightEdit.DateErrors: pins down acceptance for string dates only; a number in the date control has no length and passes the framework's length rules.

## Findings

| source | as written | input that shows it | evidently intended | confidence | as-written member | corrected member |
|---|---|---|---|---|---|---|
| src/app/flight-booking/shared/validation/async-multi-field-validator.directive.ts:33 | `if (!from \|\| !to) of(null);` builds a "no error" result and discards it, so a missing value still goes to the lookup | names `['from', 'to']`, a group with `from` = `'Graz'` and no `to` control, a lookup that finds nothing: the form is rejected with `{asyncMulti: true, from: 'Graz', to: undefined}` | `return of(null);`: accept at once, without a lookup, when either value is missing | high; not executed | AsyncMultiFieldValidator.MissingDestinationIsRejected | AsyncMultiFieldValidator.AsyncMultiValidateIntended |

The application keeps the code as written; `AsyncMultiFieldValidator.AsyncMultiValidate`
models it, and the corrected validator is stated beside it.
