/**
 The framework's built-in control validators the edit form configures:
 `required`, `minLength`, `maxLength` and `pattern`. Each yields the set of
 errors it puts on a control (the keys of the merged error object).
 */
module FieldValidators {
  import opened Forms

  datatype FieldError =
    | Required
    | MinLength(requiredLength: nat, actualLength: nat)
    | MaxLength(requiredLength: nat, actualLength: nat)
    | Pattern(actualValue: Value)
      /** the error of the city rule; its payload is not part of this model */
    | CityRule

  /** `null`, `undefined` and the empty string count as no input. */
  predicate IsEmptyInput(v: Value) {
    v.Undefined? || v.Null? || v == Str("")
  }

  function RequiredErrors(v: Value): set<FieldError> {
    if IsEmptyInput(v) then {Required} else {}
  }

  /**
   Lengths are JavaScript string lengths (UTF-16 code units). Empty input and
   values without a length are left to `required`.
   */
  function MinLengthErrors(n: nat, v: Value): set<FieldError> {
    if !IsEmptyInput(v) && v.Str? && Utf16Length(v.s) < n then {MinLength(n, Utf16Length(v.s))} else {}
  }

  function MaxLengthErrors(n: nat, v: Value): set<FieldError> {
    if v.Str? && Utf16Length(v.s) > n then {MaxLength(n, Utf16Length(v.s))} else {}
  }

  /** `matches` stands for testing the value against the configured regular expression. */
  function PatternErrors(matches: Value -> bool, v: Value): set<FieldError> {
    if !IsEmptyInput(v) && !matches(v) then {Pattern(v)} else {}
  }
}
