/** `validateRoundTrip`: a form group whose `from` and `to` are equal and non-empty is a round trip. */
module RoundTripValidator {
  import opened Forms
  import opened Validation

  function ValidateRoundTrip(g: Controls): (r: ValidationResult)
    ensures r == Valid || r == RoundTrip
    // a group without a `from` or a `to` control is never rejected
    ensures "from" !in g || "to" !in g ==> r == Valid
    // an empty or falsy `from` is accepted, whatever `to` holds
    ensures !Truthy(ValueOf(g, "from")) ==> r == Valid
    // distinct endpoints are accepted
    ensures ValueOf(g, "from") != ValueOf(g, "to") ==> r == Valid
    // both controls present, `from` non-empty and equal to `to`: exactly the round-trip error
    ensures "from" in g && "to" in g && Truthy(g["from"]) && g["from"] == g["to"] ==> r == RoundTrip
  {
    if "from" !in g || "to" !in g then
      Valid
    else
      var from := g["from"];
      if Truthy(from) && from == g["to"] then RoundTrip else Valid
  }

  /** The result is a function of the `from` and `to` controls alone. */
  lemma RoundTripDependsOnlyOnEndpoints(g1: Controls, g2: Controls)
    requires SameControl(g1, g2, "from") && SameControl(g1, g2, "to")
    ensures ValidateRoundTrip(g1) == ValidateRoundTrip(g2)
  {
  }

  /** Adding, changing or removing any control other than `from` and `to` leaves the result unchanged. */
  lemma RoundTripIgnoresOtherControls(g: Controls, name: string, v: Value)
    requires name != "from" && name != "to"
    ensures ValidateRoundTrip(g[name := v]) == ValidateRoundTrip(g)
    ensures ValidateRoundTrip(g - {name}) == ValidateRoundTrip(g)
  {
    RoundTripDependsOnlyOnEndpoints(g[name := v], g);
    RoundTripDependsOnlyOnEndpoints(g - {name}, g);
  }
}
