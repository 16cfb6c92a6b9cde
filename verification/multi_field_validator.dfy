/** `MultiFieldValidatorDirective`: the round-trip check packaged as a form directive. */
module MultiFieldValidator {
  import opened Forms
  import opened Validation
  import RoundTripValidator

  /** `MultiFieldValidatorDirective.validate` on a form group. */
  function Validate(g: Controls): (r: ValidationResult)
    ensures "from" !in g || "to" !in g ==> r == Valid
    ensures "from" in g && "to" in g && Truthy(g["from"]) && g["from"] == g["to"] ==> r == RoundTrip
    ensures !Truthy(ValueOf(g, "from")) || ValueOf(g, "from") != ValueOf(g, "to") ==> r == Valid
  {
    if "from" !in g || "to" !in g then Valid
    else if Truthy(g["from"]) && g["from"] == g["to"] then RoundTrip
    else Valid
  }

  /** The directive and the standalone validator give the same verdict on every form group. */
  lemma DirectiveAgreesWithValidateRoundTrip(g: Controls)
    ensures Validate(g) == RoundTripValidator.ValidateRoundTrip(g)
  {
  }
}
