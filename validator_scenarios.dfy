/**
 * A client of the validator: one validator, one pool, two runs. The second
 * run reuses the context the first one returned and sees none of its errors.
 */
module ValidatorScenarios {
  import opened Wrappers
  import opened Language
  import opened Validation
  import RuleScenarios
  import CompositeTypes

  /**
   * Two runs of the composite-type rule through one pool: a document the rule
   * rejects, then one it accepts. The first run's errors do not leak into the
   * second.
   */
  method ValidateRejectedThenAccepted(schema: Schema, rejected: Document, accepted: Document)
    returns (first: ValidationResult, second: ValidationResult)
    requires CompositeTypes.CompositeTypeErrors(schema, rejected) != []
    requires CompositeTypes.CompositeTypeErrors(schema, accepted) == []
    ensures first == Invalid(CompositeTypes.CompositeTypeErrors(schema, rejected))
    ensures second == OK
  {
    var pool := new ContextPool();
    var rules := [FragmentsOnCompositeTypesRule];
    var validator := new DocumentValidator(pool, Some(rules));
    assert rules[..0] == [];
    first := validator.Validate(Some(schema), Some(rejected));
    second := validator.Validate(Some(schema), Some(accepted));
  }

  /** The scalar fragment document fails with one error; the object fragment document then passes. */
  method ValidateScalarThenObjectFragment() returns (first: ValidationResult, second: ValidationResult)
    ensures first == Invalid([Error(CompositeTypes.CompositeTypeMessage, FragmentNotOnCompositeType, "Int")])
    ensures second == OK
  {
    RuleScenarios.FragOnScalar();
    RuleScenarios.FragOnObject();
    first, second := ValidateRejectedThenAccepted(
      RuleScenarios.TestSchema,
      RuleScenarios.DogSpreadDocument("fragOnScalar", "Int", [RuleScenarios.Leaf("something")]),
      RuleScenarios.DogSpreadDocument("fragOnObject", "Dog", [RuleScenarios.Leaf("name")]));
  }
}
