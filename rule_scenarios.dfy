/**
 * The documents of the composite-type and variable-uniqueness tests, over
 * the part of the test schema they rely on, with what the tests assert
 * about each.
 */
module RuleScenarios {
  import opened Wrappers
  import opened Language
  import opened CompositeTypes
  import opened VariableRules

  /** The named types of the test schema the scenarios use, with their kinds. */
  const TestSchema: Schema := Schema(map[
    "Query" := Object, "Dog" := Object, "Cat" := Object, "Pet" := Interface,
    "CatOrDog" := Union, "Int" := Scalar, "Boolean" := Scalar])

  function Leaf(name: string, arguments: seq<Argument> := []): Selection
  {
    Field(None, name, arguments, [], [])
  }

  function FieldOf(name: string, sels: seq<Selection>, directives: seq<Directive> := []): Selection
  {
    Field(None, name, [], directives, sels)
  }

  function Spread(name: string): Selection
  {
    FragmentSpread(name, [])
  }

  function AnonymousQuery(sels: seq<Selection>, variables: seq<VariableDefinition> := []): Definition
  {
    OperationDef(OperationDefinition(None, Query, variables, [], sels))
  }

  function NamedQuery(name: string, variables: seq<VariableDefinition>, sels: seq<Selection>): Definition
  {
    OperationDef(OperationDefinition(Some(name), Query, variables, [], sels))
  }

  function Fragment(name: string, typeCondition: string, sels: seq<Selection>): Definition
  {
    FragmentDef(FragmentDefinition(name, typeCondition, [], sels))
  }

  /** `{ dog { ...name } }` followed by `fragment name on condition { body }`. */
  function DogSpreadDocument(name: string, typeCondition: string, body: seq<Selection>): Document
  {
    Document([AnonymousQuery([FieldOf("dog", [Spread(name)])]), Fragment(name, typeCondition, body)])
  }

  // ---------------------------------------------------------------------
  // Fragments on composite types
  // ---------------------------------------------------------------------

  lemma FragOnObject()
    ensures CompositeTypeErrors(TestSchema, DogSpreadDocument("fragOnObject", "Dog", [Leaf("name")])) == []
  {
  }

  lemma FragOnInterface()
    ensures CompositeTypeErrors(TestSchema, DogSpreadDocument("fragOnInterface", "Pet", [Leaf("name")])) == []
  {
  }

  lemma FragOnUnion()
    ensures CompositeTypeErrors(TestSchema,
              DogSpreadDocument("fragOnUnion", "CatOrDog", [InlineFragment(Some("Dog"), [], [Leaf("name")])])) == []
  {
  }

  /**
   * A fragment on the scalar `Int` gives exactly one error, with the
   * composite-type message: neither its spread nor the undefined field inside
   * it is reported by this check.
   */
  lemma FragOnScalar()
    ensures CompositeTypeErrors(TestSchema, DogSpreadDocument("fragOnScalar", "Int", [Leaf("something")]))
            == [Error(CompositeTypeMessage, FragmentNotOnCompositeType, "Int")]
  {
  }

  /** An inline fragment on `Boolean` inside a fragment on `Dog` gives exactly one error. */
  lemma InlineFragOnScalar()
    ensures CompositeTypeErrors(TestSchema,
              DogSpreadDocument("inlineFragOnScalar", "Dog",
                                [InlineFragment(Some("Boolean"), [], [Leaf("somethingElse")])]))
            == [Error(CompositeTypeMessage, FragmentNotOnCompositeType, "Boolean")]
  {
    var inline := InlineFragment(Some("Boolean"), [], [Leaf("somethingElse")]);
    assert SelectionsErrors(TestSchema, [inline]) == [ConditionError("Boolean")] by {
      assert SelectionErrors(TestSchema, inline) == [ConditionError("Boolean")];
    }
    assert DefinitionErrors(TestSchema, Fragment("inlineFragOnScalar", "Dog", [inline])) == [ConditionError("Boolean")];
  }

  // ---------------------------------------------------------------------
  // Variable uniqueness and input types
  // ---------------------------------------------------------------------

  function IsHousetrained(): Selection
  {
    FieldOf("dog", [Leaf("isHousetrained", [Argument("atOtherHomes", VariableValue("atOtherHomes"))])])
  }

  function BooleanVariable(name: string, defaultValue: Option<Value> := None): VariableDefinition
  {
    VariableDefinition(name, NamedType("Boolean"), defaultValue)
  }

  /** Two definitions of `$atOtherHomes`, both `Boolean`, give exactly one error, with the uniqueness message. */
  lemma OperationWithTwoVariablesThatHaveTheSameName()
    ensures VariableErrors(TestSchema,
              Document([NamedQuery("houseTrainedQuery",
                                   [BooleanVariable("atOtherHomes"), BooleanVariable("atOtherHomes")],
                                   [IsHousetrained()])]))
            == [Error(DuplicateVariableMessage, VariableNameNotUnique, "atOtherHomes")]
  {
    var v := BooleanVariable("atOtherHomes");
    assert !RejectsVariableType(TestSchema, v.declaredType);
    assert DefinitionsCheck(TestSchema, [v], {"atOtherHomes"}) == [DuplicateError("atOtherHomes")];
    assert [v, v][1..] == [v] && {} + {v.variable} == {"atOtherHomes"};
    assert DefinitionsCheck(TestSchema, [v, v], {}) == DefinitionsCheck(TestSchema, [v], {"atOtherHomes"});
  }

  /** Distinct names typed as the scalar `Boolean`, with default values, give no error. */
  lemma NoOperationHasVariablesThatShareTheSameName()
    ensures VariableErrors(TestSchema,
              Document([AnonymousQuery(
                [FieldOf("field", [Leaf("subfieldA")], [Directive("skip", [Argument("if", VariableValue("foo"))])]),
                 FieldOf("field", [Leaf("subfieldB")], [Directive("skip", [Argument("if", VariableValue("bar"))])])],
                [BooleanVariable("foo", Some(BooleanValue(true))), BooleanVariable("bar", Some(BooleanValue(false)))])]))
            == []
  {
    var foo := BooleanVariable("foo", Some(BooleanValue(true)));
    var bar := BooleanVariable("bar", Some(BooleanValue(false)));
    assert !RejectsVariableType(TestSchema, foo.declaredType);
    assert "bar" != "foo" by { assert "bar"[0] != "foo"[0]; }
    assert DefinitionsCheck(TestSchema, [bar], {"foo"}) == [];
    assert [foo, bar][1..] == [bar] && {} + {foo.variable} == {"foo"};
    assert DefinitionsCheck(TestSchema, [foo, bar], {}) == DefinitionsCheck(TestSchema, [bar], {"foo"});
  }

  /**
   * The same name declared by operations A and B, both spreading a fragment
   * that uses it, gives no error: names are scoped per operation.
   */
  lemma TwoOperationsThatShareVariableName()
    ensures VariableErrors(TestSchema,
              Document([NamedQuery("A", [BooleanVariable("atOtherHomes")], [Spread("HouseTrainedFragment")]),
                        NamedQuery("B", [BooleanVariable("atOtherHomes")], [Spread("HouseTrainedFragment")]),
                        Fragment("HouseTrainedFragment", "Query", [IsHousetrained()])]))
            == []
  {
  }
}
