# HotChocolate document validation, modelled in Dafny

This project models the core of HotChocolate's GraphQL document validator and two small pieces of pure logic from elsewhere in the repository:

- **The document validator** (`Validation`). `DocumentValidator` takes a context from a context pool. It binds the schema and builds the fragment-name index in document order; later definitions overwrite earlier ones. It then runs every registered rule once, in registration order, and returns OK exactly when no rule appended an error. Otherwise it returns the accumulated errors. The context always goes back to the pool.
  - The context is a class. Its fields are the bound schema, a `map` from fragment names to definitions, and a `seq` of errors.
  - The pool is a class holding a stack of idle, reset contexts.
  - A rule is a value whose `check` gives the errors that rule appends. `ApplyRule` appends them to the context.
- **Two validation rules** whose behaviour the repository's tests pin down:
  - `CompositeTypes` models section 5.5.1.3 "Fragments On Composite Types" of the GraphQL Specification (June 2018).
  - `VariableRules` models sections 5.8.1 "Variable Uniqueness" and 5.8.2 "Variables Are Input Types".
  - Both rules are functions over a small AST and schema datatype (`Language`). `RuleScenarios` restates the eight test documents and what the tests assert about them.
- **`MergeEnumType`** from schema stitching (`Stitching`). `AreEqual` compares a name set with an enum's value list by count plus containment. `Merge` is one step in a chain of responsibility: it hands non-enum lists to the next merger, and for all-enum lists it only computes local values. As written, the description loop compares the value set with the first enum on every pass, and the merged values are never added to the context. The model keeps both.
- **`UnionTypeDefinitionNode`** of the editor-side syntax tree (`SyntaxNodes`). It is an immutable node with `With*` copy operations and a fixed-order enumeration of its children. `FromNodes` rebuilds a node from a location and a child sequence. It is the inverse of `GetNodes` in both directions.

Files: `wrappers.dfy` (Option), `language.dfy`, `composite_types.dfy`, `variable_rules.dfy`, `rule_scenarios.dfy`, `validation.dfy`, `validator_scenarios.dfy`, `merge_schema.dfy`, `union_type_definition_node.dfy`.

Where the model had to choose:

- **Argument null checks** on `Validate(schema, document)` and the two constructors become preconditions. The nullable arguments are `Option` values or nullable class types. A `seq` of rules cannot be null, so the rules argument is an `Option` too.
- **Result type.** `DocumentValidatorResult` is not part of this model. The failing result carries a copy of the error list, taken before the context is returned and cleared.
- **Rule traversal order.** The visitor classes of the two rules are not part of this model. The composite-type check visits, in document order, every fragment definition and every inline fragment that has a type condition, once each.
- **Variable check granularity.** For each variable definition in order, the variable check reports a duplicate when the same operation already declared that name. It then reports a non-input type when the named type under the wrappers is a known object, interface or union type. So a name defined twice gives exactly one error, as the test asserts.
- **Unknown types.** A type condition that names no schema type is not reported by the composite-type check. The fragments rule states type existence of fragment conditions as a sub-check of its own, which is not part of this model. A variable whose type names no schema type is not reported by the variable check. None of the registered rules' descriptions covers that case, so the modelled checks accept it.
- **Non-input message.** The test files give no wording for the non-input-type error. The model uses the sentence from the rule's documentation comment.

## Model

| member | source | states |
|---|---|---|
| `Validation.DocumentValidator.constructor` | src/HotChocolate/Core/src/Validation/DocumentValidator.cs:13-29 | a null pool or null rule list is refused; the pool is kept and the rules are snapshot as given |
| `Validation.DocumentValidator.Validate` | src/HotChocolate/Core/src/Validation/DocumentValidator.cs:31-64 | null schema/document refused before the pool is used; the result is OK iff the rules, run in order on the prepared index and bound schema, report nothing, and otherwise carries exactly those errors; the context goes back to the pool (rented set unchanged, idle stack as before or grown by one fresh context) |
| `Validation.DocumentValidator.PrepareContext` | src/HotChocolate/Core/src/Validation/DocumentValidator.cs:66-82 | binds the schema, leaves the errors alone, and leaves the fragment map equal to the in-order, overwrite-on-duplicate index of the definitions |
| `Validation.ApplyRule` | src/HotChocolate/Core/src/Validation/DocumentValidator.cs:49-52 | running a rule appends exactly its errors and leaves schema and fragment index unchanged |
| `Validation.RegisteredRulesErrors` | src/HotChocolate/Core/src/Validation/Extensions/ValidationServiceCollectionExtensions.cs:16-23 | the registered rules together report each rule's errors in registration order: directives, executable definitions, field selection, then the composite-type check, all variables used, variable usages, and the variable check last |
| `Validation.FragmentIndex` | src/HotChocolate/Core/src/Validation/DocumentValidator.cs:73-81 | indexing never loses a key it started with, and every entry is either an untouched initial entry or a fragment stored under its own name |
| `Validation.FragmentIndexAppend` | src/HotChocolate/Core/src/Validation/DocumentValidator.cs:73-81 | indexing a + b is indexing b on top of the index of a |
| `Validation.FragmentIndexKeys` | src/HotChocolate/Core/src/Validation/DocumentValidator.cs:73-81 | the index's keys are the initial keys plus exactly the fragment names of the document |
| `Validation.FragmentIndexKeysFromEmpty` | src/HotChocolate/Core/src/Validation/DocumentValidator.cs:73-81 | from an empty map, the keys are exactly the fragment names |
| `Validation.FragmentIndexLastWins` | src/HotChocolate/Core/src/Validation/DocumentValidator.cs:79 | a name maps to the last fragment definition with that name in document order |
| `Validation.FragmentIndexKeepsOthers` | src/HotChocolate/Core/src/Validation/DocumentValidator.cs:73-81 | a name carried by no fragment definition keeps its entry or its absence |
| `Validation.NonFragmentLeavesIndex` | src/HotChocolate/Core/src/Validation/DocumentValidator.cs:75-76 | inserting an operation or type-system definition anywhere does not change the index |
| `Validation.RulesErrorsAppend` | src/HotChocolate/Core/src/Validation/DocumentValidator.cs:49-52 | the errors of two rule lists run in turn are their errors concatenated |
| `Validation.RuleContribution` | src/HotChocolate/Core/src/Validation/DocumentValidator.cs:49-52 | rule i's errors stand in one piece between the errors of the rules before and after it |
| `Validation.RulesErrorsEmptyIff` | src/HotChocolate/Core/src/Validation/DocumentValidator.cs:49-58 | no errors overall iff every single rule reports none |
| `Validation.ValidatorContext.constructor` | src/HotChocolate/Core/src/Validation/DocumentValidator.cs:43 | a new context has no bound schema, an empty fragment map and no errors |
| `Validation.ValidatorContext.Clear` | src/HotChocolate/Core/src/Validation/DocumentValidator.cs:62 | clearing resets schema, fragment map and errors |
| `Validation.ContextPool.constructor` | src/HotChocolate/Core/src/Validation/Extensions/ValidationServiceCollectionExtensions.cs:13 | a new pool is valid with nothing idle and nothing rented |
| `Validation.ContextPool.Get` | src/HotChocolate/Core/src/Validation/DocumentValidator.cs:43 | yields a reset context not idle and not already rented: the top idle one, or a fresh one if none is idle; it is now rented |
| `Validation.ContextPool.Return` | src/HotChocolate/Core/src/Validation/DocumentValidator.cs:62 | resets the rented context, pushes it on the idle stack and removes it from the rented set |
| `ValidatorScenarios.ValidateScalarThenObjectFragment` | src/HotChocolate/Core/src/Validation/DocumentValidator.cs:31-64 | two runs through one pool: the scalar fragment document yields exactly one composite-type error, then the object fragment document yields OK (no error carried over) |
| `CompositeTypes.CompositeTypeErrors` | src/HotChocolate/Core/src/Validation/Extensions/ValidationServiceCollectionExtensions.cs:110-113 | the check reports one error per type condition of a named or inline fragment that names a non-composite type, in document order, and nothing else |
| `CompositeTypes.CompositeTypeErrorsEmptyIff` | src/HotChocolate/Core/src/Validation/Extensions/ValidationServiceCollectionExtensions.cs:110-113 | no error iff every type condition in the document is an object, interface or union (or unknown) |
| `CompositeTypes.CompositeTypeErrorsShape` | src/HotChocolate/Core/test/Validation.Tests/FragmentsOnCompositeTypesRule.cs:115-118 | every error carries the message "Fragments can only be declared on unions, interfaces, and objects." and names a rejected condition of the document |
| `CompositeTypes.RejectedMembers` | src/HotChocolate/Core/src/Validation/Extensions/ValidationServiceCollectionExtensions.cs:110-111 | a condition is rejected iff it occurs and names a known non-composite type |
| `RuleScenarios.FragOnObject` | src/HotChocolate/Core/test/Validation.Tests/FragmentsOnCompositeTypesRule.cs:17-38 | a fragment on the object type Dog gives no error |
| `RuleScenarios.FragOnInterface` | src/HotChocolate/Core/test/Validation.Tests/FragmentsOnCompositeTypesRule.cs:42-63 | a fragment on the interface Pet gives no error |
| `RuleScenarios.FragOnUnion` | src/HotChocolate/Core/test/Validation.Tests/FragmentsOnCompositeTypesRule.cs:67-90 | a fragment on the union CatOrDog with an inline fragment on Dog gives no error |
| `RuleScenarios.FragOnScalar` | src/HotChocolate/Core/test/Validation.Tests/FragmentsOnCompositeTypesRule.cs:94-118 | a fragment on Int: the composite check reports exactly one error, with the tested message |
| `RuleScenarios.InlineFragOnScalar` | src/HotChocolate/Core/test/Validation.Tests/FragmentsOnCompositeTypesRule.cs:123-149 | an inline fragment on Boolean inside a fragment on Dog gives exactly one error, with the same message |
| `RuleScenarios.OperationWithTwoVariablesThatHaveTheSameName` | src/HotChocolate/Core/test/Validation.Tests/VariableUniquenessRuleTests.cs:16-38 | two `$atOtherHomes: Boolean` give exactly one error, with the uniqueness message |
| `RuleScenarios.NoOperationHasVariablesThatShareTheSameName` | src/HotChocolate/Core/test/Validation.Tests/VariableUniquenessRuleTests.cs:42-62 | distinct Boolean variables with default values give no error |
| `RuleScenarios.TwoOperationsThatShareVariableName` | src/HotChocolate/Core/test/Validation.Tests/VariableUniquenessRuleTests.cs:66-91 | the same name in operations A and B that share a fragment gives no error |
| `VariableRules.DuplicateCountFrom` | src/HotChocolate/Core/src/Validation/Extensions/ValidationServiceCollectionExtensions.cs:199-201 | from an already-seen name set, the number of duplicate errors is the number of definitions minus the number of new names |
| `VariableRules.OperationDuplicateCount` | src/HotChocolate/Core/src/Validation/Extensions/ValidationServiceCollectionExtensions.cs:199-201 | per operation, duplicate errors = variable definitions minus distinct names, whatever the declared types |
| `VariableRules.NoDuplicateFromIff` | src/HotChocolate/Core/src/Validation/Extensions/ValidationServiceCollectionExtensions.cs:199-201 | from a seen set, no duplicate iff names are pairwise distinct and none is already seen |
| `VariableRules.OperationNoDuplicateIff` | src/HotChocolate/Core/src/Validation/Extensions/ValidationServiceCollectionExtensions.cs:199-201 | an operation has no duplicate error iff its variable names are pairwise distinct |
| `VariableRules.NotInputCountFrom` | src/HotChocolate/Core/src/Validation/Extensions/ValidationServiceCollectionExtensions.cs:207-208 | one non-input error per definition whose named type is a known object, interface or union |
| `VariableRules.CountRejectedZeroIff` | src/HotChocolate/Core/src/Validation/Extensions/ValidationServiceCollectionExtensions.cs:207-208 | no rejected definition iff every declared type is an input type or unknown |
| `VariableRules.OperationNotInputIff` | src/HotChocolate/Core/src/Validation/Extensions/ValidationServiceCollectionExtensions.cs:207-208 | per operation, the non-input errors count the rejected definitions, and there are none iff every declared type is a scalar, enum or input object (or unknown) |
| `VariableRules.DocumentAppend` | src/HotChocolate/Core/test/Validation.Tests/VariableUniquenessRuleTests.cs:66-91 | the errors of a + b are those of a followed by those of b |
| `VariableRules.NonOperationIgnored` | src/HotChocolate/Core/test/Validation.Tests/VariableUniquenessRuleTests.cs:79-84 | inserting a fragment or type-system definition anywhere does not change the errors |
| `VariableRules.DocumentNoDuplicateIff` | src/HotChocolate/Core/test/Validation.Tests/VariableUniquenessRuleTests.cs:66-91 | a document has no duplicate error iff each operation on its own declares distinct names; names never clash across operations |
| `VariableRules.DocumentNotInputIff` | src/HotChocolate/Core/src/Validation/Extensions/ValidationServiceCollectionExtensions.cs:207-208 | a document has no not-input error iff no operation declares a variable of a known object, interface or union type |
| `VariableRules.VariableErrors` | src/HotChocolate/Core/src/Validation/Extensions/ValidationServiceCollectionExtensions.cs:198-211 | the check's errors for a document: no duplicate error iff every operation on its own declares distinct names, and no not-input error iff every declared type is an input type or unknown |
| `VariableRules.DefinitionsCheckShape` | src/HotChocolate/Core/test/Validation.Tests/VariableUniquenessRuleTests.cs:34-38 | every error is a duplicate with the uniqueness message or a non-input error with its message |
| `VariableRules.CountKindAppend` | src/HotChocolate/Core/test/Validation.Tests/VariableUniquenessRuleTests.cs:33 | counting errors of one kind distributes over concatenation |
| `Stitching.MergeEnumType.constructor` | src/Stitching/Stitching/Utilities/MergeSchema.cs:44-47 | a null next merger is refused; the one given is kept |
| `Stitching.MergeEnumType.AreEqual` | src/Stitching/Stitching/Utilities/MergeSchema.cs:78-94 | false when the counts differ; true iff the counts agree and every value name of the enum is in the set |
| `Stitching.MergeEnumType.MergeEnumValues` | src/Stitching/Stitching/Utilities/MergeSchema.cs:55-70 | the name set is the first enum's value names; the description is the last present description when the first enum passes the comparison with its own names and has one, else the first enum's description |
| `Stitching.MergeEnumType.Merge` | src/Stitching/Stitching/Utilities/MergeSchema.cs:49-76 | needs a non-empty list when every definition is an enum; all enums: next is not called and the context gains nothing; otherwise next is called once with the same context and types, whatever that call then does to the context |
| `Stitching.MergeSchemaContext.AddType` | src/Stitching/Stitching/Utilities/MergeSchema.cs:25 | appends the type to the merged schema |
| `Stitching.MergeTypeDelegate.Invoke` | src/Stitching/Stitching/Utilities/MergeSchema.cs:37 | records one call with its context and types; the call may change the context, and nothing is promised about that |
| `Stitching.CountAndContainIsSetEquality` | src/Stitching/Stitching/Utilities/MergeSchema.cs:82-91 | when the enum's value names are distinct, the comparison holds iff the set equals the enum's names |
| `Stitching.CountAndContainIsNotSetEquality` | src/Stitching/Stitching/Utilities/MergeSchema.cs:82-91 | with a repeated value name ({"A","B"} against [A, A]) the comparison holds though the name sets differ |
| `Stitching.OwnNamesPassIff` | src/Stitching/Stitching/Utilities/MergeSchema.cs:57-58 | the first enum passes the comparison with its own names iff those names are pairwise distinct |
| `Stitching.ValueNamesSize` | src/Stitching/Stitching/Utilities/MergeSchema.cs:57-58 | the name set is no larger than the value list, and as large exactly when the names are distinct |
| `SyntaxNodes.UnionTypeDefinitionNode.Kind` | src/StrawberryShake/VisualStudioWin/src/StrawberryShake.VisualStudio.Language/AST/UnionTypeDefinitionNode.cs:20 | the kind is always UnionTypeDefinition |
| `SyntaxNodes.UnionTypeDefinitionNode.GetNodes` | src/StrawberryShake/VisualStudioWin/src/StrawberryShake.VisualStudio.Language/AST/UnionTypeDefinitionNode.cs:24-42 | the child count is (description present ? 1 : 0) + 1 + directives + types |
| `SyntaxNodes.GetNodesOrder` | src/StrawberryShake/VisualStudioWin/src/StrawberryShake.VisualStudio.Language/AST/UnionTypeDefinitionNode.cs:24-42 | children in order: description if present, name, each directive in order, each member type in order |
| `SyntaxNodes.GetNodesRoundTrip` | src/StrawberryShake/VisualStudioWin/src/StrawberryShake.VisualStudio.Language/AST/UnionTypeDefinitionNode.cs:24-42 | the children and the location determine the node: rebuilding from GetNodes gives the node back |
| `SyntaxNodes.FromNodesYieldsChildren` | src/StrawberryShake/VisualStudioWin/src/StrawberryShake.VisualStudio.Language/AST/UnionTypeDefinitionNode.cs:24-42 | the converse: a node rebuilt from a location and a child sequence has that location and enumerates exactly that sequence again |
| `SyntaxNodes.DirectiveChildren` | src/StrawberryShake/VisualStudioWin/src/StrawberryShake.VisualStudio.Language/AST/UnionTypeDefinitionNode.cs:33-36 | one directive child per directive, in order |
| `SyntaxNodes.TypeChildren` | src/StrawberryShake/VisualStudioWin/src/StrawberryShake.VisualStudio.Language/AST/UnionTypeDefinitionNode.cs:38-41 | one type child per member type, in order |
| `SyntaxNodes.UnionTypeDefinitionNode.WithLocation` | src/StrawberryShake/VisualStudioWin/src/StrawberryShake.VisualStudio.Language/AST/UnionTypeDefinitionNode.cs:44-49 | the location is the new one; every other field is as before |
| `SyntaxNodes.UnionTypeDefinitionNode.WithName` | src/StrawberryShake/VisualStudioWin/src/StrawberryShake.VisualStudio.Language/AST/UnionTypeDefinitionNode.cs:51-56 | the name is the new one; every other field is as before |
| `SyntaxNodes.UnionTypeDefinitionNode.WithDescription` | src/StrawberryShake/VisualStudioWin/src/StrawberryShake.VisualStudio.Language/AST/UnionTypeDefinitionNode.cs:58-64 | the description is the new one; every other field is as before |
| `SyntaxNodes.UnionTypeDefinitionNode.WithDirectives` | src/StrawberryShake/VisualStudioWin/src/StrawberryShake.VisualStudio.Language/AST/UnionTypeDefinitionNode.cs:66-72 | the directives are the new ones; every other field is as before |
| `SyntaxNodes.UnionTypeDefinitionNode.WithTypes` | src/StrawberryShake/VisualStudioWin/src/StrawberryShake.VisualStudio.Language/AST/UnionTypeDefinitionNode.cs:74-80 | the member types are the new ones; every other field is as before |
| `SyntaxNodes.WithTwiceKeepsLast` | src/StrawberryShake/VisualStudioWin/src/StrawberryShake.VisualStudio.Language/AST/UnionTypeDefinitionNode.cs:44-80 | applying the same With operation twice keeps only the last value |
| `SyntaxNodes.WithOwnValueIsIdentity` | src/StrawberryShake/VisualStudioWin/src/StrawberryShake.VisualStudio.Language/AST/UnionTypeDefinitionNode.cs:44-80 | a With operation given the node's own value returns an equal node |
| `SyntaxNodes.WithLocationKeepsNodes` | src/StrawberryShake/VisualStudioWin/src/StrawberryShake.VisualStudio.Language/AST/UnionTypeDefinitionNode.cs:24-49 | changing the location leaves the children unchanged |

The constructor of `UnionTypeDefinitionNode` (UnionTypeDefinitionNode.cs:9-18) is the datatype constructor. It stores every argument as given.

## Left out

- `DocumentValidatorContextPool` is not part of this model. The pool is an abstract stack of reset contexts. Its capacity of 8, its thread safety and its allocation policy once full are left out.
- Concurrent validation runs are left out. The model is sequential.
- A rule that throws is left out. Rules return errors and never fault, so the `try`/`finally` reduces to the one path that returns the context after the rules ran.
- The other five registered rules are left out: directives, executable definitions, field must be defined, all variables used, and variable usages allowed. Their algorithms are not part of this model. They enter `RegisteredRules` as rules the caller supplies.
- `Validation.RegisteredRules`: the fourth rule is only the composite-type part of the fragments rule (ValidationServiceCollectionExtensions.cs:95-158). The other sub-checks of that rule are not part of this model, and a caller cannot supply them.
- The other sub-checks of the fragments rule are left out: name uniqueness, usage, spread target, spread possibility, cycles and type existence.
- `RuleScenarios.FragOnScalar` and the other fragment scenarios: the tests run the whole fragments rule. The model states only what its composite-type sub-check reports, not how that sub-check interacts with the others.
- Type existence of variable types is left out. A variable of a type the schema does not know gets no error from the modelled checks.
- The parser, `ValidationUtils.CreateContext`, snapshot matching and the test schema are left out. Only the type kinds the tests rely on are kept.
- Error locations and syntax nodes are left out. An error keeps only the name of its subject.
- `Stitching.MergeEnumType.Merge`: the next merger records its calls and may change the context in any way. What a real next merger adds to the context is left out. `ISchemaInfo` is not part of this model. `ITypeInfo` keeps only its definition, the one member `Merge` reads. `IMergeSchemaContext` keeps only `AddType`, as a log of added types.
- Source positions inside `Location`, arguments of directives in the editor syntax tree, and the base class of `UnionTypeDefinitionNode` are left out. `Location` keeps start and end offsets, but no modelled operation reads or checks them.
- IntrospectionFields.cs holds only string constants, and website/src/state/common/common.actions.ts holds only UI action constants. Neither has any logic.
