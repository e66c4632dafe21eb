/**
 * "Fragments On Composite Types", section 5.5.1.3 of the GraphQL
 * Specification (June 2018): the type condition of a named fragment or of an
 * inline fragment must be a union, an interface or an object type. This is
 * the part of the fragments rule that its tests pin down.
 */
module CompositeTypes {
  import opened Wrappers
  import opened Language

  const CompositeTypeMessage: string :=
    "Fragments can only be declared on unions, interfaces, and objects."

  predicate IsCompositeKind(k: TypeKind)
  {
    k == Object || k == Interface || k == Union
  }

  /**
   * A type condition this check rejects: it names a type of the schema whose
   * kind is not composite. A condition naming no type of the schema belongs
   * to the type-existence check and is not reported here.
   */
  predicate RejectsCondition(schema: Schema, typeName: string)
  {
    typeName in schema.types && !IsCompositeKind(schema.types[typeName])
  }

  function ConditionError(typeName: string): Error
  {
    Error(CompositeTypeMessage, FragmentNotOnCompositeType, typeName)
  }

  // ---------------------------------------------------------------------
  // The check, as a walk over the document that visits every fragment
  // definition and every inline fragment once.
  // ---------------------------------------------------------------------

  function InlineCheck(schema: Schema, typeCondition: Option<string>): seq<Error>
  {
    if typeCondition.Some? && RejectsCondition(schema, typeCondition.value)
    then [ConditionError(typeCondition.value)]
    else []
  }

  function SelectionsErrors(schema: Schema, sels: seq<Selection>): seq<Error>
    decreases sels, 1
  {
    if sels == [] then [] else SelectionErrors(schema, sels[0]) + SelectionsErrors(schema, sels[1..])
  }

  function SelectionErrors(schema: Schema, s: Selection): seq<Error>
    decreases s, 0
  {
    match s
    case Field(_, _, _, _, sub) => SelectionsErrors(schema, sub)
    case FragmentSpread(_, _) => []
    case InlineFragment(tc, _, sub) => InlineCheck(schema, tc) + SelectionsErrors(schema, sub)
  }

  function DefinitionErrors(schema: Schema, d: Definition): seq<Error>
  {
    match d
    case OperationDef(op) => SelectionsErrors(schema, op.selections)
    case FragmentDef(f) =>
      InlineCheck(schema, Some(f.typeCondition)) + SelectionsErrors(schema, f.selections)
    case TypeSystemDef(_) => []
  }

  function DefinitionsErrors(schema: Schema, defs: seq<Definition>): seq<Error>
  {
    if defs == [] then [] else DefinitionErrors(schema, defs[0]) + DefinitionsErrors(schema, defs[1..])
  }

  /**
   * The errors this check appends for a document: exactly one error per
   * rejected type condition, in document order, named after that condition
   * and carrying the message of section 5.5.1.3.
   */
  function CompositeTypeErrors(schema: Schema, doc: Document): (errs: seq<Error>)
    ensures errs == ErrorsFor(Rejected(schema, TypeConditions(doc)))
  {
    DefinitionsErrorsAreRejected(schema, doc.definitions);
    DefinitionsErrors(schema, doc.definitions)
  }

  // ---------------------------------------------------------------------
  // Reference definition: every type condition written in the document,
  // in document order, and the ones the schema makes non-composite.
  // ---------------------------------------------------------------------

  function OptionToSeq(o: Option<string>): seq<string>
  {
    if o.Some? then [o.value] else []
  }

  function SelectionsConditions(sels: seq<Selection>): seq<string>
    decreases sels, 1
  {
    if sels == [] then [] else SelectionConditions(sels[0]) + SelectionsConditions(sels[1..])
  }

  function SelectionConditions(s: Selection): seq<string>
    decreases s, 0
  {
    match s
    case Field(_, _, _, _, sub) => SelectionsConditions(sub)
    case FragmentSpread(_, _) => []
    case InlineFragment(tc, _, sub) => OptionToSeq(tc) + SelectionsConditions(sub)
  }

  function DefinitionConditions(d: Definition): seq<string>
  {
    match d
    case OperationDef(op) => SelectionsConditions(op.selections)
    case FragmentDef(f) => [f.typeCondition] + SelectionsConditions(f.selections)
    case TypeSystemDef(_) => []
  }

  function DefinitionsConditions(defs: seq<Definition>): seq<string>
  {
    if defs == [] then [] else DefinitionConditions(defs[0]) + DefinitionsConditions(defs[1..])
  }

  function TypeConditions(doc: Document): seq<string>
  {
    DefinitionsConditions(doc.definitions)
  }

  /** The conditions of `conds` the check rejects, in order. */
  function Rejected(schema: Schema, conds: seq<string>): seq<string>
  {
    if conds == [] then []
    else (if RejectsCondition(schema, conds[0]) then [conds[0]] else []) + Rejected(schema, conds[1..])
  }

  function ErrorsFor(names: seq<string>): seq<Error>
  {
    seq(|names|, i requires 0 <= i < |names| => ConditionError(names[i]))
  }

  lemma {:induction false} RejectedAppend(schema: Schema, a: seq<string>, b: seq<string>)
    ensures Rejected(schema, a + b) == Rejected(schema, a) + Rejected(schema, b)
  {
    if a != [] {
      assert (a + b)[1..] == a[1..] + b;
      RejectedAppend(schema, a[1..], b);
    } else {
      assert a + b == b;
    }
  }

  lemma ErrorsForAppend(a: seq<string>, b: seq<string>)
    ensures ErrorsFor(a + b) == ErrorsFor(a) + ErrorsFor(b)
  {
  }

  lemma {:induction false} SelectionsErrorsAreRejected(schema: Schema, sels: seq<Selection>)
    ensures SelectionsErrors(schema, sels) == ErrorsFor(Rejected(schema, SelectionsConditions(sels)))
    decreases sels, 1
  {
    if sels != [] {
      SelectionErrorsAreRejected(schema, sels[0]);
      SelectionsErrorsAreRejected(schema, sels[1..]);
      RejectedAppend(schema, SelectionConditions(sels[0]), SelectionsConditions(sels[1..]));
      ErrorsForAppend(Rejected(schema, SelectionConditions(sels[0])),
                      Rejected(schema, SelectionsConditions(sels[1..])));
    }
  }

  lemma {:induction false} SelectionErrorsAreRejected(schema: Schema, s: Selection)
    ensures SelectionErrors(schema, s) == ErrorsFor(Rejected(schema, SelectionConditions(s)))
    decreases s, 0
  {
    match s
    case Field(_, _, _, _, sub) =>
      SelectionsErrorsAreRejected(schema, sub);
    case FragmentSpread(_, _) =>
    case InlineFragment(tc, _, sub) =>
      SelectionsErrorsAreRejected(schema, sub);
      RejectedAppend(schema, OptionToSeq(tc), SelectionsConditions(sub));
      ErrorsForAppend(Rejected(schema, OptionToSeq(tc)), Rejected(schema, SelectionsConditions(sub)));
  }

  lemma DefinitionErrorsAreRejected(schema: Schema, d: Definition)
    ensures DefinitionErrors(schema, d) == ErrorsFor(Rejected(schema, DefinitionConditions(d)))
  {
    match d
    case OperationDef(op) =>
      SelectionsErrorsAreRejected(schema, op.selections);
    case FragmentDef(f) =>
      SelectionsErrorsAreRejected(schema, f.selections);
      RejectedAppend(schema, [f.typeCondition], SelectionsConditions(f.selections));
      ErrorsForAppend(Rejected(schema, [f.typeCondition]), Rejected(schema, SelectionsConditions(f.selections)));
    case TypeSystemDef(_) =>
  }

  lemma {:induction false} DefinitionsErrorsAreRejected(schema: Schema, defs: seq<Definition>)
    ensures DefinitionsErrors(schema, defs) == ErrorsFor(Rejected(schema, DefinitionsConditions(defs)))
  {
    if defs != [] {
      DefinitionErrorsAreRejected(schema, defs[0]);
      DefinitionsErrorsAreRejected(schema, defs[1..]);
      RejectedAppend(schema, DefinitionConditions(defs[0]), DefinitionsConditions(defs[1..]));
      ErrorsForAppend(Rejected(schema, DefinitionConditions(defs[0])),
                      Rejected(schema, DefinitionsConditions(defs[1..])));
    }
  }

  lemma {:induction false} RejectedMembers(schema: Schema, conds: seq<string>)
    ensures forall c :: c in Rejected(schema, conds) <==> c in conds && RejectsCondition(schema, c)
  {
    if conds != [] {
      RejectedMembers(schema, conds[1..]);
      assert conds == [conds[0]] + conds[1..];
    }
  }

  /** No error exactly when no type condition in the document names a non-composite type. */
  lemma CompositeTypeErrorsEmptyIff(schema: Schema, doc: Document)
    ensures CompositeTypeErrors(schema, doc) == [] <==>
            forall c :: c in TypeConditions(doc) ==> !RejectsCondition(schema, c)
  {
    RejectedMembers(schema, TypeConditions(doc));
    var r := Rejected(schema, TypeConditions(doc));
    if r != [] {
      assert r[0] in r;
    }
  }

  /** Every error of the check carries the composite-type message and names a rejected condition of the document. */
  lemma CompositeTypeErrorsShape(schema: Schema, doc: Document)
    ensures forall e :: e in CompositeTypeErrors(schema, doc) ==>
              e.message == CompositeTypeMessage && e.kind == FragmentNotOnCompositeType &&
              e.subject in TypeConditions(doc) && RejectsCondition(schema, e.subject)
  {
    RejectedMembers(schema, TypeConditions(doc));
    var r := Rejected(schema, TypeConditions(doc));
    forall e | e in ErrorsFor(r)
      ensures e.message == CompositeTypeMessage && e.kind == FragmentNotOnCompositeType &&
              e.subject in TypeConditions(doc) && RejectsCondition(schema, e.subject)
    {
      var i :| 0 <= i < |ErrorsFor(r)| && ErrorsFor(r)[i] == e;
      assert r[i] in r;
    }
  }
}
