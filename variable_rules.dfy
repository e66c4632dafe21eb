/**
 * "Variable Uniqueness" and "Variables Are Input Types", sections 5.8.1 and
 * 5.8.2 of the GraphQL Specification (June 2018): within one operation no two
 * variable definitions share a name, even when their declared types agree,
 * and every declared type names (under its list and non-null wrappers) a
 * scalar, an enum or an input object type.
 */
module VariableRules {
  import opened Wrappers
  import opened Language

  const DuplicateVariableMessage: string :=
    "A document containing operations that define more than one variable with the same name is invalid for execution."

  const NotInputTypeMessage: string :=
    "Variables can only be input types. Objects, unions, and interfaces cannot be used as inputs."

  predicate IsInputKind(k: TypeKind)
  {
    k == Scalar || k == Enum || k == InputObject
  }

  /**
   * A declared type this check rejects: the named type under its wrappers
   * is a type of the schema that is not an input type. A type the schema does
   * not know is not reported here.
   */
  predicate RejectsVariableType(schema: Schema, t: TypeRef)
  {
    NamedTypeOf(t) in schema.types && !IsInputKind(schema.types[NamedTypeOf(t)])
  }

  function DuplicateError(name: string): Error
  {
    Error(DuplicateVariableMessage, VariableNameNotUnique, name)
  }

  function NotInputError(name: string): Error
  {
    Error(NotInputTypeMessage, VariableNotInputType, name)
  }

  /**
   * The walk over one operation's variable definitions, in order, with the
   * names already declared by that operation in `seen`.
   */
  function DefinitionsCheck(schema: Schema, defs: seq<VariableDefinition>, seen: set<string>): seq<Error>
  {
    if defs == [] then []
    else
      (if defs[0].variable in seen then [DuplicateError(defs[0].variable)] else [])
      + (if RejectsVariableType(schema, defs[0].declaredType) then [NotInputError(defs[0].variable)] else [])
      + DefinitionsCheck(schema, defs[1..], seen + {defs[0].variable})
  }

  /** The errors for one operation: the set of seen names starts empty for every operation. */
  function OperationVariableErrors(schema: Schema, op: OperationDefinition): seq<Error>
  {
    DefinitionsCheck(schema, op.variables, {})
  }

  function DocumentVariableErrors(schema: Schema, defs: seq<Definition>): seq<Error>
  {
    if defs == [] then []
    else
      (if defs[0].OperationDef? then OperationVariableErrors(schema, defs[0].op) else [])
      + DocumentVariableErrors(schema, defs[1..])
  }

  /**
   * The errors this check appends for a document: no duplicate error exactly
   * when every operation on its own declares pairwise distinct names, and no
   * not-input error exactly when no operation declares a variable of a known
   * object, interface or union type.
   */
  function VariableErrors(schema: Schema, doc: Document): (errs: seq<Error>)
    ensures CountKind(errs, VariableNameNotUnique) == 0 <==>
            forall i :: 0 <= i < |doc.definitions| && doc.definitions[i].OperationDef? ==>
              DistinctNames(doc.definitions[i].op.variables)
    ensures CountKind(errs, VariableNotInputType) == 0 <==>
            forall i, k :: 0 <= i < |doc.definitions| && doc.definitions[i].OperationDef? &&
                           0 <= k < |doc.definitions[i].op.variables| ==>
              !RejectsVariableType(schema, doc.definitions[i].op.variables[k].declaredType)
  {
    DocumentNoDuplicateIff(schema, doc.definitions);
    DocumentNotInputIff(schema, doc.definitions);
    DocumentVariableErrors(schema, doc.definitions)
  }

  // ---------------------------------------------------------------------
  // Reference notions
  // ---------------------------------------------------------------------

  /** The names declared by a variable-definition list. */
  function NameSet(defs: seq<VariableDefinition>): set<string>
  {
    set i | 0 <= i < |defs| :: defs[i].variable
  }

  predicate DistinctNames(defs: seq<VariableDefinition>)
  {
    forall i, j :: 0 <= i < j < |defs| ==> defs[i].variable != defs[j].variable
  }

  function CountKind(errs: seq<Error>, kind: ErrorKind): nat
  {
    if errs == [] then 0 else (if errs[0].kind == kind then 1 else 0) + CountKind(errs[1..], kind)
  }

  function CountRejected(schema: Schema, defs: seq<VariableDefinition>): nat
  {
    if defs == [] then 0
    else (if RejectsVariableType(schema, defs[0].declaredType) then 1 else 0) + CountRejected(schema, defs[1..])
  }

  lemma {:induction false} CountKindAppend(a: seq<Error>, b: seq<Error>, kind: ErrorKind)
    ensures CountKind(a + b, kind) == CountKind(a, kind) + CountKind(b, kind)
  {
    if a == [] {
      assert a + b == b;
    } else {
      assert (a + b)[1..] == a[1..] + b;
      CountKindAppend(a[1..], b, kind);
    }
  }

  lemma NameSetTail(defs: seq<VariableDefinition>)
    requires defs != []
    ensures NameSet(defs) == {defs[0].variable} + NameSet(defs[1..])
  {
    forall n | n in NameSet(defs) ensures n in {defs[0].variable} + NameSet(defs[1..]) {
      var i :| 0 <= i < |defs| && defs[i].variable == n;
      if i > 0 { assert defs[1..][i - 1].variable == n; }
    }
    forall n | n in NameSet(defs[1..]) ensures n in NameSet(defs) {
      var i :| 0 <= i < |defs[1..]| && defs[1..][i].variable == n;
      assert defs[i + 1].variable == n;
    }
  }

  // ---------------------------------------------------------------------
  // Section 5.8.1: uniqueness
  // ---------------------------------------------------------------------

  /**
   * Starting from the names `seen`, the walk reports one duplicate for every
   * definition that repeats a name declared earlier, so the number of
   * duplicate errors is the number of definitions minus the number of new names.
   */
  lemma {:induction false} DuplicateCountFrom(schema: Schema, defs: seq<VariableDefinition>, seen: set<string>)
    ensures CountKind(DefinitionsCheck(schema, defs, seen), VariableNameNotUnique)
            == |defs| - |NameSet(defs) - seen|
  {
    if defs == [] {
      assert NameSet(defs) == {};
    } else {
      var v := defs[0].variable;
      var dup := if v in seen then [DuplicateError(v)] else [];
      var inp := if RejectsVariableType(schema, defs[0].declaredType) then [NotInputError(v)] else [];
      var rest := DefinitionsCheck(schema, defs[1..], seen + {v});
      assert DefinitionsCheck(schema, defs, seen) == dup + inp + rest;
      CountKindAppend(dup + inp, rest, VariableNameNotUnique);
      CountKindAppend(dup, inp, VariableNameNotUnique);
      assert CountKind(inp, VariableNameNotUnique) == 0;
      DuplicateCountFrom(schema, defs[1..], seen + {v});
      NameSetTail(defs);
      SetStep(NameSet(defs[1..]), seen, v);
    }
  }

  lemma SetStep(tail: set<string>, seen: set<string>, v: string)
    ensures v in seen ==> ({v} + tail) - seen == tail - (seen + {v})
    ensures v !in seen ==> |({v} + tail) - seen| == |tail - (seen + {v})| + 1
  {
    if v !in seen {
      assert ({v} + tail) - seen == (tail - (seen + {v})) + {v};
    }
  }

  /**
   * Duplicate errors of one operation: one per definition whose name the
   * operation has already declared, so their number is the number of
   * variable definitions minus the number of distinct names.
   */
  lemma OperationDuplicateCount(schema: Schema, op: OperationDefinition)
    ensures CountKind(OperationVariableErrors(schema, op), VariableNameNotUnique)
            == |op.variables| - |NameSet(op.variables)|
  {
    DuplicateCountFrom(schema, op.variables, {});
    assert NameSet(op.variables) - {} == NameSet(op.variables);
  }

  /** Starting from `seen`, no duplicate is reported iff the names are pairwise distinct and none is in `seen`. */
  lemma {:induction false} NoDuplicateFromIff(schema: Schema, defs: seq<VariableDefinition>, seen: set<string>)
    ensures CountKind(DefinitionsCheck(schema, defs, seen), VariableNameNotUnique) == 0 <==>
            DistinctNames(defs) && forall i :: 0 <= i < |defs| ==> defs[i].variable !in seen
  {
    if defs != [] {
      var v := defs[0].variable;
      var dup := if v in seen then [DuplicateError(v)] else [];
      var inp := if RejectsVariableType(schema, defs[0].declaredType) then [NotInputError(v)] else [];
      var rest := DefinitionsCheck(schema, defs[1..], seen + {v});
      assert DefinitionsCheck(schema, defs, seen) == dup + inp + rest;
      CountKindAppend(dup + inp, rest, VariableNameNotUnique);
      CountKindAppend(dup, inp, VariableNameNotUnique);
      assert CountKind(inp, VariableNameNotUnique) == 0;
      NoDuplicateFromIff(schema, defs[1..], seen + {v});
      var tl := defs[1..];
      if DistinctNames(defs) && forall i :: 0 <= i < |defs| ==> defs[i].variable !in seen {
        assert DistinctNames(tl) by {
          forall i, j | 0 <= i < j < |tl| ensures tl[i].variable != tl[j].variable {
            assert tl[i] == defs[i + 1] && tl[j] == defs[j + 1];
          }
        }
        forall i | 0 <= i < |tl| ensures tl[i].variable !in seen + {v} {
          assert tl[i] == defs[i + 1];
        }
        assert v !in seen;
      } else if v !in seen && CountKind(rest, VariableNameNotUnique) == 0 {
        assert DistinctNames(tl);
        assert forall i :: 0 <= i < |tl| ==> tl[i].variable !in seen + {v};
        forall i, j | 0 <= i < j < |defs| ensures defs[i].variable != defs[j].variable {
          assert defs[j] == tl[j - 1];
          if i > 0 { assert defs[i] == tl[i - 1]; }
        }
        forall i | 0 <= i < |defs| ensures defs[i].variable !in seen {
          if i > 0 { assert defs[i] == tl[i - 1]; }
        }
        assert false;
      }
    }
  }

  /** Section 5.8.1 for one operation: no duplicate error iff the operation's variable names are pairwise distinct. */
  lemma OperationNoDuplicateIff(schema: Schema, op: OperationDefinition)
    ensures CountKind(OperationVariableErrors(schema, op), VariableNameNotUnique) == 0 <==>
            DistinctNames(op.variables)
  {
    NoDuplicateFromIff(schema, op.variables, {});
  }

  // ---------------------------------------------------------------------
  // Section 5.8.2: input types
  // ---------------------------------------------------------------------

  /** Starting from any `seen`, one not-input error is reported per definition whose type is rejected. */
  lemma {:induction false} NotInputCountFrom(schema: Schema, defs: seq<VariableDefinition>, seen: set<string>)
    ensures CountKind(DefinitionsCheck(schema, defs, seen), VariableNotInputType) == CountRejected(schema, defs)
  {
    if defs != [] {
      var v := defs[0].variable;
      var dup := if v in seen then [DuplicateError(v)] else [];
      var inp := if RejectsVariableType(schema, defs[0].declaredType) then [NotInputError(v)] else [];
      var rest := DefinitionsCheck(schema, defs[1..], seen + {v});
      assert DefinitionsCheck(schema, defs, seen) == dup + inp + rest;
      CountKindAppend(dup + inp, rest, VariableNotInputType);
      CountKindAppend(dup, inp, VariableNotInputType);
      assert CountKind(dup, VariableNotInputType) == 0;
      NotInputCountFrom(schema, defs[1..], seen + {v});
    }
  }

  lemma {:induction false} CountRejectedZeroIff(schema: Schema, defs: seq<VariableDefinition>)
    ensures CountRejected(schema, defs) == 0 <==>
            forall i :: 0 <= i < |defs| ==> !RejectsVariableType(schema, defs[i].declaredType)
  {
    if defs != [] {
      CountRejectedZeroIff(schema, defs[1..]);
      assert forall i :: 1 <= i < |defs| ==> defs[i] == defs[1..][i - 1];
    }
  }

  /**
   * Section 5.8.2 for one operation: one error per definition whose type is a
   * known non-input type, and none iff every declared type is an input type
   * or unknown to the schema.
   */
  lemma OperationNotInputIff(schema: Schema, op: OperationDefinition)
    ensures CountKind(OperationVariableErrors(schema, op), VariableNotInputType) == CountRejected(schema, op.variables)
    ensures CountKind(OperationVariableErrors(schema, op), VariableNotInputType) == 0 <==>
            forall i :: 0 <= i < |op.variables| ==> !RejectsVariableType(schema, op.variables[i].declaredType)
  {
    NotInputCountFrom(schema, op.variables, {});
    CountRejectedZeroIff(schema, op.variables);
  }

  // ---------------------------------------------------------------------
  // Scope: uniqueness is judged per operation; fragments play no part
  // ---------------------------------------------------------------------

  lemma {:induction false} DocumentAppend(schema: Schema, a: seq<Definition>, b: seq<Definition>)
    ensures DocumentVariableErrors(schema, a + b) == DocumentVariableErrors(schema, a) + DocumentVariableErrors(schema, b)
  {
    if a == [] {
      assert a + b == b;
    } else {
      assert (a + b)[1..] == a[1..] + b;
      DocumentAppend(schema, a[1..], b);
    }
  }

  /** A fragment or type-system definition, wherever it stands, contributes nothing to this check. */
  lemma NonOperationIgnored(schema: Schema, a: seq<Definition>, d: Definition, b: seq<Definition>)
    requires !d.OperationDef?
    ensures VariableErrors(schema, Document(a + [d] + b)) == VariableErrors(schema, Document(a + b))
  {
    DocumentAppend(schema, a + [d], b);
    DocumentAppend(schema, a, [d]);
    DocumentAppend(schema, a, b);
  }

  /**
   * Document-level uniqueness: the document has no duplicate-variable error iff every
   * operation, taken on its own, declares pairwise distinct names; the same name in two
   * operations is never a duplicate.
   */
  lemma {:induction false} DocumentNoDuplicateIff(schema: Schema, defs: seq<Definition>)
    ensures CountKind(DocumentVariableErrors(schema, defs), VariableNameNotUnique) == 0 <==>
            forall i :: 0 <= i < |defs| && defs[i].OperationDef? ==> DistinctNames(defs[i].op.variables)
  {
    if defs != [] {
      var head := if defs[0].OperationDef? then OperationVariableErrors(schema, defs[0].op) else [];
      CountKindAppend(head, DocumentVariableErrors(schema, defs[1..]), VariableNameNotUnique);
      DocumentNoDuplicateIff(schema, defs[1..]);
      if defs[0].OperationDef? { OperationNoDuplicateIff(schema, defs[0].op); }
      assert forall i :: 1 <= i < |defs| ==> defs[i] == defs[1..][i - 1];
    }
  }

  /** A document has no not-input error iff no operation declares a variable of a rejected type. */
  lemma {:induction false} DocumentNotInputIff(schema: Schema, defs: seq<Definition>)
    ensures CountKind(DocumentVariableErrors(schema, defs), VariableNotInputType) == 0 <==>
            forall i, k :: 0 <= i < |defs| && defs[i].OperationDef? && 0 <= k < |defs[i].op.variables| ==>
              !RejectsVariableType(schema, defs[i].op.variables[k].declaredType)
  {
    if defs != [] {
      var head := if defs[0].OperationDef? then OperationVariableErrors(schema, defs[0].op) else [];
      CountKindAppend(head, DocumentVariableErrors(schema, defs[1..]), VariableNotInputType);
      DocumentNotInputIff(schema, defs[1..]);
      if defs[0].OperationDef? { OperationNotInputIff(schema, defs[0].op); }
      assert forall i :: 1 <= i < |defs| ==> defs[i] == defs[1..][i - 1];
    }
  }

  /** Every error of this check is one of its two kinds, with that kind's message. */
  lemma {:induction false} DefinitionsCheckShape(schema: Schema, defs: seq<VariableDefinition>, seen: set<string>)
    ensures forall e :: e in DefinitionsCheck(schema, defs, seen) ==>
              (e.kind == VariableNameNotUnique && e.message == DuplicateVariableMessage) ||
              (e.kind == VariableNotInputType && e.message == NotInputTypeMessage)
  {
    if defs != [] {
      DefinitionsCheckShape(schema, defs[1..], seen + {defs[0].variable});
    }
  }
}
