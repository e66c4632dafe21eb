/**
 * The document validator: it takes a context from a pool, binds the schema,
 * indexes the document's fragments by name, runs every registered rule once
 * in registration order, and answers OK exactly when no rule reported an
 * error. The context goes back to the pool afterwards.
 */
module Validation {
  import opened Wrappers
  import opened Language
  import CompositeTypes
  import VariableRules

  type FragmentMap = map<string, FragmentDefinition>

  /**
   * A rule, as the validator sees it: the errors it appends to the context,
   * as a function of what the context holds when rules run (the bound schema
   * and the fragment index) and of the document.
   */
  datatype Rule = Rule(name: string, check: (Schema, FragmentMap, Document) -> seq<Error>)

  /** The composite-type part of the fragments rule. */
  const FragmentsOnCompositeTypesRule: Rule :=
    Rule("FragmentsAreValid", (s: Schema, f: FragmentMap, d: Document) => CompositeTypes.CompositeTypeErrors(s, d))

  /** The variable uniqueness and input-type rule. */
  const VariableUniqueAndInputTypeRule: Rule :=
    Rule("VariableUniqueAndInputType", (s: Schema, f: FragmentMap, d: Document) => VariableRules.VariableErrors(s, d))

  /**
   * The registration order of the seven rules; the five whose algorithms are
   * not part of this model are supplied by the caller.
   */
  function RegisteredRules(directivesAreValid: Rule, executableDefinitions: Rule, fieldMustBeDefined: Rule,
                           allVariablesUsed: Rule, allVariableUsagesAreAllowed: Rule): seq<Rule>
  {
    [directivesAreValid, executableDefinitions, fieldMustBeDefined, FragmentsOnCompositeTypesRule,
     allVariablesUsed, allVariableUsagesAreAllowed, VariableUniqueAndInputTypeRule]
  }

  datatype ValidationResult = OK | Invalid(errors: seq<Error>)

  // ---------------------------------------------------------------------
  // The fragment index
  // ---------------------------------------------------------------------

  /**
   * The map after assigning, in document order, every fragment definition of
   * `defs` under its name; a later definition overwrites an earlier one.
   */
  function FragmentIndex(m: FragmentMap, defs: seq<Definition>): (index: FragmentMap)
    ensures m.Keys <= index.Keys
    ensures forall k :: k in index ==> (k in m && index[k] == m[k]) || index[k].name == k
    decreases |defs|
  {
    if defs == [] then m
    else
      var prev := FragmentIndex(m, defs[..|defs| - 1]);
      match defs[|defs| - 1]
      case FragmentDef(f) => prev[f.name := f]
      case _ => prev
  }

  /** The names of the fragment definitions among `defs`. */
  function FragmentNames(defs: seq<Definition>): set<string>
  {
    set i | 0 <= i < |defs| && defs[i].FragmentDef? :: defs[i].fragment.name
  }

  lemma {:induction false} FragmentIndexAppend(m: FragmentMap, a: seq<Definition>, b: seq<Definition>)
    ensures FragmentIndex(m, a + b) == FragmentIndex(FragmentIndex(m, a), b)
    decreases |b|
  {
    if b == [] {
      assert a + b == a;
    } else {
      assert (a + b)[..|a + b| - 1] == a + b[..|b| - 1];
      FragmentIndexAppend(m, a, b[..|b| - 1]);
    }
  }

  /** The index's keys are the keys it started with plus exactly the fragment names of the document. */
  lemma {:induction false} FragmentIndexKeys(m: FragmentMap, defs: seq<Definition>)
    ensures FragmentIndex(m, defs).Keys == m.Keys + FragmentNames(defs)
    decreases |defs|
  {
    if defs == [] {
      assert FragmentNames(defs) == {};
    } else {
      var init := defs[..|defs| - 1];
      FragmentIndexKeys(m, init);
      var last := defs[|defs| - 1];
      assert forall i :: 0 <= i < |init| ==> init[i] == defs[i];
      if last.FragmentDef? {
        assert FragmentNames(defs) == FragmentNames(init) + {last.fragment.name};
      } else {
        assert FragmentNames(defs) == FragmentNames(init);
      }
    }
  }

  /** Built from an empty map, the index's keys are exactly the document's fragment names. */
  lemma FragmentIndexKeysFromEmpty(defs: seq<Definition>)
    ensures FragmentIndex(map[], defs).Keys == FragmentNames(defs)
  {
    FragmentIndexKeys(map[], defs);
  }

  /**
   * Last write wins: the index maps a name to the last fragment definition
   * of that name in document order.
   */
  lemma {:induction false} FragmentIndexLastWins(m: FragmentMap, defs: seq<Definition>, j: nat)
    requires j < |defs| && defs[j].FragmentDef?
    requires forall l :: j < l < |defs| && defs[l].FragmentDef? ==> defs[l].fragment.name != defs[j].fragment.name
    ensures defs[j].fragment.name in FragmentIndex(m, defs)
    ensures FragmentIndex(m, defs)[defs[j].fragment.name] == defs[j].fragment
    decreases |defs|
  {
    if j < |defs| - 1 {
      var init := defs[..|defs| - 1];
      assert init[j] == defs[j];
      FragmentIndexLastWins(m, init, j);
    }
  }

  /** A name no fragment definition of the document carries keeps its entry (or its absence). */
  lemma {:induction false} FragmentIndexKeepsOthers(m: FragmentMap, defs: seq<Definition>, k: string)
    requires k !in FragmentNames(defs)
    ensures (k in FragmentIndex(m, defs)) == (k in m)
    ensures k in m ==> FragmentIndex(m, defs)[k] == m[k]
    decreases |defs|
  {
    if defs != [] {
      var init := defs[..|defs| - 1];
      assert forall i :: 0 <= i < |init| ==> init[i] == defs[i];
      assert k !in FragmentNames(init);
      FragmentIndexKeepsOthers(m, init, k);
      if defs[|defs| - 1].FragmentDef? {
        assert defs[|defs| - 1].fragment.name in FragmentNames(defs);
      }
    }
  }

  /** Operations and type-system definitions never touch the index, wherever they stand. */
  lemma NonFragmentLeavesIndex(m: FragmentMap, a: seq<Definition>, d: Definition, b: seq<Definition>)
    requires !d.FragmentDef?
    ensures FragmentIndex(m, a + [d] + b) == FragmentIndex(m, a + b)
  {
    FragmentIndexAppend(m, a + [d], b);
    FragmentIndexAppend(m, a, [d]);
    FragmentIndexAppend(m, a, b);
    assert FragmentIndex(m, a + [d]) == FragmentIndex(FragmentIndex(m, a), [d]);
    assert [d][..0] == [];
  }

  // ---------------------------------------------------------------------
  // The errors of a rule sequence
  // ---------------------------------------------------------------------

  /** The errors the rules append, run one after the other in sequence order. */
  function RulesErrors(rules: seq<Rule>, schema: Schema, fragments: FragmentMap, doc: Document): seq<Error>
    decreases |rules|
  {
    if rules == [] then []
    else RulesErrors(rules[..|rules| - 1], schema, fragments, doc) + rules[|rules| - 1].check(schema, fragments, doc)
  }

  /**
   * What the registered rules report together: the errors of each rule in
   * registration order, with the composite-type check fourth and the
   * variable check last.
   */
  lemma RegisteredRulesErrors(directivesAreValid: Rule, executableDefinitions: Rule, fieldMustBeDefined: Rule,
                              allVariablesUsed: Rule, allVariableUsagesAreAllowed: Rule,
                              s: Schema, m: FragmentMap, doc: Document)
    ensures RulesErrors(RegisteredRules(directivesAreValid, executableDefinitions, fieldMustBeDefined,
                                        allVariablesUsed, allVariableUsagesAreAllowed), s, m, doc)
            == directivesAreValid.check(s, m, doc) + executableDefinitions.check(s, m, doc)
               + fieldMustBeDefined.check(s, m, doc) + CompositeTypes.CompositeTypeErrors(s, doc)
               + allVariablesUsed.check(s, m, doc) + allVariableUsagesAreAllowed.check(s, m, doc)
               + VariableRules.VariableErrors(s, doc)
  {
    var r := RegisteredRules(directivesAreValid, executableDefinitions, fieldMustBeDefined,
                             allVariablesUsed, allVariableUsagesAreAllowed);
    assert r[..1][..0] == [];
    assert RulesErrors(r[..1], s, m, doc) == directivesAreValid.check(s, m, doc);
    assert r[..2][..1] == r[..1];
    assert RulesErrors(r[..2], s, m, doc) == RulesErrors(r[..1], s, m, doc) + executableDefinitions.check(s, m, doc);
    assert r[..3][..2] == r[..2];
    assert RulesErrors(r[..3], s, m, doc) == RulesErrors(r[..2], s, m, doc) + fieldMustBeDefined.check(s, m, doc);
    assert r[..4][..3] == r[..3];
    assert RulesErrors(r[..4], s, m, doc) == RulesErrors(r[..3], s, m, doc) + CompositeTypes.CompositeTypeErrors(s, doc);
    assert r[..5][..4] == r[..4];
    assert RulesErrors(r[..5], s, m, doc) == RulesErrors(r[..4], s, m, doc) + allVariablesUsed.check(s, m, doc);
    assert r[..6][..5] == r[..5];
    assert RulesErrors(r[..6], s, m, doc) == RulesErrors(r[..5], s, m, doc) + allVariableUsagesAreAllowed.check(s, m, doc);
    assert r[..6] == r[..|r| - 1];
  }

  lemma {:induction false} RulesErrorsAppend(a: seq<Rule>, b: seq<Rule>, schema: Schema, fragments: FragmentMap, doc: Document)
    ensures RulesErrors(a + b, schema, fragments, doc) == RulesErrors(a, schema, fragments, doc) + RulesErrors(b, schema, fragments, doc)
    decreases |b|
  {
    if b == [] {
      assert a + b == a;
    } else {
      assert (a + b)[..|a + b| - 1] == a + b[..|b| - 1];
      RulesErrorsAppend(a, b[..|b| - 1], schema, fragments, doc);
    }
  }

  /**
   * Rule i's errors stand, unchanged and in one piece, right after the errors
   * of the rules before it and before those of the rules after it.
   */
  lemma RuleContribution(rules: seq<Rule>, i: nat, schema: Schema, fragments: FragmentMap, doc: Document)
    requires i < |rules|
    ensures RulesErrors(rules, schema, fragments, doc) ==
            RulesErrors(rules[..i], schema, fragments, doc) + rules[i].check(schema, fragments, doc)
            + RulesErrors(rules[i + 1..], schema, fragments, doc)
  {
    assert rules == rules[..i] + [rules[i]] + rules[i + 1..];
    RulesErrorsAppend(rules[..i] + [rules[i]], rules[i + 1..], schema, fragments, doc);
    RulesErrorsAppend(rules[..i], [rules[i]], schema, fragments, doc);
    assert [rules[i]][..0] == [];
  }

  /** The rules together report nothing iff every single rule reports nothing. */
  lemma {:induction false} RulesErrorsEmptyIff(rules: seq<Rule>, schema: Schema, fragments: FragmentMap, doc: Document)
    ensures RulesErrors(rules, schema, fragments, doc) == [] <==>
            forall i :: 0 <= i < |rules| ==> rules[i].check(schema, fragments, doc) == []
    decreases |rules|
  {
    if rules != [] {
      var init := rules[..|rules| - 1];
      RulesErrorsEmptyIff(init, schema, fragments, doc);
      assert forall i :: 0 <= i < |init| ==> init[i] == rules[i];
    }
  }

  // ---------------------------------------------------------------------
  // The context and its pool
  // ---------------------------------------------------------------------

  /** The mutable per-run state: the bound schema, the fragment index and the error log. */
  class ValidatorContext {
    var schema: Option<Schema>
    var fragments: FragmentMap
    var errors: seq<Error>

    predicate IsReset()
      reads this
    {
      schema.None? && fragments == map[] && errors == []
    }

    constructor ()
      ensures IsReset()
    {
      schema := None;
      fragments := map[];
      errors := [];
    }

    method Clear()
      modifies this
      ensures IsReset()
    {
      schema := None;
      fragments := map[];
      errors := [];
    }
  }

  /**
   * The context pool: idle contexts are reset and distinct; Get hands out an
   * idle one or a new one, Return resets a context and makes it idle again.
   */
  class ContextPool {
    var idle: seq<ValidatorContext>
    ghost var rented: set<ValidatorContext>

    ghost predicate Valid()
      reads this, idle
    {
      && (forall i, j :: 0 <= i < j < |idle| ==> idle[i] != idle[j])
      && (forall i :: 0 <= i < |idle| ==> idle[i].IsReset() && idle[i] !in rented)
    }

    constructor ()
      ensures Valid() && idle == [] && rented == {}
    {
      idle := [];
      rented := {};
    }

    method Get() returns (c: ValidatorContext)
      requires Valid()
      modifies this
      ensures Valid()
      ensures c.IsReset() && c !in idle && c !in old(rented)
      ensures rented == old(rented) + {c}
      ensures old(idle) == [] ==> fresh(c) && idle == []
      ensures old(idle) != [] ==> c == old(idle)[|old(idle)| - 1] && idle == old(idle)[..|old(idle)| - 1]
    {
      if idle == [] {
        c := new ValidatorContext();
      } else {
        c := idle[|idle| - 1];
        idle := idle[..|idle| - 1];
      }
      rented := rented + {c};
    }

    method Return(c: ValidatorContext)
      requires Valid() && c in rented && c !in idle
      modifies this, c
      ensures Valid() && c.IsReset()
      ensures idle == old(idle) + [c] && rented == old(rented) - {c}
    {
      c.Clear();
      idle := idle + [c];
      rented := rented - {c};
    }
  }

  /** A rule run against the context: it appends its errors and changes nothing else. */
  method ApplyRule(rule: Rule, context: ValidatorContext, document: Document)
    requires context.schema.Some?
    modifies context
    ensures context.schema == old(context.schema) && context.fragments == old(context.fragments)
    ensures context.errors == old(context.errors) + rule.check(context.schema.value, context.fragments, document)
  {
    context.errors := context.errors + rule.check(context.schema.value, context.fragments, document);
  }

  class DocumentValidator {
    const pool: ContextPool
    /** The rules, snapshot at construction. */
    const rules: seq<Rule>

    constructor (contextPool: ContextPool?, rules: Option<seq<Rule>>)
      requires contextPool != null && rules.Some?
      ensures pool == contextPool && this.rules == rules.value
    {
      pool := contextPool;
      this.rules := rules.value;
    }

    method PrepareContext(schema: Schema, document: Document, context: ValidatorContext)
      modifies context
      ensures context.schema == Some(schema)
      ensures context.fragments == FragmentIndex(old(context.fragments), document.definitions)
      ensures context.errors == old(context.errors)
    {
      context.schema := Some(schema);
      var defs := document.definitions;
      for i := 0 to |defs|
        invariant context.schema == Some(schema) && context.errors == old(context.errors)
        invariant context.fragments == FragmentIndex(old(context.fragments), defs[..i])
      {
        assert defs[..i + 1][..i] == defs[..i];
        if defs[i].FragmentDef? {
          var f := defs[i].fragment;
          context.fragments := context.fragments[f.name := f];
        }
      }
      assert defs[..|defs|] == defs;
    }

    method Validate(schema: Option<Schema>, document: Option<Document>) returns (result: ValidationResult)
      requires schema.Some? && document.Some?
      requires pool.Valid()
      modifies pool, pool.idle
      ensures pool.Valid() && pool.rented == old(pool.rented)
      ensures pool.idle == old(pool.idle) ||
              (old(pool.idle) == [] && |pool.idle| == 1 && fresh(pool.idle[0]))
      ensures var errs := RulesErrors(rules, schema.value,
                                      FragmentIndex(map[], document.value.definitions), document.value);
              (result.OK? <==> errs == []) && (result.Invalid? ==> result.errors == errs)
    {
      var context := pool.Get();
      PrepareContext(schema.value, document.value, context);
      ghost var frags := context.fragments;
      for i := 0 to |rules|
        modifies context
        invariant context.schema == Some(schema.value) && context.fragments == frags
        invariant context.errors == RulesErrors(rules[..i], schema.value, frags, document.value)
      {
        assert rules[..i + 1][..i] == rules[..i];
        ApplyRule(rules[i], context, document.value);
      }
      assert rules[..|rules|] == rules;
      if |context.errors| > 0 {
        result := Invalid(context.errors);
      } else {
        result := OK;
      }
      pool.Return(context);
    }
  }
}
