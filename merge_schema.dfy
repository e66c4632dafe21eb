/**
 * The enum step of schema merging: a chain-of-responsibility merger that
 * handles a list of type definitions when all of them are enums and hands
 * the list to the next merger otherwise.
 */
module Stitching {
  import opened Wrappers

  datatype EnumValueDefinition = EnumValueDefinition(name: string)

  datatype EnumTypeDefinition =
    EnumTypeDefinition(name: string, description: Option<string>, values: seq<EnumValueDefinition>)

  /** A type definition of one of the merged schemas: an enum, or a definition of another kind. */
  datatype TypeDefinition = EnumTypeDef(enumType: EnumTypeDefinition) | OtherTypeDef(name: string)

  /** What the merger reads of a type of one of the merged schemas: its definition. */
  datatype TypeInfo = TypeInfo(definition: TypeDefinition)

  /** The merge context: the type definitions added to the merged schema so far. */
  class MergeSchemaContext {
    var added: seq<TypeDefinition>

    constructor ()
      ensures added == []
    {
      added := [];
    }

    method AddType(t: TypeDefinition)
      modifies this
      ensures added == old(added) + [t]
    {
      added := added + [t];
    }
  }

  /**
   * The next merger of the chain, observed through the calls it receives.
   * A call may change the context in any way; nothing is promised about it.
   */
  class MergeTypeDelegate {
    var invocations: seq<(MergeSchemaContext, seq<TypeInfo>)>

    constructor ()
      ensures invocations == []
    {
      invocations := [];
    }

    method Invoke(context: MergeSchemaContext, types: seq<TypeInfo>)
      modifies this, context
      ensures invocations == old(invocations) + [(context, types)]
    {
      invocations := invocations + [(context, types)];
    }
  }

  predicate AllEnums(types: seq<TypeInfo>)
  {
    forall i :: 0 <= i < |types| ==> types[i].definition.EnumTypeDef?
  }

  /** The names of an enum's values, as a set. */
  function ValueNames(e: EnumTypeDefinition): set<string>
  {
    set i | 0 <= i < |e.values| :: e.values[i].name
  }

  predicate DistinctValueNames(e: EnumTypeDefinition)
  {
    forall i, j :: 0 <= i < j < |e.values| ==> e.values[i].name != e.values[j].name
  }

  /** The comparison AreEqual makes: equal counts, and every value name of `right` is in `left`. */
  predicate CountAndContain(left: set<string>, right: EnumTypeDefinition)
  {
    |left| == |right.values| && forall i :: 0 <= i < |right.values| ==> right.values[i].name in left
  }

  /** The last description that is present among the definitions, if any. */
  function LastDescription(types: seq<TypeInfo>): Option<string>
    requires AllEnums(types)
    decreases |types|
  {
    if types == [] then None
    else
      var d := types[|types| - 1].definition.enumType.description;
      if d.Some? then d else LastDescription(types[..|types| - 1])
  }

  // ---------------------------------------------------------------------
  // Set sizes of value names
  // ---------------------------------------------------------------------

  lemma ValueNamesTail(e: EnumTypeDefinition)
    requires e.values != []
    ensures ValueNames(e) == {e.values[0].name} + ValueNames(e.(values := e.values[1..]))
  {
    var t := e.(values := e.values[1..]);
    forall n | n in ValueNames(e) ensures n in {e.values[0].name} + ValueNames(t) {
      var i :| 0 <= i < |e.values| && e.values[i].name == n;
      if i > 0 { assert t.values[i - 1].name == n; }
    }
    forall n | n in ValueNames(t) ensures n in ValueNames(e) {
      var i :| 0 <= i < |t.values| && t.values[i].name == n;
      assert e.values[i + 1].name == n;
    }
  }

  /** A repeated head name breaks distinctness. */
  lemma RepeatedHeadNotDistinct(e: EnumTypeDefinition)
    requires e.values != [] && e.values[0].name in ValueNames(e.(values := e.values[1..]))
    ensures !DistinctValueNames(e)
  {
    var t := e.(values := e.values[1..]);
    var k :| 0 <= k < |t.values| && t.values[k].name == e.values[0].name;
    assert e.values[0].name == e.values[k + 1].name;
  }

  /** Distinctness of a list passes to its tail. */
  lemma DistinctTail(e: EnumTypeDefinition)
    requires e.values != [] && DistinctValueNames(e)
    ensures DistinctValueNames(e.(values := e.values[1..]))
  {
    var t := e.(values := e.values[1..]);
    forall i, j | 0 <= i < j < |t.values| ensures t.values[i].name != t.values[j].name {
      assert t.values[i] == e.values[i + 1] && t.values[j] == e.values[j + 1];
    }
  }

  /** A fresh head name on a distinct tail keeps the list distinct. */
  lemma FreshHeadDistinct(e: EnumTypeDefinition)
    requires e.values != [] && e.values[0].name !in ValueNames(e.(values := e.values[1..]))
    requires DistinctValueNames(e.(values := e.values[1..]))
    ensures DistinctValueNames(e)
  {
    var t := e.(values := e.values[1..]);
    forall i, j | 0 <= i < j < |e.values| ensures e.values[i].name != e.values[j].name {
      assert e.values[j] == t.values[j - 1];
      if 0 < i { assert e.values[i] == t.values[i - 1]; }
    }
  }

  /** The set of value names is as large as the value list exactly when the names are pairwise distinct. */
  lemma {:induction false} ValueNamesSize(e: EnumTypeDefinition)
    ensures |ValueNames(e)| <= |e.values|
    ensures |ValueNames(e)| == |e.values| <==> DistinctValueNames(e)
    decreases |e.values|
  {
    if e.values == [] {
      assert ValueNames(e) == {};
    } else {
      var t := e.(values := e.values[1..]);
      ValueNamesTail(e);
      ValueNamesSize(t);
      if e.values[0].name in ValueNames(t) {
        RepeatedHeadNotDistinct(e);
      } else {
        if DistinctValueNames(e) { DistinctTail(e); }
        if DistinctValueNames(t) { FreshHeadDistinct(e); }
      }
    }
  }

  // ---------------------------------------------------------------------
  // What the comparison means
  // ---------------------------------------------------------------------

  /** When the value names of `right` are pairwise distinct, the comparison is set equality. */
  lemma CountAndContainIsSetEquality(left: set<string>, right: EnumTypeDefinition)
    requires DistinctValueNames(right)
    ensures CountAndContain(left, right) <==> left == ValueNames(right)
  {
    ValueNamesSize(right);
    if CountAndContain(left, right) {
      assert ValueNames(right) <= left;
      SubsetOfSameSize(ValueNames(right), left);
    }
  }

  lemma SubsetOfSameSize(a: set<string>, b: set<string>)
    requires a <= b && |a| == |b|
    ensures a == b
  {
    assert b == a + (b - a) && a * (b - a) == {};
    assert |b - a| == 0;
  }

  /**
   * The comparison is not set equality: with a repeated value name in
   * `right`, it accepts a set that differs from `right`'s names.
   */
  lemma CountAndContainIsNotSetEquality()
    ensures var right := EnumTypeDefinition("E", None, [EnumValueDefinition("A"), EnumValueDefinition("A")]);
            CountAndContain({"A", "B"}, right) && {"A", "B"} != ValueNames(right)
  {
    var right := EnumTypeDefinition("E", None, [EnumValueDefinition("A"), EnumValueDefinition("A")]);
    assert "A" != "B" by { assert "A"[0] != "B"[0]; }
    assert right.values[0].name == "A";
    assert ValueNames(right) == {"A"};
    assert |{"A", "B"}| == 2;
  }

  /**
   * Compared with its own value names, an enum passes exactly when those
   * names are pairwise distinct.
   */
  lemma OwnNamesPassIff(first: EnumTypeDefinition)
    ensures CountAndContain(ValueNames(first), first) <==> DistinctValueNames(first)
  {
    ValueNamesSize(first);
  }

  // ---------------------------------------------------------------------
  // The merger
  // ---------------------------------------------------------------------

  class MergeEnumType {
    const next: MergeTypeDelegate

    constructor (next: MergeTypeDelegate?)
      requires next != null
      ensures this.next == next
    {
      this.next := next;
    }

    /** Count-plus-containment comparison of a name set with an enum's value list. */
    method AreEqual(left: set<string>, right: EnumTypeDefinition) returns (r: bool)
      ensures |left| != |right.values| ==> !r
      ensures r <==> |left| == |right.values| &&
                     forall i :: 0 <= i < |right.values| ==> right.values[i].name in left
    {
      if |left| == |right.values| {
        for i := 0 to |right.values|
          invariant forall k :: 0 <= k < i ==> right.values[k].name in left
        {
          if right.values[i].name !in left {
            return false;
          }
        }
        return true;
      }
      return false;
    }

    /**
     * The local values of the all-enum branch: the value-name set of the
     * first enum, and the description the loop settles on. The comparison in
     * the loop is of `values` with the first enum on every pass, so either
     * every pass may take a description or none does.
     */
    method MergeEnumValues(types: seq<TypeInfo>) returns (description: Option<string>, values: set<string>)
      requires |types| > 0 && AllEnums(types)
      ensures values == ValueNames(types[0].definition.enumType)
      ensures var first := types[0].definition.enumType;
              description == if CountAndContain(values, first) && first.description.Some?
                             then LastDescription(types) else first.description
    {
      var first := types[0].definition.enumType;
      description := first.description;
      values := {};
      for k := 0 to |first.values|
        invariant values == set j | 0 <= j < k :: first.values[j].name
      {
        values := values + {first.values[k].name};
      }
      ghost var same := CountAndContain(values, first);
      for i := 0 to |types|
        invariant i == 0 ==> description == first.description
        invariant first.description.Some? ==> description.Some?
        invariant i > 0 ==> description == if same && first.description.Some?
                                          then LastDescription(types[..i]) else first.description
      {
        assert types[..i + 1][..i] == types[..i];
        var other := types[i].definition.enumType;
        var equal := AreEqual(values, first);
        if equal {
          if description.Some? && other.description.Some? {
            description := other.description;
          }
        }
      }
      assert types[..|types|] == types;
    }

    /**
     * All enums: only local values are computed; neither the next merger nor
     * the context is touched. Otherwise the next merger is called once with
     * the same context and types. An empty list counts as all enums and its
     * first element is read, so it needs at least one definition.
     */
    method Merge(context: MergeSchemaContext, types: seq<TypeInfo>)
      requires AllEnums(types) ==> |types| > 0
      modifies next, context
      ensures AllEnums(types) ==> next.invocations == old(next.invocations) && context.added == old(context.added)
      ensures !AllEnums(types) ==> next.invocations == old(next.invocations) + [(context, types)]
    {
      if forall i :: 0 <= i < |types| ==> types[i].definition.EnumTypeDef? {
        var description, values := MergeEnumValues(types);
      } else {
        next.Invoke(context, types);
      }
    }
  }
}
