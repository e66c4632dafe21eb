/**
 * The union type definition node of the editor-side GraphQL syntax tree: an
 * immutable node with a location, a name, an optional description, its
 * directives and its member types, copy-with-one-field-changed operations,
 * and a fixed-order enumeration of its child nodes.
 */
module SyntaxNodes {
  import opened Wrappers

  /** The span a node covers in the source, as start and end offsets; no operation here reads them. */
  datatype Location = Location(start: nat, end: nat)

  datatype NameNode = NameNode(value: string)

  datatype StringValueNode = StringValueNode(value: string, block: bool)

  datatype DirectiveNode = DirectiveNode(name: NameNode)

  datatype NamedTypeNode = NamedTypeNode(name: NameNode)

  datatype NodeKind = Name | StringValue | Directive | NamedType | UnionTypeDefinition

  /** A child node of a union type definition, tagged by the role it plays. */
  datatype SyntaxNode =
    | DescriptionChild(description: StringValueNode)
    | NameChild(name: NameNode)
    | DirectiveChild(directive: DirectiveNode)
    | TypeChild(namedType: NamedTypeNode)

  function DirectiveChildren(ds: seq<DirectiveNode>): (r: seq<SyntaxNode>)
    ensures |r| == |ds|
    ensures forall i :: 0 <= i < |ds| ==> r[i] == DirectiveChild(ds[i])
  {
    if ds == [] then [] else [DirectiveChild(ds[0])] + DirectiveChildren(ds[1..])
  }

  function TypeChildren(ts: seq<NamedTypeNode>): (r: seq<SyntaxNode>)
    ensures |r| == |ts|
    ensures forall i :: 0 <= i < |ts| ==> r[i] == TypeChild(ts[i])
  {
    if ts == [] then [] else [TypeChild(ts[0])] + TypeChildren(ts[1..])
  }

  datatype UnionTypeDefinitionNode =
    UnionTypeDefinitionNode(location: Location, name: NameNode, description: Option<StringValueNode>,
                            directives: seq<DirectiveNode>, types: seq<NamedTypeNode>)
  {
    /** The node kind never depends on the node. */
    function Kind(): (k: NodeKind)
      ensures k == UnionTypeDefinition
    {
      UnionTypeDefinition
    }

    /**
     * The children in their fixed order: the description when present, the
     * name, every directive in order, every member type in order.
     */
    function GetNodes(): (nodes: seq<SyntaxNode>)
      ensures |nodes| == (if description.Some? then 1 else 0) + 1 + |directives| + |types|
    {
      (if description.Some? then [DescriptionChild(description.value)] else [])
      + [NameChild(name)] + DirectiveChildren(directives) + TypeChildren(types)
    }

    function WithLocation(location': Location): (r: UnionTypeDefinitionNode)
      ensures r.location == location'
      ensures r.name == name && r.description == description && r.directives == directives && r.types == types
    {
      UnionTypeDefinitionNode(location', name, description, directives, types)
    }

    function WithName(name': NameNode): (r: UnionTypeDefinitionNode)
      ensures r.name == name'
      ensures r.location == location && r.description == description && r.directives == directives && r.types == types
    {
      UnionTypeDefinitionNode(location, name', description, directives, types)
    }

    function WithDescription(description': Option<StringValueNode>): (r: UnionTypeDefinitionNode)
      ensures r.description == description'
      ensures r.location == location && r.name == name && r.directives == directives && r.types == types
    {
      UnionTypeDefinitionNode(location, name, description', directives, types)
    }

    function WithDirectives(directives': seq<DirectiveNode>): (r: UnionTypeDefinitionNode)
      ensures r.directives == directives'
      ensures r.location == location && r.name == name && r.description == description && r.types == types
    {
      UnionTypeDefinitionNode(location, name, description, directives', types)
    }

    function WithTypes(types': seq<NamedTypeNode>): (r: UnionTypeDefinitionNode)
      ensures r.types == types'
      ensures r.location == location && r.name == name && r.description == description && r.directives == directives
    {
      UnionTypeDefinitionNode(location, name, description, directives, types')
    }
  }

  /**
   * The order of the children: the description when present, then the name,
   * then every directive in order, then every member type in order.
   */
  lemma GetNodesOrder(n: UnionTypeDefinitionNode)
    ensures n.description.Some? ==> n.GetNodes()[0] == DescriptionChild(n.description.value)
    ensures var d := if n.description.Some? then 1 else 0;
            && n.GetNodes()[d] == NameChild(n.name)
            && (forall i :: 0 <= i < |n.directives| ==> n.GetNodes()[d + 1 + i] == DirectiveChild(n.directives[i]))
            && (forall i :: 0 <= i < |n.types| ==>
                  n.GetNodes()[d + 1 + |n.directives| + i] == TypeChild(n.types[i]))
  {
    var prefix := if n.description.Some? then [DescriptionChild(n.description.value)] else [];
    var ds := DirectiveChildren(n.directives);
    var ts := TypeChildren(n.types);
    var d := |prefix|;
    assert n.GetNodes() == prefix + [NameChild(n.name)] + ds + ts;
    forall i | 0 <= i < |n.directives|
      ensures n.GetNodes()[d + 1 + i] == DirectiveChild(n.directives[i])
    {
      assert n.GetNodes()[d + 1 + i] == ds[i];
    }
    forall i | 0 <= i < |n.types|
      ensures n.GetNodes()[d + 1 + |n.directives| + i] == TypeChild(n.types[i])
    {
      assert n.GetNodes()[d + 1 + |n.directives| + i] == ts[i];
    }
  }

  // ---------------------------------------------------------------------
  // Rebuilding a node from its children: the inverse of GetNodes
  // ---------------------------------------------------------------------

  /** The directives at the head of `nodes`, and what follows them. */
  function LeadingDirectives(nodes: seq<SyntaxNode>): (seq<DirectiveNode>, seq<SyntaxNode>)
  {
    if nodes != [] && nodes[0].DirectiveChild? then
      var (ds, rest) := LeadingDirectives(nodes[1..]);
      ([nodes[0].directive] + ds, rest)
    else ([], nodes)
  }

  /** The member types, when every node is a member type. */
  function AllTypes(nodes: seq<SyntaxNode>): Option<seq<NamedTypeNode>>
  {
    if nodes == [] then Some([])
    else if nodes[0].TypeChild? then
      match AllTypes(nodes[1..])
      case Some(ts) => Some([nodes[0].namedType] + ts)
      case None => None
    else None
  }

  /** The node whose children, in GetNodes order, are `nodes`, if there is one. */
  function FromNodes(location: Location, nodes: seq<SyntaxNode>): Option<UnionTypeDefinitionNode>
  {
    if nodes != [] && nodes[0].DescriptionChild? then FromNameOn(location, Some(nodes[0].description), nodes[1..])
    else FromNameOn(location, None, nodes)
  }

  /** The node with the given description whose remaining children are `nodes`, if there is one. */
  function FromNameOn(location: Location, description: Option<StringValueNode>, nodes: seq<SyntaxNode>)
    : Option<UnionTypeDefinitionNode>
  {
    if nodes == [] || !nodes[0].NameChild? then None
    else
      var (ds, afterDirectives) := LeadingDirectives(nodes[1..]);
      match AllTypes(afterDirectives)
      case Some(ts) => Some(UnionTypeDefinitionNode(location, nodes[0].name, description, ds, ts))
      case None => None
  }

  lemma {:induction false} AllTypesOfTypeChildren(ts: seq<NamedTypeNode>)
    ensures AllTypes(TypeChildren(ts)) == Some(ts)
  {
    if ts != [] {
      assert TypeChildren(ts)[1..] == TypeChildren(ts[1..]);
      AllTypesOfTypeChildren(ts[1..]);
      assert [ts[0]] + ts[1..] == ts;
    }
  }

  lemma {:induction false} LeadingDirectivesOfChildren(ds: seq<DirectiveNode>, ts: seq<NamedTypeNode>)
    ensures LeadingDirectives(DirectiveChildren(ds) + TypeChildren(ts)) == (ds, TypeChildren(ts))
  {
    var nodes := DirectiveChildren(ds) + TypeChildren(ts);
    if ds == [] {
      assert nodes == TypeChildren(ts);
    } else {
      assert nodes[1..] == DirectiveChildren(ds[1..]) + TypeChildren(ts);
      LeadingDirectivesOfChildren(ds[1..], ts);
      assert [ds[0]] + ds[1..] == ds;
    }
  }

  lemma FromNameOnChildren(location: Location, description: Option<StringValueNode>, name: NameNode,
                           ds: seq<DirectiveNode>, ts: seq<NamedTypeNode>)
    ensures FromNameOn(location, description, [NameChild(name)] + DirectiveChildren(ds) + TypeChildren(ts))
            == Some(UnionTypeDefinitionNode(location, name, description, ds, ts))
  {
    var rest := DirectiveChildren(ds) + TypeChildren(ts);
    var tail := [NameChild(name)] + DirectiveChildren(ds) + TypeChildren(ts);
    assert tail == [NameChild(name)] + rest;
    assert tail[1..] == rest;
    LeadingDirectivesOfChildren(ds, ts);
    AllTypesOfTypeChildren(ts);
    assert LeadingDirectives(tail[1..]) == (ds, TypeChildren(ts));
  }

  /** The children after the description: the name, the directives, the member types. */
  function NamedPart(n: UnionTypeDefinitionNode): seq<SyntaxNode>
  {
    [NameChild(n.name)] + DirectiveChildren(n.directives) + TypeChildren(n.types)
  }

  lemma GetNodesSplit(n: UnionTypeDefinitionNode)
    ensures n.GetNodes() == (if n.description.Some? then [DescriptionChild(n.description.value)] else []) + NamedPart(n)
  {
  }

  lemma RoundTripWithDescription(n: UnionTypeDefinitionNode)
    requires n.description.Some?
    ensures FromNodes(n.location, n.GetNodes()) == Some(n)
  {
    var tail := NamedPart(n);
    FromNameOnChildren(n.location, n.description, n.name, n.directives, n.types);
    var dc := DescriptionChild(n.description.value);
    GetNodesSplit(n);
    assert ([dc] + tail)[1..] == tail;
  }

  lemma RoundTripWithoutDescription(n: UnionTypeDefinitionNode)
    requires n.description.None?
    ensures FromNodes(n.location, n.GetNodes()) == Some(n)
  {
    FromNameOnChildren(n.location, n.description, n.name, n.directives, n.types);
    GetNodesSplit(n);
    assert [] + NamedPart(n) == NamedPart(n);
  }

  /** GetNodes loses nothing but the location: the children determine the node. */
  lemma GetNodesRoundTrip(n: UnionTypeDefinitionNode)
    ensures FromNodes(n.location, n.GetNodes()) == Some(n)
  {
    if n.description.Some? {
      RoundTripWithDescription(n);
    } else {
      RoundTripWithoutDescription(n);
    }
  }

  lemma {:induction false} AllTypesYieldsChildren(nodes: seq<SyntaxNode>)
    requires AllTypes(nodes).Some?
    ensures TypeChildren(AllTypes(nodes).value) == nodes
  {
    if nodes != [] {
      AllTypesYieldsChildren(nodes[1..]);
      var ts := AllTypes(nodes[1..]).value;
      assert ([nodes[0].namedType] + ts)[1..] == ts;
      assert nodes == [nodes[0]] + nodes[1..];
    }
  }

  lemma {:induction false} LeadingDirectivesSplit(nodes: seq<SyntaxNode>)
    ensures DirectiveChildren(LeadingDirectives(nodes).0) + LeadingDirectives(nodes).1 == nodes
  {
    if nodes != [] && nodes[0].DirectiveChild? {
      LeadingDirectivesSplit(nodes[1..]);
      var ds := LeadingDirectives(nodes[1..]).0;
      assert ([nodes[0].directive] + ds)[1..] == ds;
      assert nodes == [nodes[0]] + nodes[1..];
    }
  }

  lemma FromNameOnYieldsChildren(location: Location, description: Option<StringValueNode>, nodes: seq<SyntaxNode>)
    requires FromNameOn(location, description, nodes).Some?
    ensures var n := FromNameOn(location, description, nodes).value;
            n.location == location && n.description == description && NamedPart(n) == nodes
  {
    var n := FromNameOn(location, description, nodes).value;
    var ds := LeadingDirectives(nodes[1..]).0;
    var after := LeadingDirectives(nodes[1..]).1;
    var ts := AllTypes(after).value;
    assert n == UnionTypeDefinitionNode(location, nodes[0].name, description, ds, ts);
    LeadingDirectivesSplit(nodes[1..]);
    AllTypesYieldsChildren(after);
    calc {
      NamedPart(n);
      [NameChild(nodes[0].name)] + DirectiveChildren(ds) + TypeChildren(ts);
      { assert NameChild(nodes[0].name) == nodes[0]; }
      [nodes[0]] + DirectiveChildren(ds) + after;
      { assert [nodes[0]] + DirectiveChildren(ds) + after == [nodes[0]] + (DirectiveChildren(ds) + after); }
      [nodes[0]] + nodes[1..];
      nodes;
    }
  }

  /**
   * The converse of the round trip: a node rebuilt from a child sequence has
   * the given location and enumerates exactly those children again.
   */
  lemma FromNodesYieldsChildren(location: Location, nodes: seq<SyntaxNode>)
    requires FromNodes(location, nodes).Some?
    ensures FromNodes(location, nodes).value.location == location
    ensures FromNodes(location, nodes).value.GetNodes() == nodes
  {
    var n := FromNodes(location, nodes).value;
    GetNodesSplit(n);
    if nodes != [] && nodes[0].DescriptionChild? {
      FromNameOnYieldsChildren(location, Some(nodes[0].description), nodes[1..]);
      assert nodes == [nodes[0]] + nodes[1..];
    } else {
      FromNameOnYieldsChildren(location, None, nodes);
      assert [] + nodes == nodes;
    }
  }

  // ---------------------------------------------------------------------
  // Copy-with-one-field-changed
  // ---------------------------------------------------------------------

  /** Applying the same With operation twice keeps only the last value. */
  lemma WithTwiceKeepsLast(n: UnionTypeDefinitionNode, l1: Location, l2: Location, a: NameNode, b: NameNode,
                           d1: Option<StringValueNode>, d2: Option<StringValueNode>,
                           ds1: seq<DirectiveNode>, ds2: seq<DirectiveNode>,
                           ts1: seq<NamedTypeNode>, ts2: seq<NamedTypeNode>)
    ensures n.WithLocation(l1).WithLocation(l2) == n.WithLocation(l2)
    ensures n.WithName(a).WithName(b) == n.WithName(b)
    ensures n.WithDescription(d1).WithDescription(d2) == n.WithDescription(d2)
    ensures n.WithDirectives(ds1).WithDirectives(ds2) == n.WithDirectives(ds2)
    ensures n.WithTypes(ts1).WithTypes(ts2) == n.WithTypes(ts2)
  {
  }

  /** A With operation given the node's own value returns an equal node. */
  lemma WithOwnValueIsIdentity(n: UnionTypeDefinitionNode)
    ensures n.WithLocation(n.location) == n && n.WithName(n.name) == n
    ensures n.WithDescription(n.description) == n && n.WithDirectives(n.directives) == n
    ensures n.WithTypes(n.types) == n
  {
  }

  /** The location is not a child: moving a node leaves its children as they were. */
  lemma WithLocationKeepsNodes(n: UnionTypeDefinitionNode, l: Location)
    ensures n.WithLocation(l).GetNodes() == n.GetNodes()
  {
  }
}
