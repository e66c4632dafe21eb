/**
 * The executable document and the schema, as far as the validation rules of
 * this model read them: a document is an ordered list of definitions, a schema
 * classifies every named type by its kind.
 */
module Language {
  import opened Wrappers

  /** The six kinds a named type of a GraphQL schema can have. */
  datatype TypeKind = Scalar | Enum | InputObject | Object | Interface | Union

  /** The schema, read-only during validation: the named types and their kinds. */
  datatype Schema = Schema(types: map<string, TypeKind>)

  /** A type reference as written in a variable definition: a named type, possibly wrapped. */
  datatype TypeRef = NamedType(name: string) | ListType(elementType: TypeRef) | NonNullType(innerType: TypeRef)

  /** The named type under all list and non-null wrappers. */
  function NamedTypeOf(t: TypeRef): string
  {
    match t
    case NamedType(n) => n
    case ListType(e) => NamedTypeOf(e)
    case NonNullType(i) => NamedTypeOf(i)
  }

  datatype Value =
    | VariableValue(variable: string)
    | BooleanValue(b: bool)
    | IntValue(i: int)
    | StringValue(s: string)
    | NullValue

  datatype Argument = Argument(name: string, value: Value)

  datatype Directive = Directive(name: string, arguments: seq<Argument>)

  datatype Selection =
    | Field(alias: Option<string>, name: string, arguments: seq<Argument>,
            directives: seq<Directive>, selections: seq<Selection>)
    | FragmentSpread(fragmentName: string, directives: seq<Directive>)
    | InlineFragment(typeCondition: Option<string>, directives: seq<Directive>,
                     selections: seq<Selection>)

  datatype VariableDefinition =
    VariableDefinition(variable: string, declaredType: TypeRef, defaultValue: Option<Value>)

  datatype OperationType = Query | Mutation | Subscription

  datatype OperationDefinition =
    OperationDefinition(name: Option<string>, operation: OperationType,
                        variables: seq<VariableDefinition>, directives: seq<Directive>,
                        selections: seq<Selection>)

  datatype FragmentDefinition =
    FragmentDefinition(name: string, typeCondition: string, directives: seq<Directive>,
                       selections: seq<Selection>)

  /** Only operations and fragments are executable; type-system definitions are kept by name. */
  datatype Definition =
    | OperationDef(op: OperationDefinition)
    | FragmentDef(fragment: FragmentDefinition)
    | TypeSystemDef(typeName: string)

  datatype Document = Document(definitions: seq<Definition>)

  /** The classification tag of an error: which requirement it reports. */
  datatype ErrorKind =
    | FragmentNotOnCompositeType
    | VariableNameNotUnique
    | VariableNotInputType

  /**
   * A validation error: its message, its classification and the name of the
   * node it implicates (a type condition or a variable name).
   */
  datatype Error = Error(message: string, kind: ErrorKind, subject: string)
}
