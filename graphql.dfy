/**
 * The inputs the Julia generator receives from GraphQL's compiler: schema
 * type references, the compiled operations with their selection trees,
 * and the generation options.
 */
module GraphQL {

  datatype Option<T> = None | Some(value: T)

  datatype Result<T, E> = Ok(value: T) | Err(error: E)

  /** The outcome of a step that either completes or throws with a message. */
  datatype Outcome = Pass | Fail(error: string)

  /**
   * The kind of a named schema type. An enum carries the names of its
   * values in `getValues()` order and its description ("" when the schema
   * gives none).
   */
  datatype NamedKind =
    | Scalar
    | Object
    | Interface
    | Union
    | Enum(values: seq<string>, description: string)
    | InputObject

  /** A schema type reference with GraphQL's list and non-null wrapping. */
  datatype GqlType =
    | Named(kind: NamedKind, name: string)
    | List(ofType: GqlType)
    | NonNull(ofType: GqlType)

  predicate IsScalarType(t: GqlType) {
    t.Named? && t.kind.Scalar?
  }

  predicate IsEnumType(t: GqlType) {
    t.Named? && t.kind.Enum?
  }

  /** Interfaces and unions: the types with several possible object types. */
  predicate IsAbstractType(t: GqlType) {
    t.Named? && (t.kind.Interface? || t.kind.Union?)
  }

  /** The named type at the bottom of all list and non-null wrappers. */
  function NamedTypeOf(t: GqlType): (r: GqlType)
    ensures r.Named?
  {
    match t
    case Named(_, _) => t
    case List(inner) => NamedTypeOf(inner)
    case NonNull(inner) => NamedTypeOf(inner)
  }

  /** The schema, as far as the generator queries it: the possible object types of each abstract type. */
  datatype Schema = Schema(possibleTypes: map<string, seq<GqlType>>)

  /** Options read by the type-name resolver. */
  datatype Options = Options(passthroughCustomScalars: bool, customScalarsPrefix: string)

  /**
   * A selected field of the compiled operation. A field whose `fields`
   * is empty is a leaf; the compiler's absent child list behaves exactly
   * like an empty one and is represented by it.
   */
  datatype Field = Field(responseName: string, fieldName: string, fieldType: GqlType, fields: seq<Field>)

  datatype Variable = Variable(name: string, varType: GqlType)

  /** A compiled operation; `operationType` is "query", "mutation" or any other kind the compiler reports. */
  datatype Operation = Operation(
    operationName: string,
    operationType: string,
    variables: seq<Variable>,
    fields: seq<Field>)

  /**
   * The compiler context handed to the generator. `operationClassName`
   * stands for the naming helper that turns an operation name into a
   * class name; its definition is not part of this model.
   */
  datatype Context = Context(
    schema: Schema,
    options: Options,
    operationClassName: string -> string,
    typesUsed: seq<GqlType>,
    operations: seq<Operation>)
}
