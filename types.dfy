/**
 * Resolution of a GraphQL type reference to a Julia type expression
 * (src/types.ts): nullable positions become `Union{Nothing,T}`, lists
 * become `Vector{T}`, scalars go through a fixed table, and every other
 * named type keeps its schema name unless the caller supplies a bare name.
 */
module Types {
  import opened GraphQL

  /** The built-in scalar table; `ID` is deliberately not in it. */
  const BuiltInScalarMap: map<string, string> :=
    map["String" := "AbstractString", "Int" := "Int64", "Float" := "Float", "Boolean" := "Boolean"]

  /** JavaScript truthiness of an optional string: present and non-empty. */
  predicate Truthy(s: Option<string>) {
    s.Some? && s.value != ""
  }

  /**
   * The Julia name of a scalar: the table entry of a built-in scalar;
   * otherwise the prefixed schema name when custom scalars are passed
   * through, and the literal "String" when they are not.
   */
  function TypeNameForScalarType(options: Options, name: string): (r: string)
    ensures name in BuiltInScalarMap ==> r == BuiltInScalarMap[name]
    ensures name !in BuiltInScalarMap && options.passthroughCustomScalars ==>
              r == options.customScalarsPrefix + name
    ensures name !in BuiltInScalarMap && !options.passthroughCustomScalars ==> r == "String"
  {
    if name in BuiltInScalarMap then BuiltInScalarMap[name]
    else if options.passthroughCustomScalars then options.customScalarsPrefix + name
    else "String"
  }

  /**
   * `typeNameFromGraphQLType(context, type, bareTypeName, isOptional,
   * isInputObject)`. The optional arguments are `Option`s: `None` is
   * JavaScript's `undefined`. A non-null wrapper passes `isOptional || false`
   * inward; any other level with `isOptional` undefined is optional; a
   * list resolves its element with `isOptional` undefined again.
   *
   * The tri-state flag computes GraphQL's nullability: undefined, the result
   * is the reference reading; forced to false, the non-null reading; forced
   * to true, the non-null reading wrapped once in `Union{Nothing,…}`,
   * wherever the non-null wrappers are. Every list element is read afresh.
   */
  function TypeName(
    options: Options,
    t: GqlType,
    bareTypeName: Option<string>,
    isOptional: Option<bool>,
    isInputObject: Option<bool>
  ): (r: string)
    ensures isOptional.None? ==> r == Nullable(options, t, bareTypeName)
    ensures isOptional == Some(false) ==> r == NonNullable(options, t, bareTypeName)
    ensures isOptional == Some(true) ==> r == "Union{Nothing," + NonNullable(options, t, bareTypeName) + "}"
  {
    if t.NonNull? then
      TypeName(options, t.ofType, bareTypeName, Some(isOptional == Some(true)), isInputObject)
    else
      var optional := isOptional.None? || isOptional.value;
      var typeName :=
        if t.List? then "Vector{" + TypeName(options, t.ofType, bareTypeName, None, isInputObject) + "}"
        else if t.kind.Scalar? then TypeNameForScalarType(options, t.name)
        else if Truthy(bareTypeName) then bareTypeName.value
        else t.name;
      if optional then "Union{Nothing," + typeName + "}" else typeName
  }

  /** The base name a named type renders as, before any wrapping. */
  function BaseName(options: Options, kind: NamedKind, name: string, bareTypeName: Option<string>): string {
    if kind.Scalar? then TypeNameForScalarType(options, name)
    else if Truthy(bareTypeName) then bareTypeName.value
    else name
  }

  /**
   * Reference reading of GraphQL nullability: a type in a position of its
   * own is nullable unless it is wrapped in non-null.
   */
  function Nullable(options: Options, t: GqlType, bareTypeName: Option<string>): string
    decreases t, 1
  {
    match t
    case NonNull(inner) => NonNullable(options, inner, bareTypeName)
    case _ => "Union{Nothing," + NonNullable(options, t, bareTypeName) + "}"
  }

  /** Reference reading of a type whose nullability has been settled as "not null". */
  function NonNullable(options: Options, t: GqlType, bareTypeName: Option<string>): string
    decreases t, 0
  {
    match t
    case NonNull(inner) => NonNullable(options, inner, bareTypeName)
    case List(element) => "Vector{" + Nullable(options, element, bareTypeName) + "}"
    case Named(kind, name) => BaseName(options, kind, name, bareTypeName)
  }

  /** The `isInputObject` flag is threaded through but never changes the result. */
  lemma {:induction false} InputObjectFlagIgnored(
    options: Options, t: GqlType, bareTypeName: Option<string>, isOptional: Option<bool>,
    flag1: Option<bool>, flag2: Option<bool>)
    ensures TypeName(options, t, bareTypeName, isOptional, flag1)
         == TypeName(options, t, bareTypeName, isOptional, flag2)
  {
    match t
    case NonNull(inner) =>
      InputObjectFlagIgnored(options, inner, bareTypeName, Some(isOptional == Some(true)), flag1, flag2);
    case List(element) =>
      InputObjectFlagIgnored(options, element, bareTypeName, None, flag1, flag2);
    case Named(_, _) =>
  }

  /** `t` with the name of its innermost named type replaced by `name`. */
  function Rename(t: GqlType, name: string): (r: GqlType)
    ensures NamedTypeOf(r) == Named(NamedTypeOf(t).kind, name)
  {
    match t
    case Named(kind, _) => Named(kind, name)
    case List(inner) => List(Rename(inner, name))
    case NonNull(inner) => NonNull(Rename(inner, name))
  }

  /**
   * A non-empty bare type name stands in for the schema name of a
   * non-scalar named type at the bottom of every list and non-null level;
   * a scalar ignores it.
   */
  lemma {:induction false} BareTypeNameReplacesSchemaName(
    options: Options, t: GqlType, bare: string, isOptional: Option<bool>, isInputObject: Option<bool>)
    requires bare != ""
    ensures !NamedTypeOf(t).kind.Scalar? ==>
              (TypeName(options, t, Some(bare), isOptional, isInputObject)
               == TypeName(options, Rename(t, bare), None, isOptional, isInputObject))
    ensures NamedTypeOf(t).kind.Scalar? ==>
              (TypeName(options, t, Some(bare), isOptional, isInputObject)
               == TypeName(options, t, None, isOptional, isInputObject))
  {
    match t
    case NonNull(inner) =>
      BareTypeNameReplacesSchemaName(options, inner, bare, Some(isOptional == Some(true)), isInputObject);
    case List(element) =>
      BareTypeNameReplacesSchemaName(options, element, bare, None, isInputObject);
    case Named(_, _) =>
  }

  /** The four built-in scalars map to fixed Julia names whatever the options say. */
  lemma BuiltInScalars(options: Options)
    ensures TypeNameForScalarType(options, "String") == "AbstractString"
    ensures TypeNameForScalarType(options, "Int") == "Int64"
    ensures TypeNameForScalarType(options, "Float") == "Float"
    ensures TypeNameForScalarType(options, "Boolean") == "Boolean"
    ensures TypeNameForScalarType(options, "ID")
         == if options.passthroughCustomScalars then options.customScalarsPrefix + "ID" else "String"
  {
  }

  /** A custom scalar `Date`: "String" without pass-through, the prefixed name with it. */
  lemma CustomScalarDate()
    ensures TypeNameForScalarType(Options(false, ""), "Date") == "String"
    ensures TypeNameForScalarType(Options(true, "App"), "Date") == "AppDate"
  {
  }

  /**
   * Nullability is settled level by level: `[[String!]]!` resolves to
   * `Vector{Union{Nothing,Vector{AbstractString}}}`.
   */
  lemma TwoLevelListNullability(options: Options)
    ensures TypeName(options, NonNull(List(List(NonNull(Named(Scalar, "String"))))), None, None, None)
         == "Vector{" + ("Union{Nothing," + ("Vector{" + "AbstractString" + "}") + "}") + "}"
  {
    var str := Named(Scalar, "String");
    assert "String" in BuiltInScalarMap;
    var plain := TypeName(options, NonNull(str), None, None, None);
    assert plain == TypeName(options, str, None, Some(false), None) == "AbstractString";
    var inner := TypeName(options, List(NonNull(str)), None, None, None);
    assert inner == "Union{Nothing," + ("Vector{" + plain + "}") + "}";
    assert TypeName(options, NonNull(List(List(NonNull(str)))), None, None, None)
        == TypeName(options, List(List(NonNull(str))), None, Some(false), None)
        == "Vector{" + inner + "}";
  }

  /** `[String]!` resolves to `Vector{Union{Nothing,AbstractString}}`. */
  lemma NonNullListOfNullable(options: Options)
    ensures TypeName(options, NonNull(List(Named(Scalar, "String"))), None, None, None)
         == "Vector{" + ("Union{Nothing," + "AbstractString" + "}") + "}"
  {
    var str := Named(Scalar, "String");
    assert "String" in BuiltInScalarMap;
    var nullable := TypeName(options, str, None, None, None);
    assert nullable == "Union{Nothing," + "AbstractString" + "}";
    assert TypeName(options, NonNull(List(str)), None, None, None)
        == TypeName(options, List(str), None, Some(false), None)
        == "Vector{" + nullable + "}";
  }

  /** `[String!]` resolves to `Union{Nothing,Vector{AbstractString}}`. */
  lemma NullableListOfNonNull(options: Options)
    ensures TypeName(options, List(NonNull(Named(Scalar, "String"))), None, None, None)
         == "Union{Nothing," + ("Vector{" + "AbstractString" + "}") + "}"
  {
    var str := Named(Scalar, "String");
    assert "String" in BuiltInScalarMap;
    var plain := TypeName(options, NonNull(str), None, None, None);
    assert plain == TypeName(options, str, None, Some(false), None) == "AbstractString";
  }

  /**
   * `possibleTypesForType`: the schema's possible object types of an
   * abstract type, and the type itself otherwise.
   */
  function PossibleTypesForType(schema: Schema, t: GqlType): (r: seq<GqlType>)
    ensures !IsAbstractType(t) ==> r == [t]
    ensures IsAbstractType(t) && t.name in schema.possibleTypes ==> r == schema.possibleTypes[t.name]
  {
    if IsAbstractType(t) then
      if t.name in schema.possibleTypes then schema.possibleTypes[t.name] else []
    else [t]
  }

  /** The schema lists only concrete object types as possible types. */
  predicate PossibleTypesAreObjects(schema: Schema) {
    forall n, x :: n in schema.possibleTypes && x in schema.possibleTypes[n] ==> x.Named? && x.kind.Object?
  }

  /**
   * Over such a schema the expansion is settled by one step: each possible
   * type it yields is concrete, so expanding it again yields just itself.
   */
  lemma PossibleTypesSettled(schema: Schema, t: GqlType)
    requires PossibleTypesAreObjects(schema)
    ensures forall x :: x in PossibleTypesForType(schema, t) ==>
              !IsAbstractType(x) && PossibleTypesForType(schema, x) == [x]
  {
  }
}
