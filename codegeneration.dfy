/**
 * The printing side of src/codeGeneration.ts: `printField`,
 * `resultDeclaration`, `variablesDeclaration`, the enum declarations and
 * `generateSource`, each proved to print what the functions of module
 * Selection and the functions below say.
 */
module CodeGeneration {
  import opened GraphQL
  import opened JsStrings
  import opened Types
  import opened Printer
  import opened Language
  import opened Selection

  // ---------------------------------------------------------------------
  // Operation names and the operation kinds the generator accepts.

  predicate IsSupportedOperationType(operationType: string) {
    operationType == "query" || operationType == "mutation"
  }

  function UnsupportedOperationType(operationType: string): string {
    "Unsupported operation type \"" + operationType + "\""
  }

  /**
   * `{OperationClassName}{suffix}` for a query or a mutation; any other
   * operation kind is an error naming that kind.
   */
  function ObjectName(context: Context, op: Operation, suffix: string): (r: Result<string, string>)
    ensures r.Ok? <==> IsSupportedOperationType(op.operationType)
    ensures r.Ok? ==> r.value == context.operationClassName(op.operationName) + suffix
    ensures r.Err? ==> r.error == UnsupportedOperationType(op.operationType)
  {
    if IsSupportedOperationType(op.operationType) then Ok(context.operationClassName(op.operationName) + suffix)
    else Err(UnsupportedOperationType(op.operationType))
  }

  // ---------------------------------------------------------------------
  // printField and resultDeclaration.

  /** Printing one more leaf adds its member line. */
  lemma LeafMemberLinesSnoc(options: Options, fs: seq<Field>, j: nat)
    requires j < |fs|
    ensures MemberLines(LeafMembers(options, fs[..j + 1]))
         == MemberLines(LeafMembers(options, fs[..j]))
            + [MemberLine(Member(fs[j].fieldName, TypeName(options, fs[j].fieldType, None, None, None), None))]
  {
    assert fs[..j + 1][..j] == fs[..j];
    MemberLinesSnoc(LeafMembers(options, fs[..j]),
                    Member(fs[j].fieldName, TypeName(options, fs[j].fieldType, None, None, None), None));
  }

  /** Printing one more composite adds its member line, typed around the name `printField` gives it. */
  lemma NestedMemberLinesSnoc(options: Options, parentName: string, fs: seq<Field>, j: nat)
    requires j < |fs|
    ensures var n := FieldTypeName(options, parentName, fs[j]);
            MemberLines(NestedMembers(options, parentName, fs[..j + 1]))
              == MemberLines(NestedMembers(options, parentName, fs[..j]))
                 + [MemberLine(Member(fs[j].fieldName, TypeName(options, fs[j].fieldType, Some(n), None, None), Some(n)))]
  {
    var n := FieldTypeName(options, parentName, fs[j]);
    assert fs[..j + 1][..j] == fs[..j];
    MemberLinesSnoc(NestedMembers(options, parentName, fs[..j]),
                    Member(fs[j].fieldName, TypeName(options, fs[j].fieldType, Some(n), None, None), Some(n)));
  }

  /** Prints one member line per leaf field, with the field's type fully resolved. */
  method PrintLeafMembers(g: CodeGenerator, fs: seq<Field>)
    modifies g`lines
    ensures g.lines == old(g.lines) + MemberLines(LeafMembers(g.context.options, fs))
  {
    var options := g.context.options;
    var j := 0;
    while j < |fs|
      invariant 0 <= j <= |fs|
      invariant g.lines == old(g.lines) + MemberLines(LeafMembers(options, fs[..j]))
    {
      var f := fs[j];
      LeafMemberLinesSnoc(options, fs, j);
      g.PrintOnNewline("  " + f.fieldName + "::" + TypeName(options, f.fieldType, None, None, None));
      AppendAssoc(old(g.lines), MemberLines(LeafMembers(options, fs[..j])), [g.lines[|g.lines| - 1]]);
      j := j + 1;
    }
    assert fs[..j] == fs;
  }

  /**
   * Prints one member line per composite field, with the field's type
   * resolved around the declaration name `printField` returned for it.
   */
  method PrintNestedMembers(g: CodeGenerator, parentName: string, fs: seq<Field>, names: seq<string>)
    requires names == FieldTypeNames(g.context.options, parentName, fs)
    modifies g`lines
    ensures g.lines == old(g.lines) + MemberLines(NestedMembers(g.context.options, parentName, fs))
  {
    var options := g.context.options;
    var j := 0;
    while j < |fs|
      invariant 0 <= j <= |fs|
      invariant g.lines == old(g.lines) + MemberLines(NestedMembers(options, parentName, fs[..j]))
    {
      var f := fs[j];
      FieldTypeNamesAt(options, parentName, fs, j);
      NestedMemberLinesSnoc(options, parentName, fs, j);
      g.PrintOnNewline("  " + f.fieldName + "::" + TypeName(options, f.fieldType, Some(names[j]), None, None));
      AppendAssoc(old(g.lines), MemberLines(NestedMembers(options, parentName, fs[..j])), [g.lines[|g.lines| - 1]]);
      j := j + 1;
    }
    assert fs[..j] == fs;
  }

  /**
   * The first loop of `printField`: prints the declarations of each of the
   * given children of `parent` in turn and collects the names returned.
   */
  method PrintChildren(g: CodeGenerator, ghost parent: Field, prefix: string, fs: seq<Field>) returns (names: seq<string>)
    requires forall k :: 0 <= k < |fs| ==> fs[k] in parent.fields
    modifies g`lines
    ensures names == FieldTypeNames(g.context.options, prefix, fs)
    ensures g.lines == old(g.lines) + DeclsLines(ListDecls(g.context.options, prefix, fs))
    decreases parent, 0
  {
    var options := g.context.options;
    names := [];
    var i := 0;
    while i < |fs|
      invariant 0 <= i <= |fs|
      invariant names == FieldTypeNames(options, prefix, fs[..i])
      invariant g.lines == old(g.lines) + DeclsLines(ListDecls(options, prefix, fs[..i]))
    {
      assert fs[i] in parent.fields;
      ghost var done := ListDecls(options, prefix, fs[..i]);
      ghost var next := FieldDecls(options, prefix, fs[i]);
      var n := PrintField(g, prefix, fs[i]);
      assert g.lines == old(g.lines) + DeclsLines(ListDecls(options, prefix, fs[..i + 1])) by {
        ListDeclsSnoc(options, prefix, fs, i);
        DeclsLinesAppend(done, next);
        AppendAssoc(old(g.lines), DeclsLines(done), DeclsLines(next));
      }
      assert fs[..i + 1][..i] == fs[..i];
      names := names + [n];
      i := i + 1;
    }
    assert fs[..i] == fs;
  }

  /**
   * `printField(prefix, field)`: prints the declarations of a composite
   * field, children before the field's own, and returns its name; for a
   * leaf prints nothing and returns its type.
   */
  method PrintField(g: CodeGenerator, prefix: string, field: Field) returns (name: string)
    modifies g`lines
    ensures name == FieldTypeName(g.context.options, prefix, field)
    ensures g.lines == old(g.lines) + DeclsLines(FieldDecls(g.context.options, prefix, field))
    decreases field, 1
  {
    var options := g.context.options;
    if IsComposite(field) {
      var newFieldName := PathName(prefix, field);
      var nonPrimitiveFields := Composites(field.fields);
      var newFieldNames := PrintChildren(g, field, newFieldName, nonPrimitiveFields);
      ListDeclsOfComposites(options, newFieldName, field.fields);
      ghost var children := DeclsLines(ListDecls(options, newFieldName, field.fields));
      ghost var start := old(g.lines) + children;
      var primitiveFields := Leaves(field.fields);
      g.PrintOnNewline(DeclHeader(newFieldName));
      ghost var own := [DeclHeader(newFieldName)];
      PrintLeafMembers(g, primitiveFields);
      AppendAssoc(start, own, MemberLines(LeafMembers(options, primitiveFields)));
      own := own + MemberLines(LeafMembers(options, primitiveFields));
      PrintNestedMembers(g, newFieldName, nonPrimitiveFields, newFieldNames);
      AppendAssoc(start, own, MemberLines(NestedMembers(options, newFieldName, nonPrimitiveFields)));
      own := own + MemberLines(NestedMembers(options, newFieldName, nonPrimitiveFields));
      g.PrintOnNewline("end\n");
      AppendAssoc(start, own, ["end\n"]);
      own := own + ["end\n"];
      NodeDeclLines(options, prefix, field);
      DeclsLinesAppend(ListDecls(options, newFieldName, field.fields), [NodeDecl(options, prefix, field)]);
      AppendAssoc(old(g.lines), children, own);
      name := newFieldName;
    } else if field.fieldType.Named? {
      name := TypeName(options, field.fieldType, None, None, None);
    } else {
      name := "";
    }
  }

  /** The lines of a composite field's own declaration, as `printField` prints them. */
  lemma NodeDeclLines(options: Options, prefix: string, f: Field)
    ensures DeclsLines([NodeDecl(options, prefix, f)])
         == [DeclHeader(PathName(prefix, f))]
            + MemberLines(LeafMembers(options, Leaves(f.fields)))
            + MemberLines(NestedMembers(options, PathName(prefix, f), Composites(f.fields)))
            + ["end\n"]
  {
    DeclsLinesSingle(NodeDecl(options, prefix, f));
    MemberLinesAppend(LeafMembers(options, Leaves(f.fields)), NestedMembers(options, PathName(prefix, f), Composites(f.fields)));
  }

  /** The lines `resultDeclaration` prints for an operation of a supported kind. */
  function ResultLines(context: Context, objectName: string, op: Operation): seq<string> {
    DeclsLines(ResultDecls(context.options, objectName, op.fields))
  }

  /** What `resultDeclaration` prints, or the error it throws. */
  function ResultPart(context: Context, op: Operation): Result<seq<string>, string> {
    match ObjectName(context, op, "Result")
    case Err(e) => Err(e)
    case Ok(objectName) => Ok(ResultLines(context, objectName, op))
  }

  /**
   * Prints the member lines of the root declaration: each root field with
   * the name `printField` returned for it.
   */
  method PrintRootMembers(g: CodeGenerator, objectName: string, fs: seq<Field>, names: seq<string>)
    requires names == FieldTypeNames(g.context.options, objectName, fs)
    modifies g`lines
    ensures g.lines == old(g.lines) + MemberLines(RootMembers(g.context.options, objectName, fs))
  {
    var options := g.context.options;
    var j := 0;
    while j < |fs|
      invariant 0 <= j <= |fs|
      invariant g.lines == old(g.lines) + MemberLines(RootMembers(options, objectName, fs[..j]))
    {
      g.PrintOnNewline("  " + fs[j].fieldName + "::" + names[j]);
      assert g.lines == old(g.lines) + MemberLines(RootMembers(options, objectName, fs[..j + 1])) by {
        FieldTypeNamesAt(options, objectName, fs, j);
        assert fs[..j + 1][..j] == fs[..j];
        var m := Member(fs[j].fieldName, names[j], if IsComposite(fs[j]) then Some(PathName(objectName, fs[j])) else None);
        MemberLinesSnoc(RootMembers(options, objectName, fs[..j]), m);
        AppendAssoc(old(g.lines), MemberLines(RootMembers(options, objectName, fs[..j])), [MemberLine(m)]);
      }
      j := j + 1;
    }
    assert fs[..j] == fs;
  }

  /**
   * The body of `resultDeclaration` once the object name is known: every
   * nested declaration of every root field, then the root declaration.
   */
  method PrintResultDecls(g: CodeGenerator, name: string, fields: seq<Field>)
    modifies g`lines
    ensures g.lines == old(g.lines) + DeclsLines(ResultDecls(g.context.options, name, fields))
  {
    var options := g.context.options;
    var baseFieldNames: seq<string> := [];
    var i := 0;
    while i < |fields|
      invariant 0 <= i <= |fields|
      invariant baseFieldNames == FieldTypeNames(options, name, fields[..i])
      invariant g.lines == old(g.lines) + DeclsLines(ListDecls(options, name, fields[..i]))
    {
      ghost var done := ListDecls(options, name, fields[..i]);
      ghost var next := FieldDecls(options, name, fields[i]);
      var n := PrintField(g, name, fields[i]);
      assert g.lines == old(g.lines) + DeclsLines(ListDecls(options, name, fields[..i + 1])) by {
        ListDeclsSnoc(options, name, fields, i);
        DeclsLinesAppend(done, next);
        AppendAssoc(old(g.lines), DeclsLines(done), DeclsLines(next));
      }
      assert fields[..i + 1][..i] == fields[..i];
      baseFieldNames := baseFieldNames + [n];
      i := i + 1;
    }
    assert fields[..i] == fields;
    ghost var nested := ListDecls(options, name, fields);
    ghost var root := [Decl(name, RootMembers(options, name, fields))];
    PrintRootDecl(g, name, fields, baseFieldNames);
    assert g.lines == old(g.lines) + DeclsLines(nested + root) by {
      DeclsLinesAppend(nested, root);
      AppendAssoc(old(g.lines), DeclsLines(nested), DeclsLines(root));
    }
  }

  /** The end of `resultDeclaration`: the root declaration, one member per root field. */
  method PrintRootDecl(g: CodeGenerator, name: string, fields: seq<Field>, names: seq<string>)
    requires names == FieldTypeNames(g.context.options, name, fields)
    modifies g`lines
    ensures g.lines == old(g.lines) + DeclsLines([Decl(name, RootMembers(g.context.options, name, fields))])
  {
    var options := g.context.options;
    g.PrintOnNewline(DeclHeader(name));
    ghost var own := [DeclHeader(name)];
    PrintRootMembers(g, name, fields, names);
    AppendAssoc(old(g.lines), own, MemberLines(RootMembers(options, name, fields)));
    own := own + MemberLines(RootMembers(options, name, fields));
    g.PrintOnNewline("end\n");
    AppendAssoc(old(g.lines), own, ["end\n"]);
    DeclsLinesSingle(Decl(name, RootMembers(options, name, fields)));
  }

  /**
   * `resultDeclaration(generator, operation)`: throws for an unsupported
   * operation kind before printing anything; otherwise prints every nested
   * declaration of every root field, then the root `…Result` declaration.
   */
  method ResultDeclaration(g: CodeGenerator, op: Operation) returns (outcome: Outcome)
    modifies g`lines
    ensures ResultPart(g.context, op).Err? ==> outcome == Fail(ResultPart(g.context, op).error) && g.lines == old(g.lines)
    ensures ResultPart(g.context, op).Ok? ==> outcome == Pass && g.lines == old(g.lines) + ResultPart(g.context, op).value
  {
    var objectName := ObjectName(g.context, op, "Result");
    if objectName.Err? {
      return Fail(objectName.error);
    }
    PrintResultDecls(g, objectName.value, op.fields);
    outcome := Pass;
  }

  // ---------------------------------------------------------------------
  // variablesDeclaration.

  /** One `name::type` line per variable, in declaration order. */
  function VariableLines(options: Options, vs: seq<Variable>): (r: seq<string>)
    ensures |r| == |vs|
    ensures forall k :: 0 <= k < |vs| ==> r[k] == vs[k].name + "::" + TypeName(options, vs[k].varType, None, None, None)
  {
    if vs == [] then []
    else
      var v := vs[|vs| - 1];
      VariableLines(options, vs[..|vs| - 1]) + [v.name + "::" + TypeName(options, v.varType, None, None, None)]
  }

  /** What `variablesDeclaration` prints, or the error it throws. */
  function VariablesPart(context: Context, op: Operation): Result<seq<string>, string> {
    match ObjectName(context, op, "Variables")
    case Err(e) => Err(e)
    case Ok(objectName) => Ok(NamedTupleLines(objectName, Some(VariableLines(context.options, op.variables))))
  }

  /**
   * `variablesDeclaration(generator, operation)`: throws for an unsupported
   * operation kind; otherwise prints the `…Variables` named tuple with one
   * line per variable. The scope stack is left as it was.
   */
  method VariablesDeclaration(g: CodeGenerator, op: Operation) returns (outcome: Outcome)
    modifies g`lines, g`scopes
    ensures g.scopes == old(g.scopes)
    ensures VariablesPart(g.context, op).Err? ==> outcome == Fail(VariablesPart(g.context, op).error) && g.lines == old(g.lines)
    ensures VariablesPart(g.context, op).Ok? ==> outcome == Pass && g.lines == old(g.lines) + VariablesPart(g.context, op).value
  {
    var objectName := ObjectName(g.context, op, "Variables");
    if objectName.Err? {
      return Fail(objectName.error);
    }
    NamedTupleDeclaration(g, objectName.value, Some(VariableLines(g.context.options, op.variables)));
    outcome := Pass;
  }

  // ---------------------------------------------------------------------
  // Enum declarations.

  /** The lines of an enum declaration: its description as comment lines, then `@enum Name v1 v2 …`. */
  function EnumLines(name: string, values: seq<string>, description: string): seq<string> {
    CommentLines(description) + ["@enum " + name + " " + Join(values, " ")]
  }

  /** What `typeDeclarationForGraphQLType` prints: an enum declaration for an enum, nothing for any other type. */
  function TypeDeclarationLines(t: GqlType): seq<string> {
    if IsEnumType(t) then EnumLines(t.name, t.kind.values, t.kind.description) else []
  }

  /**
   * An enum declaration is its description's comment lines followed by one
   * `@enum` line, from which the values of an enum with at least one value
   * (as GraphQL requires of enums) can be read back; any other type
   * declares nothing.
   */
  lemma EnumValuesRecoverable(t: GqlType)
    requires IsEnumType(t) ==> forall i :: 0 <= i < |t.kind.values| ==> ' ' !in t.kind.values[i]
    ensures !IsEnumType(t) ==> TypeDeclarationLines(t) == []
    ensures IsEnumType(t) ==>
              var lines := TypeDeclarationLines(t);
              |lines| == |CommentLines(t.kind.description)| + 1 &&
              lines[..|lines| - 1] == CommentLines(t.kind.description) &&
              lines[|lines| - 1] == "@enum " + t.name + " " + Join(t.kind.values, " ")
    ensures IsEnumType(t) && |t.kind.values| > 0 ==>
              Split(Join(t.kind.values, " "), ' ') == t.kind.values
  {
    if IsEnumType(t) && |t.kind.values| > 0 {
      SplitJoin(t.kind.values, ' ');
    }
  }

  method EnumerationDeclaration(g: CodeGenerator, t: GqlType)
    requires IsEnumType(t)
    modifies g`lines
    ensures g.lines == old(g.lines) + EnumLines(t.name, t.kind.values, t.kind.description)
  {
    Comment(g, t.kind.description);
    g.PrintOnNewline("@enum " + t.name + " " + Join(t.kind.values, " "));
  }

  method TypeDeclarationForGraphQLType(g: CodeGenerator, t: GqlType)
    modifies g`lines
    ensures g.lines == old(g.lines) + TypeDeclarationLines(t)
  {
    if IsEnumType(t) {
      EnumerationDeclaration(g, t);
    }
  }

  // ---------------------------------------------------------------------
  // generateSource.

  function HeaderLines(): seq<string> {
    ["# @generated", "# This file was automatically generated and should not be edited."]
  }

  /** The declarations of the types used, one type after the other. */
  function TypesLines(ts: seq<GqlType>): seq<string> {
    if ts == [] then [] else TypesLines(ts[..|ts| - 1]) + TypeDeclarationLines(ts[|ts| - 1])
  }

  /**
   * What one pass over the operations prints for `op`: in the variables
   * pass a `…Variables` declaration only when the operation has variables,
   * in the result pass its `…Result` declarations.
   */
  function OperationPart(context: Context, op: Operation, variablesPass: bool): Result<seq<string>, string> {
    if !variablesPass then ResultPart(context, op)
    else if |op.variables| > 0 then VariablesPart(context, op)
    else Ok([])
  }

  /**
   * One pass over the operations: their parts in order, or the first error
   * thrown. No operations print nothing, and a pass that succeeds has
   * succeeded on its last operation.
   */
  function PassLines(context: Context, ops: seq<Operation>, variablesPass: bool): (r: Result<seq<string>, string>)
    ensures ops == [] ==> r == Ok([])
    ensures ops != [] && r.Ok? ==> OperationPart(context, ops[|ops| - 1], variablesPass).Ok?
  {
    if ops == [] then Ok([])
    else
      match PassLines(context, ops[..|ops| - 1], variablesPass)
      case Err(e) => Err(e)
      case Ok(before) =>
        match OperationPart(context, ops[|ops| - 1], variablesPass)
        case Err(e) => Err(e)
        case Ok(lines) => Ok(before + lines)
  }

  /**
   * The output of `generateSource`: the header, the enum declarations, the
   * variables pass and the result pass; or the first error thrown, in
   * which case no output is produced.
   */
  function GeneratedSource(context: Context): (r: Result<seq<string>, string>)
    ensures r.Ok? ==> |r.value| >= 2 && r.value[..2] == HeaderLines()
  {
    match PassLines(context, context.operations, true)
    case Err(e) => Err(e)
    case Ok(variables) =>
      match PassLines(context, context.operations, false)
      case Err(e) => Err(e)
      case Ok(results) => Ok(HeaderLines() + TypesLines(context.typesUsed) + variables + results)
  }

  /** Once a pass has thrown on a prefix of the operations, it throws the same error on all of them. */
  lemma {:induction false} PassErrorSticks(context: Context, ops: seq<Operation>, variablesPass: bool, j: nat)
    requires j <= |ops|
    requires PassLines(context, ops[..j], variablesPass).Err?
    ensures PassLines(context, ops, variablesPass) == PassLines(context, ops[..j], variablesPass)
    decreases |ops|
  {
    if j < |ops| {
      var init := ops[..|ops| - 1];
      assert init[..j] == ops[..j];
      PassErrorSticks(context, init, variablesPass, j);
    } else {
      assert ops[..j] == ops;
    }
  }

  /** How a pass extends by one operation. */
  lemma PassLinesSnoc(context: Context, ops: seq<Operation>, variablesPass: bool, i: nat)
    requires i < |ops|
    ensures var before, part, after :=
              PassLines(context, ops[..i], variablesPass),
              OperationPart(context, ops[i], variablesPass),
              PassLines(context, ops[..i + 1], variablesPass);
            (before.Err? ==> after == before) &&
            (before.Ok? && part.Err? ==> after == Err(part.error)) &&
            (before.Ok? && part.Ok? ==> after == Ok(before.value + part.value))
  {
    assert ops[..i + 1][..i] == ops[..i];
  }

  /** The body of one pass for one operation. */
  method PrintOperation(g: CodeGenerator, op: Operation, variablesPass: bool) returns (outcome: Outcome)
    modifies g`lines, g`scopes
    ensures g.scopes == old(g.scopes)
    ensures var part := OperationPart(g.context, op, variablesPass);
            (part.Err? ==> outcome == Fail(part.error)) &&
            (part.Ok? ==> outcome == Pass && g.lines == old(g.lines) + part.value)
  {
    outcome := Pass;
    if variablesPass {
      if |op.variables| > 0 {
        outcome := VariablesDeclaration(g, op);
      }
    } else {
      outcome := ResultDeclaration(g, op);
    }
  }

  /** Runs one pass over the operations on `g`, stopping at the first error. */
  method RunPass(g: CodeGenerator, variablesPass: bool) returns (outcome: Outcome)
    modifies g`lines, g`scopes
    ensures g.scopes == old(g.scopes)
    ensures var p := PassLines(g.context, g.context.operations, variablesPass);
            (p.Err? ==> outcome == Fail(p.error)) &&
            (p.Ok? ==> outcome == Pass && g.lines == old(g.lines) + p.value)
  {
    var ops := g.context.operations;
    var i := 0;
    while i < |ops|
      invariant 0 <= i <= |ops|
      invariant g.scopes == old(g.scopes)
      invariant PassLines(g.context, ops[..i], variablesPass).Ok?
      invariant g.lines == old(g.lines) + PassLines(g.context, ops[..i], variablesPass).value
    {
      ghost var before := PassLines(g.context, ops[..i], variablesPass).value;
      ghost var part := OperationPart(g.context, ops[i], variablesPass);
      var o := PrintOperation(g, ops[i], variablesPass);
      PassLinesSnoc(g.context, ops, variablesPass, i);
      if o.Fail? {
        PassErrorSticks(g.context, ops, variablesPass, i + 1);
        return o;
      }
      AppendAssoc(old(g.lines), before, part.value);
      i := i + 1;
    }
    assert ops[..i] == ops;
    outcome := Pass;
  }

  /** The loop of `generateSource` over the types used: one declaration per type, in order. */
  method PrintTypeDeclarations(g: CodeGenerator)
    modifies g`lines
    ensures g.lines == old(g.lines) + TypesLines(g.context.typesUsed)
  {
    var types := g.context.typesUsed;
    var i := 0;
    while i < |types|
      invariant 0 <= i <= |types|
      invariant g.lines == old(g.lines) + TypesLines(types[..i])
    {
      TypeDeclarationForGraphQLType(g, types[i]);
      assert types[..i + 1][..i] == types[..i];
      AppendAssoc(old(g.lines), TypesLines(types[..i]), TypeDeclarationLines(types[i]));
      i := i + 1;
    }
    assert types[..i] == types;
  }

  /**
   * `generateSource(context)`: prints into a fresh printer and returns its
   * output, or the error that aborted generation.
   */
  method GenerateSource(context: Context) returns (r: Result<seq<string>, string>)
    ensures r == GeneratedSource(context)
  {
    var g := new CodeGenerator(context);
    g.PrintOnNewline("# @generated");
    g.PrintOnNewline("# This file was automatically generated and should not be edited.");
    assert g.lines == HeaderLines();
    PrintTypeDeclarations(g);
    ghost var prelude := HeaderLines() + TypesLines(context.typesUsed);

    ghost var variables := PassLines(context, context.operations, true);
    var o := RunPass(g, true);
    if o.Fail? {
      return Err(o.error);
    }
    ghost var results := PassLines(context, context.operations, false);
    o := RunPass(g, false);
    if o.Fail? {
      return Err(o.error);
    }
    AppendAssoc(prelude, variables.value, results.value);
    assert g.lines == prelude + variables.value + results.value;
    r := Ok(g.lines);
  }

  // ---------------------------------------------------------------------
  // What generation as a whole promises.

  predicate AllSupported(ops: seq<Operation>) {
    forall k :: 0 <= k < |ops| ==> IsSupportedOperationType(ops[k].operationType)
  }

  /** Every operation is supported exactly when all but the last are and the last one is. */
  lemma AllSupportedSnoc(ops: seq<Operation>)
    requires ops != []
    ensures AllSupported(ops) <==>
              AllSupported(ops[..|ops| - 1]) && IsSupportedOperationType(ops[|ops| - 1].operationType)
  {
    assert forall k :: 0 <= k < |ops| - 1 ==> ops[..|ops| - 1][k] == ops[k];
  }

  /**
   * The result pass fails exactly when some operation is neither a query
   * nor a mutation; either pass succeeds when every operation is one; and
   * a failing pass reports the kind of an offending operation.
   */
  lemma {:induction false} PassLinesFailures(context: Context, ops: seq<Operation>, variablesPass: bool)
    ensures PassLines(context, ops, false).Err? <==> !AllSupported(ops)
    ensures AllSupported(ops) ==> PassLines(context, ops, variablesPass).Ok?
    ensures PassLines(context, ops, variablesPass).Err? ==>
              exists k :: 0 <= k < |ops| && !IsSupportedOperationType(ops[k].operationType) &&
                          PassLines(context, ops, variablesPass).error == UnsupportedOperationType(ops[k].operationType)
    decreases |ops|
  {
    if ops != [] {
      var init, last := ops[..|ops| - 1], ops[|ops| - 1];
      PassLinesFailures(context, init, variablesPass);
      PassLinesFailures(context, init, false);
      AllSupportedSnoc(ops);
      var p := PassLines(context, ops, variablesPass);
      if p.Err? && PassLines(context, init, variablesPass).Err? {
        var k :| 0 <= k < |init| && !IsSupportedOperationType(init[k].operationType) &&
                  PassLines(context, init, variablesPass).error == UnsupportedOperationType(init[k].operationType);
        assert ops[k] == init[k];
      } else if p.Err? {
        assert !IsSupportedOperationType(ops[|ops| - 1].operationType);
      }
    }
  }

  /**
   * `generateSource` fails exactly when some operation is neither a query
   * nor a mutation, with the message naming such an operation's kind;
   * otherwise its output opens with the `@generated` header.
   */
  lemma GenerateFailsIffUnsupported(context: Context)
    ensures GeneratedSource(context).Err? <==> !AllSupported(context.operations)
    ensures GeneratedSource(context).Err? ==>
              exists k :: 0 <= k < |context.operations| &&
                          !IsSupportedOperationType(context.operations[k].operationType) &&
                          GeneratedSource(context).error == UnsupportedOperationType(context.operations[k].operationType)
    ensures GeneratedSource(context).Ok? ==> GeneratedSource(context).value[..2] == HeaderLines()
  {
    PassLinesFailures(context, context.operations, true);
    PassLinesFailures(context, context.operations, false);
  }

  /** Operations without variables add nothing to the variables pass. */
  lemma {:induction false} NoVariablesNoDeclarations(context: Context, ops: seq<Operation>)
    requires forall k :: 0 <= k < |ops| ==> |ops[k].variables| == 0
    ensures PassLines(context, ops, true) == Ok([])
    decreases |ops|
  {
    if ops != [] {
      NoVariablesNoDeclarations(context, ops[..|ops| - 1]);
      var none: seq<string> := [];
      assert none + none == none;
    }
  }
}
