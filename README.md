# graphql-julia-codegen, modelled in Dafny

`graphql-julia-codegen` turns compiled GraphQL operations into Julia
source: one `@NamedTuple` declaration per operation's variables, one per
composite field of its selection tree, one for its result, and an `@enum`
per enum type used. This project models the generator's core and proves
what it promises.

- `graphql.dfy` (`GraphQL`): the inputs. These are schema type references
  (`Named | List | NonNull`), selection trees of fields, operations,
  generation options and the compiler context.
- `jsstrings.dfy` (`JsStrings`): the ECMAScript string operations the source
  relies on, with their edge cases: `search`, `substring` (clamping and
  argument swap), `split`, `join` and `trim`.
- `types.dfy` (`Types`): `typeNameFromGraphQLType`, `typeNameForScalarType`,
  the built-in scalar table and `possibleTypesForType`.
- `printer.dfy` (`Printer`): the `CodeGenerator` printer as a class. It holds
  the lines printed so far and a scope stack.
- `language.dfy` (`Language`): identifier escaping, `#` comments and the
  `@NamedTuple` wrapper.
- `selection.dfy` (`Selection`): what `printField` and `resultDeclaration`
  emit, as declarations with members.
  - `FieldDecls`, `ListDecls` and `ResultDecls` are the specification.
  - The lemmas state the path-encoded names, the member order, the member
    types and the post-order emission.
- `naming.dfy` (`Naming`): declaration names are distinct when no field name
  contains `_` and composite siblings select distinct fields. Two collisions
  show that without these conditions names can clash.
- `codegeneration.dfy` (`CodeGeneration`): the printing methods, each proved
  against a specification function:
  - `printField`, `resultDeclaration`, `variablesDeclaration`,
    `enumerationDeclaration`, `typeDeclarationForGraphQLType`;
  - `generateSource` with its two passes over the operations and its error
    path.
- `extract.dfy` (`Extract`): `extractGraphQLDocumentsFromJuliaStrings`, the
  loop that cuts `gql"""…"""` bodies out of Julia text. It is proved against
  the function `Documents`, including the unterminated-block case, where the
  swapped `substring` arguments yield the document `"`.

The printer's output is a sequence of lines: each `printOnNewline` starts a
line and `print` continues the last one. A thrown `GraphQLError` is an
`Err`/`Fail` value carrying the message.

## Model

| member | source | states |
|---|---|---|
| JsStrings.Search | src/codegen.ts:29 | `search` finds the first occurrence of the pattern, or -1 exactly when there is none |
| JsStrings.Substring | src/codegen.ts:31 | with both indices inside the string, `substring` is the slice between them, taken in either order |
| JsStrings.SubstringFrom | src/codegen.ts:30-32 | the one-argument `substring(a)` is the suffix from `a` for an index inside the string, the whole string for a negative index and the empty string past the end |
| JsStrings.SubstringClamps | src/codegen.ts:31 | an index below zero acts as 0, an index past the end acts as the length, and swapping the two arguments gives the same result |
| JsStrings.Split | src/language.ts:17 | splitting on a character yields one more segment than there are separators; joined back they give the input; no segment contains the separator |
| JsStrings.Join | src/codeGeneration.ts:190 | the empty list joins to the empty string; JsStrings.SplitJoin proves that splitting undoes a join |
| JsStrings.SplitJoin | src/codeGeneration.ts:190 | splitting a space-joined list of names that contain no spaces gives back the list |
| JsStrings.Trim | src/language.ts:20 | `trim` returns the slice of its input between a run of leading whitespace and a run of trailing whitespace; the slice neither starts nor ends with whitespace, and a whitespace-free string is unchanged |
| JsStrings.TrimIdempotent | src/language.ts:20 | trimming twice removes nothing more |
| Types.TypeNameForScalarType | src/types.ts:102-112 | a built-in scalar maps through the table; another scalar becomes prefix + name with pass-through and the literal "String" without |
| Types.BuiltInScalars | src/types.ts:17-23 | String, Int, Float and Boolean map to AbstractString, Int64, Float and Boolean under any options; ID is absent and follows the custom-scalar rule |
| Types.CustomScalarDate | src/types.ts:106-111 | a custom scalar `Date` becomes "String" without pass-through and "AppDate" with prefix "App" |
| Types.TypeName | src/types.ts:36-100 | with isOptional undefined the result is GraphQL's nullability reading: every level not under NonNull is wrapped in Union{Nothing,…}; forced false gives the non-null reading; forced true survives NonNull and wraps once |
| Types.InputObjectFlagIgnored | src/types.ts:36-100 | the isInputObject argument never changes the result |
| Types.BareTypeNameReplacesSchemaName | src/types.ts:43-95 | a non-empty bare name replaces the schema name of a non-scalar named type through every List and NonNull level; scalars ignore it |
| Types.TwoLevelListNullability | src/types.ts:56-65 | `[[String!]]!` resolves to `Vector{Union{Nothing,Vector{AbstractString}}}` |
| Types.NonNullListOfNullable | src/types.ts:43-65 | `[String]!` resolves to `Vector{Union{Nothing,AbstractString}}` |
| Types.NullableListOfNonNull | src/types.ts:43-65 | `[String!]` resolves to `Union{Nothing,Vector{AbstractString}}` |
| Types.PossibleTypesForType | src/types.ts:25-34 | an abstract type yields the schema's possible types; any other type yields itself alone |
| Types.PossibleTypesSettled | src/types.ts:25-34 | over a schema whose possible types are objects, every type `possibleTypesForType` yields is concrete, so expanding it again yields just that type |
| Printer.CodeGenerator.constructor | src/codeGeneration.ts:36 | a new generator holds the context, no lines and no scopes |
| Printer.CodeGenerator.PrintOnNewline | src/codeGeneration.ts:38 | starts one new line holding the text; earlier lines are unchanged |
| Printer.CodeGenerator.Print | src/language.ts:41 | continues the last line with the text |
| Printer.CodeGenerator.PushScope | src/language.ts:39 | pushes one scope named after the type |
| Printer.CodeGenerator.PopScope | src/language.ts:43 | pops and returns the innermost scope; an empty stack stays empty |
| Language.EscapeIdentifierIfNeeded | src/language.ts:46-56 | exactly the reserved word `function` is wrapped in backticks; every other identifier is returned unchanged; the result is never reserved |
| Language.EscapeIdempotent | src/language.ts:50-56 | escaping an escaped identifier changes nothing |
| Language.EscapeInjectiveOnNames | src/language.ts:50-56 | distinct GraphQL names stay distinct once escaped |
| Language.CommentLinesShape | src/language.ts:17-21 | an empty comment prints nothing; another prints one line per newline-separated segment, `# ` + the trimmed segment, in order, none spanning a line break |
| Language.Comment | src/language.ts:13-24 | prints exactly those comment lines after what was already printed |
| Language.NamedTupleDeclaration | src/language.ts:26-44 | prints the `const X = @NamedTuple ` header; " begin", the block and "end\n\n" follow only when a closure is supplied; the scope stack ends as it began |
| Selection.Composites | src/codeGeneration.ts:142 | every field kept is one of the input fields and has children |
| Selection.CompositesSingle | src/codeGeneration.ts:142 | one field is kept exactly when it has children |
| Selection.CompositesAppend | src/codeGeneration.ts:142 | the composites of two concatenated lists are those of the first followed by those of the second, so selection order is kept |
| Selection.Leaves | src/codeGeneration.ts:146 | keeps the fields without children; with the composites they account for every field |
| Selection.LeavesSingle | src/codeGeneration.ts:146 | one field is kept exactly when it has no children |
| Selection.LeavesAppend | src/codeGeneration.ts:146 | the leaves of two concatenated lists are those of the first followed by those of the second, so selection order is kept |
| Selection.LeavesAndCompositesPartition | src/codeGeneration.ts:142-146 | leaves and composites together are a permutation of the fields |
| Selection.FieldDecls | src/codeGeneration.ts:138-153 | `printField` emits declarations exactly for a composite field, and the last one is the field's own, named `prefix_fieldName` |
| Selection.ListDecls | src/codeGeneration.ts:142-144 | sibling fields emit declarations exactly when one of them is composite |
| Selection.ResultDecls | src/codeGeneration.ts:162-167 | an operation's declarations end with the root declaration, named after the object, with one member per root field |
| Selection.FieldTypeName | src/codeGeneration.ts:138-160 | `printField` returns `prefix_fieldName` for a composite field |
| Selection.FieldTypeNamesAt | src/codeGeneration.ts:144 | the k-th name collected is what `printField` returns for the k-th field |
| Selection.ListDeclsOfComposites | src/codeGeneration.ts:142-144 | leaves emit no declarations: recursing over the composites alone emits the same as over all fields |
| Selection.LeafMembersAt | src/codeGeneration.ts:149 | a leaf member is the field's name with its type resolved, and refers to no declaration |
| Selection.NestedMembersAt | src/codeGeneration.ts:150 | a composite member is typed with the name its child's declaration got as bare type name, and refers to that declaration |
| Selection.NestedMemberUsesDeclarationName | src/codeGeneration.ts:150 | a nested composite member's type is its field type, renamed to the child declaration, with the usual Union/Vector wrapping |
| Selection.NodeDeclMembers | src/codeGeneration.ts:146-151 | a declaration has one member per child: leaves first, then composites, each in selection order, composites referring to `name_child` |
| Selection.RootMembersAt | src/codeGeneration.ts:162-166 | the k-th root member is the k-th root field typed by what `printField` returned for it |
| Selection.RootMemberTypes | src/codeGeneration.ts:154-166 | a composite root field is typed by its bare declaration name, a leaf of a named type by its resolved type, a leaf of a wrapped type by "" |
| Selection.ListDeclsDeclaresComposites | src/codeGeneration.ts:142-153 | every composite child gets a declaration named `prefix_fieldName` |
| Selection.NodeRefsDeclared | src/codeGeneration.ts:142-151 | every declaration a node's member refers to is among those its children emitted |
| Selection.FieldDeclsPostOrder | src/codeGeneration.ts:138-153 | a field's declarations come in post-order: each referenced declaration is printed before the one referring to it |
| Selection.ListDeclsPostOrder | src/codeGeneration.ts:144 | the same holds for a list of sibling fields |
| Selection.ResultDeclsPostOrder | src/codeGeneration.ts:162-167 | an operation's declarations are in post-order and end with the root declaration, which has one member per root field |
| Naming.FieldDeclsUnder | src/codeGeneration.ts:144-147 | for every field, each declaration it emits is named `prefix_fieldName` or starts with `prefix_fieldName_` |
| Naming.ListDeclsUnder | src/codeGeneration.ts:142-147 | for all sibling fields, each declaration they emit starts with `prefix_` |
| Naming.ListDeclsBeneath | src/codeGeneration.ts:142-147 | with no `_` in field names and distinct composite siblings, each declaration of sibling fields starts with `prefix_` followed by the field name of one of the composite siblings |
| Naming.FieldDeclsDistinct | src/codeGeneration.ts:138-153 | without `_` in field names and with distinct composite siblings, a field's declarations have distinct names |
| Naming.ListDeclsDistinct | src/codeGeneration.ts:144 | the same holds for sibling fields |
| Naming.ResultDeclsDistinct | src/codeGeneration.ts:162-167 | the same holds for all of an operation's declarations, the root included |
| Naming.UnderscoreNamesCollide | src/codeGeneration.ts:147 | a field `hero_friends` beside `hero { friends }` yields two declarations with the same name |
| Naming.AliasedSiblingsCollide | src/codeGeneration.ts:144-147 | two aliases of the same composite field yield two declarations with the same name, since names use fieldName and not the alias |
| CodeGeneration.ObjectName | src/codeGeneration.ts:127-136 | a query or mutation gets `{OperationClassName}{suffix}`; any other kind is an error naming that kind |
| CodeGeneration.PrintLeafMembers | src/codeGeneration.ts:149 | prints one member line per leaf, in order |
| CodeGeneration.PrintNestedMembers | src/codeGeneration.ts:150 | prints one member line per composite child, typed with the name returned for it |
| CodeGeneration.PrintChildren | src/codeGeneration.ts:144 | returns the names `printField` gives the children and prints their declarations, in order |
| CodeGeneration.PrintField | src/codeGeneration.ts:138-160 | returns the field's type name and prints exactly its declarations, in post-order |
| CodeGeneration.PrintRootMembers | src/codeGeneration.ts:166 | prints one line per root field with the name returned for it |
| CodeGeneration.PrintRootDecl | src/codeGeneration.ts:165-167 | prints the root declaration: header, member lines, "end\n" |
| CodeGeneration.PrintResultDecls | src/codeGeneration.ts:162-167 | prints every declaration of the operation's result, nested ones first |
| CodeGeneration.ResultDeclaration | src/codeGeneration.ts:110-169 | an unsupported kind fails with the error and prints nothing; otherwise prints the result declarations |
| CodeGeneration.VariableLines | src/codeGeneration.ts:103-105 | one `name::type` line per variable, in order |
| CodeGeneration.VariablesDeclaration | src/codeGeneration.ts:67-108 | an unsupported kind fails and prints nothing; otherwise prints the `…Variables` named tuple; scopes end as they began |
| CodeGeneration.EnumValuesRecoverable | src/codeGeneration.ts:172-192 | a non-enum type prints nothing; an enum prints exactly its description's comment lines and then one `@enum` line; for an enum with at least one value (as GraphQL requires), the values on that line split back into the enum's values |
| CodeGeneration.EnumerationDeclaration | src/codeGeneration.ts:181-192 | prints the description comment and the `@enum Name v1 v2…` line |
| CodeGeneration.TypeDeclarationForGraphQLType | src/codeGeneration.ts:172-179 | prints an enum declaration for an enum type and nothing otherwise |
| CodeGeneration.PrintTypeDeclarations | src/codeGeneration.ts:44-46 | prints the declarations of the types used, in order |
| CodeGeneration.PrintOperation | src/codeGeneration.ts:48-57 | prints one operation's part of a pass or fails with its error; scopes end as they began |
| CodeGeneration.PassLines | src/codeGeneration.ts:48-57 | no operations print nothing, and a successful pass succeeded on its last operation; PassLinesFailures and PassErrorSticks state when it fails |
| CodeGeneration.RunPass | src/codeGeneration.ts:48-57 | one pass over the operations prints their parts in order or stops at the first error |
| CodeGeneration.PassErrorSticks | src/codeGeneration.ts:48-57 | once a pass has thrown, later operations do not change the outcome |
| CodeGeneration.PassLinesFailures | src/codeGeneration.ts:48-57 | the result pass fails exactly when some operation is neither query nor mutation; either pass succeeds when all are; an error names an offending kind |
| CodeGeneration.NoVariablesNoDeclarations | src/codeGeneration.ts:48-53 | operations without variables print nothing in the variables pass |
| CodeGeneration.GeneratedSource | src/codeGeneration.ts:34-65 | a successful output starts with the two `@generated` header lines |
| CodeGeneration.GenerateSource | src/codeGeneration.ts:34-65 | the output is the header, the enum declarations, the variables pass and the result pass, or the first error |
| CodeGeneration.GenerateFailsIffUnsupported | src/codeGeneration.ts:34-65 | generation fails exactly when some operation is neither query nor mutation, with an error naming its kind; a successful output starts with the two header lines |
| Extract.Rest | src/codegen.ts:32 | the scan resumes past all of the opener but its last quote, so the text left is at least five characters shorter, even when no closer follows |
| Extract.Documents | src/codegen.ts:28-33 | nothing is extracted exactly when the text holds no `gql"""`; the loop is proved to collect exactly these documents |
| Extract.BodyAndRest | src/codegen.ts:30-32 | the document is the text up to the first closer after the opener, or `"` when there is none; the scan resumes at that closer, or at the opener's last quote |
| Extract.DocumentsStep | src/codegen.ts:29-32 | one turn of the loop takes the next document and resumes where `Documents` does |
| Extract.ScanStep | src/codegen.ts:28-33 | the loop keeps its invariant: collected documents followed by those left give all of the text's documents |
| Extract.ExtractGraphQLDocumentsFromJuliaStrings | src/codegen.ts:19-39 | returns null when no document is found and otherwise all documents, in order |
| Extract.FirstOpener | src/codegen.ts:29 | after text free of openers, the next opener is the first one found: openers cannot overlap |
| Extract.FirstCloser | src/codegen.ts:30 | the closer after a body that contains no `"""` and does not end in `"` is the first one found |
| Extract.ClosingQuotesSkipped | src/codegen.ts:32 | resuming at the closing `"""` starts no new document |
| Extract.OneBlock | src/codegen.ts:29-32 | after text free of `gql"""`, a complete block whose body contains no `"""` and does not end in `"` yields exactly that body, and the scan continues after the block |
| Extract.UnterminatedBlock | src/codegen.ts:30-32 | an opener with no closer yields the one-character document `"` and ends the scan |
| Extract.ExtractRoundTrip | src/codegen.ts:28-33 | a text of gaps free of `gql"""` and complete blocks whose bodies contain no `"""` and do not end in `"` yields every body, in order |

## Left out

- The CLI and all file and network I/O are not modelled: the `Generate` command, `waitForKey`, the directory walk, schema loading and output naming (src/codegen.ts outside lines 19-39, src/index.ts, src/cli.ts).
- The printer is an external library, modelled only as its lines and scope stack. Its blank lines (`printNewline`, `printNewlineIfNeeded`), indentation and the joining of lines into one output string are layout and are not represented.
- Fragments, fragment spreads and inline fragments are destructured by the source but never used. They are not modelled.
- `operationClassName` comes from a module that is not part of this model. It is a function-valued field of the context, left uninterpreted.
- The compiler that builds the operations and the GraphQL parser that turns an extracted body into a document are not part of this model. Inputs are datatypes, and an extracted document is its text.
- Language.NamedTupleDeclaration: the closure is given as the lines it prints, so it cannot throw. The source has no `finally`, so a throwing closure leaves the scope pushed; that is not represented.
- Selection.FieldTypeName: a leaf of a wrapped type returns "", as in the source. The diagnostic that `printField` logs to the console is left out.
- Types.TypeNameForScalarType: `builtInScalarMap` is a plain JavaScript object; the model uses a map with exactly its four entries. Looking up a name inherited from the object prototype (such as `constructor`) is not modelled.
- Types.TypeNameForScalarType: `customScalarsPrefix` is always a string. An undefined prefix, which JavaScript would print as "undefined", is not modelled.
- JsStrings.Search: `search` takes a regular expression. The two patterns used (`gql"""` and `"""`) contain no metacharacters, so plain substring search is modelled.
- JsStrings.Split: only the one-character separators the source uses are modelled.
- Selection.LeafMembers: the contract states the length only. Element contents are in Selection.LeafMembersAt, because an elementwise ensures makes every caller's proof too costly.
- Selection.NestedMembers: as for LeafMembers; the contents are in Selection.NestedMembersAt.
- Selection.RootMembers: as for LeafMembers; the contents are in Selection.RootMembersAt.
- Selection.FieldTypeNames: as for LeafMembers; the contents are in Selection.FieldTypeNamesAt.
- `Object.values(context.operations)` follows the operations' insertion order, which is modelled as a sequence.
