/**
 * The pure side of the selection-tree synthesizer in src/codeGeneration.ts:
 * which fields are composite, the names `printField` computes, and the
 * declarations it emits, as values. The printing methods in module
 * CodeGeneration are proved to print exactly these declarations.
 */
module Selection {
  import opened GraphQL
  import opened Types

  /** A field with a non-empty child selection; every other field is a leaf. */
  predicate IsComposite(f: Field) {
    |f.fields| > 0
  }

  /** The composite fields of `fs`, in selection order. */
  function Composites(fs: seq<Field>): (r: seq<Field>)
    ensures forall k :: 0 <= k < |r| ==> r[k] in fs && IsComposite(r[k])
    ensures |r| <= |fs|
  {
    if fs == [] then []
    else Composites(fs[..|fs| - 1]) + (if IsComposite(fs[|fs| - 1]) then [fs[|fs| - 1]] else [])
  }

  /** The leaf fields of `fs`, in selection order. */
  function Leaves(fs: seq<Field>): (r: seq<Field>)
    ensures forall k :: 0 <= k < |r| ==> r[k] in fs && !IsComposite(r[k])
    ensures |r| + |Composites(fs)| == |fs|
  {
    if fs == [] then []
    else Leaves(fs[..|fs| - 1]) + (if IsComposite(fs[|fs| - 1]) then [] else [fs[|fs| - 1]])
  }

  /** Composites of one field: the field itself when it is composite, nothing otherwise. */
  lemma CompositesSingle(f: Field)
    ensures Composites([f]) == if IsComposite(f) then [f] else []
  {
    assert [f][..0] == [];
  }

  /** Composites distributes over concatenation, so the composites keep their selection order. */
  lemma {:induction false} CompositesAppend(a: seq<Field>, b: seq<Field>)
    ensures Composites(a + b) == Composites(a) + Composites(b)
    decreases |b|
  {
    if b == [] {
      assert a + b == a;
    } else {
      var b' := b[..|b| - 1];
      assert (a + b)[..|a + b| - 1] == a + b';
      assert (a + b)[|a + b| - 1] == b[|b| - 1];
      CompositesAppend(a, b');
    }
  }

  /** Leaves of one field: the field itself when it is a leaf, nothing otherwise. */
  lemma LeavesSingle(f: Field)
    ensures Leaves([f]) == if IsComposite(f) then [] else [f]
  {
    assert [f][..0] == [];
  }

  /** Leaves distributes over concatenation, so the leaves keep their selection order. */
  lemma {:induction false} LeavesAppend(a: seq<Field>, b: seq<Field>)
    ensures Leaves(a + b) == Leaves(a) + Leaves(b)
    decreases |b|
  {
    if b == [] {
      assert a + b == a;
    } else {
      var b' := b[..|b| - 1];
      assert (a + b)[..|a + b| - 1] == a + b';
      assert (a + b)[|a + b| - 1] == b[|b| - 1];
      LeavesAppend(a, b');
    }
  }

  /** One member line of a declaration: its name, its Julia type, and the nested declaration that type names, if any. */
  datatype Member = Member(name: string, typeName: string, ref: Option<string>)

  /** One `const Name = @NamedTuple begin … end` declaration. */
  datatype Decl = Decl(name: string, members: seq<Member>)

  /** The name of the declaration synthesized for field `f` under `prefix`. */
  function PathName(prefix: string, f: Field): string {
    prefix + "_" + f.fieldName
  }

  /**
   * What `printField(prefix, field)` returns: the synthesized declaration
   * name for a composite field, the resolved type for a leaf of a named
   * type, and the empty string for a leaf whose type is wrapped.
   */
  function FieldTypeName(options: Options, prefix: string, f: Field): (r: string)
    ensures IsComposite(f) ==> r == PathName(prefix, f)
  {
    if IsComposite(f) then PathName(prefix, f)
    else if f.fieldType.Named? then TypeName(options, f.fieldType, None, None, None)
    else ""
  }

  /** What `printField` returns for each of `fs`, in order. */
  function FieldTypeNames(options: Options, prefix: string, fs: seq<Field>): (r: seq<string>)
    ensures |r| == |fs|
  {
    if fs == [] then [] else FieldTypeNames(options, prefix, fs[..|fs| - 1]) + [FieldTypeName(options, prefix, fs[|fs| - 1])]
  }

  lemma {:induction false} FieldTypeNamesAt(options: Options, prefix: string, fs: seq<Field>, k: nat)
    requires k < |fs|
    ensures FieldTypeNames(options, prefix, fs)[k] == FieldTypeName(options, prefix, fs[k])
    decreases |fs|
  {
    if k < |fs| - 1 {
      FieldTypeNamesAt(options, prefix, fs[..|fs| - 1], k);
    }
  }

  /** Members for leaf children: the full resolution of each child's type. */
  function LeafMembers(options: Options, fs: seq<Field>): (r: seq<Member>)
    ensures |r| == |fs|
  {
    if fs == [] then []
    else
      var f := fs[|fs| - 1];
      LeafMembers(options, fs[..|fs| - 1]) + [Member(f.fieldName, TypeName(options, f.fieldType, None, None, None), None)]
  }

  /**
   * Members for composite children: each child's type resolved with the
   * child's synthesized declaration name as bare type name.
   */
  function NestedMembers(options: Options, parentName: string, fs: seq<Field>): (r: seq<Member>)
    ensures |r| == |fs|
  {
    if fs == [] then []
    else
      var f := fs[|fs| - 1];
      var n := FieldTypeName(options, parentName, f);
      NestedMembers(options, parentName, fs[..|fs| - 1]) +
        [Member(f.fieldName, TypeName(options, f.fieldType, Some(n), None, None), Some(n))]
  }

  /** The declaration of composite field `f`: leaf children first, then composite children, each in selection order. */
  function NodeDecl(options: Options, prefix: string, f: Field): Decl {
    var name := PathName(prefix, f);
    Decl(name, LeafMembers(options, Leaves(f.fields)) + NestedMembers(options, name, Composites(f.fields)))
  }

  /**
   * The declarations `printField(prefix, f)` emits, in emission order:
   * those of the composite children (under the new name) and then the
   * field's own; nothing for a leaf.
   */
  function FieldDecls(options: Options, prefix: string, f: Field): (r: seq<Decl>)
    ensures r != [] <==> IsComposite(f)
    ensures r != [] ==> r[|r| - 1].name == PathName(prefix, f)
    decreases f
  {
    if IsComposite(f) then ListDecls(options, PathName(prefix, f), f.fields) + [NodeDecl(options, prefix, f)]
    else []
  }

  /** The declarations emitted for the fields `fs` under `prefix`, one field after the other. */
  function ListDecls(options: Options, prefix: string, fs: seq<Field>): (r: seq<Decl>)
    ensures r != [] <==> Composites(fs) != []
    decreases fs
  {
    if fs == [] then []
    else ListDecls(options, prefix, fs[..|fs| - 1]) + FieldDecls(options, prefix, fs[|fs| - 1])
  }

  /** Members of the root Result declaration: every root field, typed by what `printField` returned for it. */
  function RootMembers(options: Options, objectName: string, fs: seq<Field>): (r: seq<Member>)
    ensures |r| == |fs|
  {
    if fs == [] then []
    else
      var f := fs[|fs| - 1];
      RootMembers(options, objectName, fs[..|fs| - 1]) +
        [Member(f.fieldName, FieldTypeName(options, objectName, f),
                if IsComposite(f) then Some(PathName(objectName, f)) else None)]
  }

  /** The declarations of one operation's result: every nested one, then the root `objectName` declaration. */
  function ResultDecls(options: Options, objectName: string, fs: seq<Field>): (r: seq<Decl>)
    ensures |r| > 0 && r[|r| - 1].name == objectName && |r[|r| - 1].members| == |fs|
  {
    ListDecls(options, objectName, fs) + [Decl(objectName, RootMembers(options, objectName, fs))]
  }

  // ---------------------------------------------------------------------
  // Rendering declarations as lines.

  function DeclHeader(name: string): string {
    "const " + name + " = @NamedTuple begin"
  }

  function MemberLine(m: Member): string {
    "  " + m.name + "::" + m.typeName
  }

  function MemberLines(ms: seq<Member>): (r: seq<string>)
    ensures |r| == |ms|
    ensures forall k :: 0 <= k < |ms| ==> r[k] == MemberLine(ms[k])
  {
    if ms == [] then [] else MemberLines(ms[..|ms| - 1]) + [MemberLine(ms[|ms| - 1])]
  }

  lemma MemberLinesSnoc(ms: seq<Member>, m: Member)
    ensures MemberLines(ms + [m]) == MemberLines(ms) + [MemberLine(m)]
  {
    assert (ms + [m])[..|ms|] == ms;
  }

  lemma MemberLinesAppend(a: seq<Member>, b: seq<Member>)
    ensures MemberLines(a + b) == MemberLines(a) + MemberLines(b)
  {
    assert forall k :: 0 <= k < |b| ==> (a + b)[|a| + k] == b[k];
  }

  function DeclLines(d: Decl): seq<string> {
    [DeclHeader(d.name)] + MemberLines(d.members) + ["end\n"]
  }

  function DeclsLines(ds: seq<Decl>): seq<string> {
    if ds == [] then [] else DeclsLines(ds[..|ds| - 1]) + DeclLines(ds[|ds| - 1])
  }

  lemma DeclsLinesSingle(d: Decl)
    ensures DeclsLines([d]) == [DeclHeader(d.name)] + MemberLines(d.members) + ["end\n"]
  {
    assert [d][..0] == [];
  }

  lemma {:induction false} DeclsLinesAppend(a: seq<Decl>, b: seq<Decl>)
    ensures DeclsLines(a + b) == DeclsLines(a) + DeclsLines(b)
    decreases |b|
  {
    if b != [] {
      var b' := b[..|b| - 1];
      assert (a + b)[..|a + b| - 1] == a + b';
      DeclsLinesAppend(a, b');
    } else {
      assert a + b == a;
    }
  }

  lemma ListDeclsSnoc(options: Options, prefix: string, fs: seq<Field>, i: nat)
    requires i < |fs|
    ensures ListDecls(options, prefix, fs[..i + 1]) == ListDecls(options, prefix, fs[..i]) + FieldDecls(options, prefix, fs[i])
  {
    assert fs[..i + 1][..i] == fs[..i];
  }

  /** Leaves contribute no declarations, so only the composite fields matter. */
  lemma {:induction false} ListDeclsOfComposites(options: Options, prefix: string, fs: seq<Field>)
    ensures ListDecls(options, prefix, Composites(fs)) == ListDecls(options, prefix, fs)
    decreases |fs|
  {
    if fs != [] {
      var init, last := fs[..|fs| - 1], fs[|fs| - 1];
      ListDeclsOfComposites(options, prefix, init);
      if IsComposite(last) {
        var cs := Composites(init) + [last];
        assert cs[..|cs| - 1] == Composites(init);
      } else {
        assert Composites(fs) == Composites(init);
      }
    }
  }

  // ---------------------------------------------------------------------
  // What the emitted declarations promise.

  lemma {:induction false} LeafMembersAt(options: Options, fs: seq<Field>, k: nat)
    requires k < |fs|
    ensures LeafMembers(options, fs)[k] == Member(fs[k].fieldName, TypeName(options, fs[k].fieldType, None, None, None), None)
    decreases |fs|
  {
    if k < |fs| - 1 {
      LeafMembersAt(options, fs[..|fs| - 1], k);
    }
  }

  lemma {:induction false} NestedMembersAt(options: Options, parentName: string, fs: seq<Field>, k: nat)
    requires k < |fs|
    ensures var n := FieldTypeName(options, parentName, fs[k]);
            NestedMembers(options, parentName, fs)[k]
            == Member(fs[k].fieldName, TypeName(options, fs[k].fieldType, Some(n), None, None), Some(n))
    decreases |fs|
  {
    if k < |fs| - 1 {
      NestedMembersAt(options, parentName, fs[..|fs| - 1], k);
    }
  }

  lemma {:induction false} RootMembersAt(options: Options, objectName: string, fs: seq<Field>, k: nat)
    requires k < |fs|
    ensures RootMembers(options, objectName, fs)[k]
         == Member(fs[k].fieldName, FieldTypeName(options, objectName, fs[k]),
                   if IsComposite(fs[k]) then Some(PathName(objectName, fs[k])) else None)
    decreases |fs|
  {
    if k < |fs| - 1 {
      RootMembersAt(options, objectName, fs[..|fs| - 1], k);
    }
  }

  /** Splitting the children into leaves and composites loses and duplicates nothing. */
  lemma {:induction false} LeavesAndCompositesPartition(fs: seq<Field>)
    ensures multiset(Leaves(fs)) + multiset(Composites(fs)) == multiset(fs)
    decreases |fs|
  {
    if fs != [] {
      var init := fs[..|fs| - 1];
      LeavesAndCompositesPartition(init);
      assert fs == init + [fs[|fs| - 1]];
    }
  }

  /**
   * A composite field's declaration has one member per selected child:
   * the leaves first, then the composites, each group in selection order.
   */
  lemma NodeDeclMembers(options: Options, prefix: string, f: Field)
    ensures var d := NodeDecl(options, prefix, f);
            var leaves, composites := Leaves(f.fields), Composites(f.fields);
            |d.members| == |f.fields| &&
            (forall k :: 0 <= k < |leaves| ==> d.members[k].name == leaves[k].fieldName && d.members[k].ref.None?) &&
            (forall k :: 0 <= k < |composites| ==>
               d.members[|leaves| + k].name == composites[k].fieldName &&
               d.members[|leaves| + k].ref == Some(PathName(PathName(prefix, f), composites[k])))
  {
    var leaves, composites := Leaves(f.fields), Composites(f.fields);
    forall k | 0 <= k < |leaves| {
      LeafMembersAt(options, leaves, k);
    }
    forall k | 0 <= k < |composites| {
      NestedMembersAt(options, PathName(prefix, f), composites, k);
    }
  }

  /**
   * The member of a composite child is typed by the child's synthesized
   * declaration name in place of its schema type name, keeping the
   * child's list and nullability wrappers.
   */
  lemma NestedMemberUsesDeclarationName(options: Options, parentName: string, fs: seq<Field>, k: nat)
    requires k < |fs| && IsComposite(fs[k])
    requires !NamedTypeOf(fs[k].fieldType).kind.Scalar?
    ensures var c := fs[k];
            NestedMembers(options, parentName, fs)[k].typeName
            == Nullable(options, Rename(c.fieldType, PathName(parentName, c)), None)
  {
    var c := fs[k];
    NestedMembersAt(options, parentName, fs, k);
    BareTypeNameReplacesSchemaName(options, c.fieldType, PathName(parentName, c), None, None);
  }

  /**
   * A member of the root declaration is typed by what `printField`
   * returned: the bare declaration name for a composite field, whatever
   * its nullability; the resolved type for a leaf of a named type; and
   * the empty string for a leaf whose type is a list or non-null.
   */
  lemma RootMemberTypes(options: Options, objectName: string, fs: seq<Field>, k: nat)
    requires k < |fs|
    ensures var m, f := RootMembers(options, objectName, fs)[k], fs[k];
            m.name == f.fieldName &&
            (IsComposite(f) ==> m.typeName == PathName(objectName, f) && m.ref == Some(m.typeName)) &&
            (!IsComposite(f) && f.fieldType.Named? ==>
               m.typeName == Nullable(options, f.fieldType, None) && m.ref.None?) &&
            (!IsComposite(f) && !f.fieldType.Named? ==> m.typeName == "" && m.ref.None?)
  {
    RootMembersAt(options, objectName, fs, k);
  }

  /** `ds` declares a constant called `name`. */
  predicate Declares(ds: seq<Decl>, name: string) {
    exists j :: 0 <= j < |ds| && ds[j].name == name
  }

  /**
   * Every declaration a member refers to is declared before the
   * declaration holding that member, as Julia requires of constants.
   */
  predicate RefsResolveEarlier(ds: seq<Decl>) {
    forall i, m :: 0 <= i < |ds| && m in ds[i].members && m.ref.Some? ==> Declares(ds[..i], m.ref.value)
  }

  lemma RefsResolveEarlierAppend(a: seq<Decl>, b: seq<Decl>)
    requires RefsResolveEarlier(a) && RefsResolveEarlier(b)
    ensures RefsResolveEarlier(a + b)
  {
    forall i, m | 0 <= i < |a + b| && m in (a + b)[i].members && m.ref.Some?
      ensures Declares((a + b)[..i], m.ref.value)
    {
      if i < |a| {
        assert (a + b)[..i] == a[..i];
      } else {
        var i' := i - |a|;
        assert b[i'] == (a + b)[i];
        var j :| 0 <= j < i' && b[..i'][j].name == m.ref.value;
        assert (a + b)[..i][|a| + j] == b[..i'][j];
      }
    }
  }

  /** The declarations emitted for `fs` include the own declaration of each composite field of `fs`. */
  lemma {:induction false} ListDeclsDeclaresComposites(options: Options, prefix: string, fs: seq<Field>, k: nat)
    requires k < |fs| && IsComposite(fs[k])
    ensures Declares(ListDecls(options, prefix, fs), PathName(prefix, fs[k]))
    decreases |fs|
  {
    var init, last := fs[..|fs| - 1], fs[|fs| - 1];
    if k < |fs| - 1 {
      ListDeclsDeclaresComposites(options, prefix, init, k);
      var j :| 0 <= j < |ListDecls(options, prefix, init)| && ListDecls(options, prefix, init)[j].name == PathName(prefix, fs[k]);
      assert ListDecls(options, prefix, fs)[j] == ListDecls(options, prefix, init)[j];
    } else {
      var fd := FieldDecls(options, prefix, last);
      assert fd[|fd| - 1] == NodeDecl(options, prefix, last);
      var ds := ListDecls(options, prefix, init) + fd;
      assert ds == ListDecls(options, prefix, fs);
      assert ds[|ds| - 1] == fd[|fd| - 1];
    }
  }

  /** A composite field's declarations come in post-order: every reference points backwards. */
  lemma {:induction false} FieldDeclsPostOrder(options: Options, prefix: string, f: Field)
    ensures RefsResolveEarlier(FieldDecls(options, prefix, f))
    decreases f
  {
    if IsComposite(f) {
      var name := PathName(prefix, f);
      var children := ListDecls(options, name, f.fields);
      var node := NodeDecl(options, prefix, f);
      ListDeclsPostOrder(options, name, f.fields);
      var ds := children + [node];
      assert ds[..|children|] == children;
      forall i, m | 0 <= i < |ds| && m in ds[i].members && m.ref.Some?
        ensures Declares(ds[..i], m.ref.value)
      {
        if i < |children| {
          assert ds[..i] == children[..i];
        } else {
          NodeRefsDeclared(options, prefix, f, m);
        }
      }
    }
  }

  /** A reference held by a composite field's own declaration names one of the declarations emitted before it. */
  lemma NodeRefsDeclared(options: Options, prefix: string, f: Field, m: Member)
    requires m in NodeDecl(options, prefix, f).members && m.ref.Some?
    ensures Declares(ListDecls(options, PathName(prefix, f), f.fields), m.ref.value)
  {
    var name := PathName(prefix, f);
    var leaves, composites := Leaves(f.fields), Composites(f.fields);
    var leafMembers, nestedMembers := LeafMembers(options, leaves), NestedMembers(options, name, composites);
    var members := NodeDecl(options, prefix, f).members;
    assert members == leafMembers + nestedMembers;
    var i :| 0 <= i < |members| && members[i] == m;
    if i < |leafMembers| {
      LeafMembersAt(options, leaves, i);
      assert false;
    } else {
      var k := i - |leafMembers|;
      assert nestedMembers[k] == m;
      NestedMembersAt(options, name, composites, k);
      assert IsComposite(composites[k]);
      assert m.ref == Some(PathName(name, composites[k]));
      ListDeclsDeclaresComposites(options, name, composites, k);
      ListDeclsOfComposites(options, name, f.fields);
    }
  }

  /** The declarations emitted for a list of fields come in post-order. */
  lemma {:induction false} ListDeclsPostOrder(options: Options, prefix: string, fs: seq<Field>)
    ensures RefsResolveEarlier(ListDecls(options, prefix, fs))
    decreases fs
  {
    if fs != [] {
      var init, last := fs[..|fs| - 1], fs[|fs| - 1];
      ListDeclsPostOrder(options, prefix, init);
      FieldDeclsPostOrder(options, prefix, last);
      RefsResolveEarlierAppend(ListDecls(options, prefix, init), FieldDecls(options, prefix, last));
    }
  }

  /**
   * The declarations of one operation's result come in post-order and
   * end with the root declaration, which has one member per root field.
   */
  lemma ResultDeclsPostOrder(options: Options, objectName: string, fs: seq<Field>)
    ensures var ds := ResultDecls(options, objectName, fs);
            RefsResolveEarlier(ds) && ds[|ds| - 1].name == objectName && |ds[|ds| - 1].members| == |fs|
  {
    var nested := ListDecls(options, objectName, fs);
    var root := Decl(objectName, RootMembers(options, objectName, fs));
    ListDeclsPostOrder(options, objectName, fs);
    var ds := nested + [root];
    forall i, m | 0 <= i < |ds| && m in ds[i].members && m.ref.Some?
      ensures Declares(ds[..i], m.ref.value)
    {
      if i < |nested| {
        assert ds[..i] == nested[..i];
      } else {
        var k :| 0 <= k < |fs| && root.members[k] == m;
        RootMembersAt(options, objectName, fs, k);
        ListDeclsDeclaresComposites(options, objectName, fs, k);
        var j :| 0 <= j < |nested| && nested[j].name == m.ref.value;
        assert ds[..i][j] == nested[j];
      }
    }
  }
}
