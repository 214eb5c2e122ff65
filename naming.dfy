/**
 * Uniqueness of the declaration names `printField` synthesizes
 * (src/codeGeneration.ts): a composite field's declaration is named
 * `prefix_fieldName`, and its children extend that name in turn. The
 * declarations of one operation have distinct names when no field name
 * contains `_` and composite siblings select distinct fields; the two
 * collision lemmas show that names can clash otherwise.
 */
module Naming {
  import opened GraphQL
  import opened Selection

  /** The leading part of `s` up to its first underscore. */
  function Segment(s: string): (r: string)
    ensures '_' !in r
  {
    if s == [] || s[0] == '_' then [] else [s[0]] + Segment(s[1..])
  }

  /** A segment free of underscores is recovered whole, whatever follows an underscore after it. */
  lemma {:induction false} SegmentOf(c: string, t: string)
    requires '_' !in c
    requires t == [] || t[0] == '_'
    ensures Segment(c + t) == c
    decreases |c|
  {
    if c == [] {
      assert c + t == t;
    } else {
      assert (c + t)[0] == c[0] != '_';
      assert (c + t)[1..] == c[1..] + t;
      SegmentOf(c[1..], t);
      assert [c[0]] + c[1..] == c;
    }
  }

  /** `name` is synthesized beneath `base`: it continues `base` with an underscore. */
  predicate Beneath(name: string, base: string) {
    |base| + 1 <= |name| && name[..|base| + 1] == base + "_"
  }

  /** `name` is `base` itself or synthesized beneath it. */
  predicate Under(name: string, base: string) {
    name == base || Beneath(name, base)
  }

  /**
   * A name at or beneath the child `base_c` lies beneath `base`, and when
   * `c` holds no underscore its first segment there is `c`.
   */
  lemma UnderChild(name: string, base: string, c: string)
    requires Under(name, base + "_" + c)
    ensures Beneath(name, base)
    ensures '_' !in c ==> Segment(name[|base| + 1..]) == c
  {
    var child := base + "_" + c;
    assert name[..|child|] == child;
    assert name[..|base| + 1] == child[..|base| + 1] == base + "_";
    var t := name[|child|..];
    assert name[|base| + 1..] == c + t;
    if '_' !in c {
      SegmentOf(c, t);
    }
  }

  /**
   * Field names fit for the naming scheme: none contains an underscore,
   * and composite siblings have distinct field names, at every level.
   */
  predicate WellNamed(fs: seq<Field>)
    decreases fs
  {
    (forall i, j :: 0 <= i < j < |fs| && IsComposite(fs[i]) && IsComposite(fs[j]) ==>
       fs[i].fieldName != fs[j].fieldName) &&
    (forall k :: 0 <= k < |fs| ==> '_' !in fs[k].fieldName && WellNamed(fs[k].fields))
  }

  /** The field names of the composite fields among `fs`. */
  function CompositeNames(fs: seq<Field>): set<string> {
    set k | 0 <= k < |fs| && IsComposite(fs[k]) :: fs[k].fieldName
  }

  /** No two declarations share a name. */
  predicate DistinctNames(ds: seq<Decl>) {
    forall i, j :: 0 <= i < j < |ds| ==> ds[i].name != ds[j].name
  }

  /** Every declaration a field emits is named `prefix_fieldName` or lies beneath that name. */
  lemma {:induction false} FieldDeclsUnder(options: Options, prefix: string, f: Field)
    ensures forall i :: 0 <= i < |FieldDecls(options, prefix, f)| ==>
              Under(FieldDecls(options, prefix, f)[i].name, PathName(prefix, f))
    decreases f, 1
  {
    if IsComposite(f) {
      var name := PathName(prefix, f);
      var children := ListDecls(options, name, f.fields);
      ListDeclsUnder(options, name, f.fields);
      var ds := children + [NodeDecl(options, prefix, f)];
      forall i | 0 <= i < |ds|
        ensures Under(ds[i].name, name)
      {
        if i < |children| {
          assert ds[i] == children[i];
        }
      }
    }
  }

  /** Every declaration a list of sibling fields emits lies beneath `base`. */
  lemma {:induction false} ListDeclsUnder(options: Options, base: string, fs: seq<Field>)
    ensures forall i :: 0 <= i < |ListDecls(options, base, fs)| ==> Beneath(ListDecls(options, base, fs)[i].name, base)
    decreases fs, 0
  {
    if fs != [] {
      var init, last := fs[..|fs| - 1], fs[|fs| - 1];
      var before, own := ListDecls(options, base, init), FieldDecls(options, base, last);
      ListDeclsUnder(options, base, init);
      FieldDeclsUnder(options, base, last);
      var ds := before + own;
      forall i | 0 <= i < |ds|
        ensures Beneath(ds[i].name, base)
      {
        if i < |before| {
          assert ds[i] == before[i];
        } else {
          assert ds[i] == own[i - |before|];
          UnderChild(ds[i].name, base, last.fieldName);
        }
      }
    }
  }

  /**
   * Over well-named fields, the declarations a list of sibling fields
   * emits lie beneath `base`, each under the field name of one of the
   * composite siblings.
   */
  lemma {:induction false} ListDeclsBeneath(options: Options, base: string, fs: seq<Field>)
    requires WellNamed(fs)
    ensures forall i :: 0 <= i < |ListDecls(options, base, fs)| ==>
              Beneath(ListDecls(options, base, fs)[i].name, base) &&
              Segment(ListDecls(options, base, fs)[i].name[|base| + 1..]) in CompositeNames(fs)
    decreases fs
  {
    if fs != [] {
      var init, last := fs[..|fs| - 1], fs[|fs| - 1];
      assert WellNamed(init) by {
        forall k | 0 <= k < |init|
          ensures '_' !in init[k].fieldName && WellNamed(init[k].fields)
        {
          assert init[k] == fs[k];
        }
      }
      assert '_' !in last.fieldName;
      var before, own := ListDecls(options, base, init), FieldDecls(options, base, last);
      ListDeclsBeneath(options, base, init);
      FieldDeclsUnder(options, base, last);
      var ds := before + own;
      forall i | 0 <= i < |ds|
        ensures Beneath(ds[i].name, base) && Segment(ds[i].name[|base| + 1..]) in CompositeNames(fs)
      {
        if i < |before| {
          assert ds[i] == before[i];
          var s := Segment(ds[i].name[|base| + 1..]);
          var k :| 0 <= k < |init| && IsComposite(init[k]) && init[k].fieldName == s;
          assert fs[k] == init[k];
        } else {
          assert ds[i] == own[i - |before|];
          assert IsComposite(last);
          UnderChild(ds[i].name, base, last.fieldName);
          assert fs[|fs| - 1] == last;
        }
      }
    }
  }

  /** Two name lists each free of repeats, with no name in both, give a list free of repeats. */
  lemma DistinctAppend(a: seq<Decl>, b: seq<Decl>)
    requires DistinctNames(a) && DistinctNames(b)
    requires forall i, j :: 0 <= i < |a| && 0 <= j < |b| ==> a[i].name != b[j].name
    ensures DistinctNames(a + b)
  {
    var ds := a + b;
    forall i, j | 0 <= i < j < |ds|
      ensures ds[i].name != ds[j].name
    {
      if j < |a| {
        assert ds[i] == a[i] && ds[j] == a[j];
      } else if i < |a| {
        assert ds[i] == a[i] && ds[j] == b[j - |a|];
      } else {
        assert ds[i] == b[i - |a|] && ds[j] == b[j - |a|];
      }
    }
  }

  /** The declarations emitted beneath a name, then one carrying that name itself, are all named apart. */
  lemma ChildrenThenNode(base: string, children: seq<Decl>, node: Decl)
    requires DistinctNames(children)
    requires forall i :: 0 <= i < |children| ==> Beneath(children[i].name, base)
    requires node.name == base
    ensures DistinctNames(children + [node])
  {
    forall i, j | 0 <= i < |children| && 0 <= j < 1
      ensures children[i].name != [node][j].name
    {
      assert |children[i].name| > |base|;
    }
    DistinctAppend(children, [node]);
  }

  /** Over well-named fields, the declarations one field emits have distinct names. */
  lemma {:induction false} FieldDeclsDistinct(options: Options, prefix: string, f: Field)
    requires '_' !in f.fieldName && WellNamed(f.fields)
    ensures DistinctNames(FieldDecls(options, prefix, f))
    decreases f
  {
    if IsComposite(f) {
      var name := PathName(prefix, f);
      ListDeclsDistinct(options, name, f.fields);
      ListDeclsBeneath(options, name, f.fields);
      ChildrenThenNode(name, ListDecls(options, name, f.fields), NodeDecl(options, prefix, f));
    }
  }

  /** Over well-named fields, the declarations a list of siblings emits have distinct names. */
  lemma {:induction false} ListDeclsDistinct(options: Options, base: string, fs: seq<Field>)
    requires WellNamed(fs)
    ensures DistinctNames(ListDecls(options, base, fs))
    decreases fs
  {
    if fs != [] {
      var init, last := fs[..|fs| - 1], fs[|fs| - 1];
      assert WellNamed(init) by {
        forall k | 0 <= k < |init|
          ensures '_' !in init[k].fieldName && WellNamed(init[k].fields)
        {
          assert init[k] == fs[k];
        }
      }
      assert '_' !in last.fieldName && WellNamed(last.fields);
      var before, own := ListDecls(options, base, init), FieldDecls(options, base, last);
      ListDeclsDistinct(options, base, init);
      FieldDeclsDistinct(options, base, last);
      ListDeclsBeneath(options, base, init);
      FieldDeclsUnder(options, base, last);
      forall i, j | 0 <= i < |before| && 0 <= j < |own|
        ensures before[i].name != own[j].name
      {
        var s := Segment(before[i].name[|base| + 1..]);
        var k :| 0 <= k < |init| && IsComposite(init[k]) && init[k].fieldName == s;
        assert IsComposite(last);
        UnderChild(own[j].name, base, last.fieldName);
        assert fs[k] == init[k] && k < |fs| - 1;
      }
      DistinctAppend(before, own);
    }
  }

  /**
   * Over well-named fields, every declaration of an operation's result,
   * the root included, has a name of its own.
   */
  lemma ResultDeclsDistinct(options: Options, objectName: string, fs: seq<Field>)
    requires WellNamed(fs)
    ensures DistinctNames(ResultDecls(options, objectName, fs))
  {
    ListDeclsDistinct(options, objectName, fs);
    ListDeclsBeneath(options, objectName, fs);
    ChildrenThenNode(objectName, ListDecls(options, objectName, fs),
                     Decl(objectName, RootMembers(options, objectName, fs)));
  }

  /** `base_hero_friends` read two ways. */
  lemma HeroFriendsName(base: string)
    ensures base + "_" + "hero" + "_" + "friends" == base + "_" + "hero_friends"
  {
    assert "hero" + "_" + "friends" == "hero_friends";
    assert base + "_" + "hero" + "_" + "friends" == base + "_" + ("hero" + "_" + "friends");
  }

  /**
   * Without the conditions names collide. A field `hero_friends` next to a
   * field `hero` selecting `friends` yields two declarations named
   * `{objectName}_hero_friends`.
   */
  lemma UnderscoreNamesCollide(options: Options, objectName: string, t: GqlType)
    ensures var leaf := Field("id", "id", t, []);
            var fs := [Field("hero", "hero", t, [Field("friends", "friends", t, [leaf])]),
                       Field("hero_friends", "hero_friends", t, [leaf])];
            !DistinctNames(ResultDecls(options, objectName, fs))
  {
    var leaf := Field("id", "id", t, []);
    var friends := Field("friends", "friends", t, [leaf]);
    var hero := Field("hero", "hero", t, [friends]);
    var other := Field("hero_friends", "hero_friends", t, [leaf]);
    var fs := [hero, other];
    var inner := FieldDecls(options, PathName(objectName, hero), friends);
    assert ListDecls(options, PathName(objectName, hero), [friends]) == inner by {
      assert [friends][..0] == [];
    }
    assert ListDecls(options, PathName(PathName(objectName, hero), friends), [leaf]) == [] by {
      assert [leaf][..0] == [];
    }
    assert inner[0].name == PathName(PathName(objectName, hero), friends);
    var heroDecls := FieldDecls(options, objectName, hero);
    assert heroDecls[0].name == inner[0].name;
    var otherDecls := FieldDecls(options, objectName, other);
    assert otherDecls[|otherDecls| - 1].name == PathName(objectName, other);
    assert ListDecls(options, objectName, fs) == heroDecls + otherDecls by {
      assert fs[..1] == [hero];
      assert ListDecls(options, objectName, [hero]) == heroDecls by {
        assert [hero][..0] == [];
      }
    }
    var ds := ResultDecls(options, objectName, fs);
    HeroFriendsName(objectName);
    assert ds[0].name == ds[|heroDecls| + |otherDecls| - 1].name;
  }

  /**
   * Aliases do not separate names: two composite siblings selecting the
   * same field under different response names both declare
   * `{objectName}_hero`.
   */
  lemma AliasedSiblingsCollide(options: Options, objectName: string, t: GqlType)
    ensures var leaf := Field("id", "id", t, []);
            var fs := [Field("first", "hero", t, [leaf]), Field("second", "hero", t, [leaf])];
            !DistinctNames(ResultDecls(options, objectName, fs))
  {
    var leaf := Field("id", "id", t, []);
    var a, b := Field("first", "hero", t, [leaf]), Field("second", "hero", t, [leaf]);
    var fs := [a, b];
    var aDecls, bDecls := FieldDecls(options, objectName, a), FieldDecls(options, objectName, b);
    assert ListDecls(options, objectName, fs) == aDecls + bDecls by {
      assert fs[..1] == [a];
      assert ListDecls(options, objectName, [a]) == aDecls by {
        assert [a][..0] == [];
      }
    }
    assert aDecls[|aDecls| - 1].name == PathName(objectName, a) == PathName(objectName, b);
    var ds := ResultDecls(options, objectName, fs);
    assert ds[|aDecls| - 1].name == ds[|aDecls| + |bDecls| - 1].name;
  }
}
