/** What the projection changes, exactly: for every schema object, which values the output accepts
    in terms of the source alone, and when that is the same set. */
module SchemaExactness {
  import opened YamlTree
  import opened YamlNormalForm
  import opened SchemaMeaning

  ghost predicate Narrows(x: Node) {
    forall w :: Valid(V30, Convert(x), w) ==> Valid(V31, x, w)
  }

  /** Source and output accept the same values. */
  ghost predicate Preserves(x: Node) {
    forall w :: Valid(V31, x, w) <==> Valid(V30, Convert(x), w)
  }

  // ------------------------------------------------------------------ null markers

  predicate TypeNamesNull(m: Entries) { Type in m && m[Type].List? && NULL_NAME in m[Type].items }

  predicate EnumHasNull(m: Entries) { Enum in m && m[Enum].List? && Null in m[Enum].items }

  /** The source carries a mark that makes the output nullable: a null branch, "null" in a type list,
      null in an enum, or `nullable: true` itself, which 3.1 ignores. */
  predicate Marked(m: Entries) {
    HasNullBranch(m) || TypeNamesNull(m) || EnumHasNull(m) || NullableTrue(m)
  }

  lemma AnyOfStepMarks(m: Entries)
    ensures NullableTrue(StepAnyOf(m)) <==> NullableTrue(m) || HasNullBranch(m)
  {
    if AnyOf in m && m[AnyOf].List? {
      KeepAll(NotNullBranch(), m[AnyOf].items);
    }
  }

  lemma TypeStepMarks(m: Entries)
    requires !MultiType(m)
    ensures NullableTrue(StepType(m)) <==> NullableTrue(m) || TypeNamesNull(m)
  {
  }

  lemma EnumStepMarks(m: Entries)
    ensures NullableTrue(StepEnum(m)) <==> NullableTrue(m) || EnumHasNull(m)
  {
  }

  /** The output is nullable exactly when the source is marked. */
  lemma MarkedIffNullable(m: Entries)
    requires !MultiType(m)
    ensures NullableTrue(Local(m)) <==> Marked(m)
  {
    var a := StepAnyOf(m);
    var b := StepType(a);
    AnyOfStepMarks(m);
    AnyOfStepKeeps(m);
    assert SameAt(m, a, Type) && SameAt(m, a, Enum);
    TypeStepKeeps(a);
    assert SameAt(a, b, Enum);
    hide StepAnyOf, StepType, StepEnum, HasNullBranch, NullableTrue, Keep;
    TypeStepMarks(a);
    EnumStepMarks(b);
  }

  // ------------------------------------------------------------------ narrowing, keyword by keyword
  //
  // As before l stands for Local(m) and c for the entries of Convert(Dict(m)).

  lemma NarrowsType(m: Entries, l: Entries, c: Entries, v: Node)
    requires WellFormed(m) && TypeBecomes(m, l) && ChildrenConverted(l, c)
    requires !MultiType(m) && TypeOk(c, v)
    ensures TypeOk(Stripped(m), v)
  {
    if Type in m && m[Type].List? {
      var concrete := Keep(ConcreteType(), m[Type].items);
      if concrete != [] {
        assert concrete[0] in concrete;
      }
    }
  }

  lemma NarrowsEnum(m: Entries, l: Entries, c: Entries, v: Node)
    requires WellFormed(m) && EnumBecomes(m, l) && ChildrenConverted(l, c)
    requires EnumOk(c, v)
    ensures Enum in m ==> MemberSurvives(m[Enum].items, v)
  {
    if Enum in m {
      var rest := Keep(NotNull(), m[Enum].items);
      ConvertList(rest);
      var i :| 0 <= i < |rest| && Convert(rest[i]) == v;
      assert rest[i] in rest;
    }
  }

  lemma NarrowsBranches(m: Entries, l: Entries, c: Entries, v: Node)
    requires WellFormed(m) && BranchesBecome(m, l) && ChildrenConverted(l, c)
    requires forall x | Kept(m, x) :: Narrows(x)
    requires AnyOf in c && c[AnyOf].List? ==> SomeValid(V30, c[AnyOf].items, v)
    requires AllOf in c && c[AllOf].List? ==> AllValid(V30, c[AllOf].items, v)
    ensures AnyOf in m ==> SomeValid(V31, m[AnyOf].items, v)
    ensures AllOf in m && !AllOfOverwritten(m) ==> AllValid(V31, m[AllOf].items, v)
  {
    hide Valid, NullBranch, Convert;
    if AnyOf in m {
      var branches := m[AnyOf].items;
      var rest := Keep(NotNullBranch(), branches);
      ConvertList(rest);
      var i :| 0 <= i < |rest| && Valid(V30, Convert(rest[i]), v);
      assert rest[i] in rest;
      assert Kept(m, rest[i]);
      var j :| 0 <= j < |branches| && branches[j] == rest[i];
      assert Valid(V31, branches[j], v);
    }
    if AllOf in m && !AllOfOverwritten(m) {
      var all := m[AllOf].items;
      ConvertList(all);
      forall i | 0 <= i < |all| ensures Valid(V31, all[i], v) {
        assert Kept(m, all[i]);
        assert Valid(V30, c[AllOf].items[i], v);
      }
    }
  }

  lemma NarrowsMembers(p: Entries -> bool, m: Entries, l: Entries, c: Entries, v: Node)
    requires EverySchema(p, Dict(m)) && SameAt(m, l, Properties) && SameAt(m, l, Items)
    requires ChildrenConverted(l, c) && forall x | Kept(m, x) :: Narrows(x)
    requires MembersOk(V30, c, v)
    ensures MembersOk(V31, m, v)
  {
    hide AllOfOverwritten;
    if Items in m {
      assert Kept(m, m[Items]);
    }
    if Properties in m {
      var props := m[Properties].entries;
      PropertiesAreNotRewritten(p, props);
      ConvertDict(props);
      forall k | k in props ensures Narrows(props[k]) {
        assert Kept(m, props[k]);
      }
    }
  }

  /** Apart from null on a nullable node, the output accepts no more than the residue. */
  lemma ResidueAcceptsOutput(m: Entries, l: Entries, c: Entries, v: Node)
    requires IsSchema(Dict(m)) && !MultiType(m)
    requires l == Local(m) && ChildrenConverted(l, c)
    requires forall x | Kept(m, x) :: Narrows(x)
    requires Valid(V30, Dict(c), v) && !NullableAdmits(V30, c, v)
    ensures Valid(V31, Dict(Residue(m)), v)
  {
    hide Valid, Local, Stripped, Residue, Kept, TypeOk, EnumOk, SomeValid, AllValid, MembersOk, Keep, AllOfOverwritten;
    ValidIsKeywords(V31, Residue(m), v);
    ValidIsKeywords(V30, c, v);
    ResidueKeywords(V31, m, v);
    LocalType(m);
    LocalEnum(m);
    LocalBranches(m);
    LocalKeeps(m);
    NarrowsType(m, l, c, v);
    NarrowsEnum(m, l, c, v);
    NarrowsBranches(m, l, c, v);
    NarrowsMembers(Any, m, l, c, v);
  }

  // ------------------------------------------------------------------ the output's meaning

  /** The exact meaning of the output in terms of the source: null if the source is marked, and
      whatever the source accepts once the dropped keywords are left away and its enum members read
      as what they become. */
  lemma OutputMeaning(m: Entries, v: Node)
    requires IsSchema(Dict(m)) && !Exits(Dict(m)) && forall x | Kept(m, x) :: Preserves(x)
    ensures Valid(V30, Convert(Dict(m)), v) <==> (Marked(m) && v == Null) || Valid(V31, Dict(Residue(m)), v)
  {
    var l, c := Local(m), Convert(Dict(m)).entries;
    ConvertDict(m);
    MarkedIffNullable(m);
    assert NullableTrue(c) <==> NullableTrue(l);
    assert NullableAdmits(V30, c, v) <==> Marked(m) && v == Null;
    hide Valid, Local, Convert, Marked, Kept, Residue;
    if Valid(V31, Dict(Residue(m)), v) {
      OutputAcceptsResidue(m, l, c, v);
    }
    ValidIsKeywords(V30, c, v);
    if Valid(V30, Dict(c), v) && !NullableAdmits(V30, c, v) {
      ResidueAcceptsOutput(m, l, c, v);
    }
  }

  /** A schema object is projected without loss: enum members that it accepts survive, null is
      accepted if it is marked, and the residue accepts nothing else. */
  ghost predicate Lossless(n: Node) {
    n.Dict? ==>
      && EnumSafe(n)
      && (Marked(n.entries) ==> Valid(V31, n, Null))
      && forall v :: Valid(V31, Dict(Residue(n.entries)), v) ==> Valid(V31, n, v)
  }

  /** With sub-schemas that are preserved, a schema object is preserved exactly when it is lossless. */
  lemma NodePreservesIff(m: Entries)
    requires IsSchema(Dict(m)) && !Exits(Dict(m)) && forall x | Kept(m, x) :: Preserves(x)
    ensures Preserves(Dict(m)) <==> Lossless(Dict(m))
  {
    hide Valid, Convert, Marked, Kept, Residue, EverySchema, Exits, EnumSafe;
    var n := Dict(m);
    forall v
      ensures Valid(V30, Convert(n), v) <==> (Marked(m) && v == Null) || Valid(V31, Dict(Residue(m)), v)
    {
      OutputMeaning(m, v);
    }
    NodeWidensIff(m);
    if Lossless(n) {
      assert Widens(n);
    }
  }

  /** The projection preserves validity at every schema object it keeps exactly when each of them is
      lossless. */
  lemma {:induction false} PreservesEverywhereIff(n: Node)
    requires IsSchema(n) && !Exits(n)
    ensures EveryKept(Preserves, n) <==> EveryKept(Lossless, n)
    decreases Depth(n)
  {
    if n.Dict? {
      var m := n.entries;
      forall x | Kept(m, x) ensures EveryKept(Preserves, x) <==> EveryKept(Lossless, x) {
        KeptIsSmaller(Any, m, x);
        PreservesEverywhereIff(x);
      }
      hide Kept, Lossless, Preserves;
      if forall x | Kept(m, x) :: EveryKept(Preserves, x) {
        assert forall x | Kept(m, x) :: Preserves(x);
        NodePreservesIff(m);
      }
    }
  }

  /** A condition read off the source: plain enum members, at least one concrete name in every type
      list, no overwritten allOf, and null accepted wherever it is marked. */
  predicate PlainlyLossless(m: Entries) {
    && EnumNormal(m)
    && (Type in m && m[Type].List? ==> Keep(ConcreteType(), m[Type].items) != [])
    && !(AllOfOverwritten(m) && AllOf in m)
    && (Marked(m) ==> Valid(V31, Dict(m), Null))
  }

  lemma NormalResidue(m: Entries)
    requires EnumNormal(m)
    ensures Residue(m) == Stripped(m)
  {
    hide AllOfOverwritten, Keep;
    if Enum in m && m[Enum].List? {
      assert Normal(m[Enum]);
      NormalIsFixed(m[Enum]);
      assert Enum in Stripped(m) && Stripped(m)[Enum] == m[Enum];
    }
  }

  lemma PlainlyLosslessNode(m: Entries)
    requires PlainlyLossless(m)
    ensures Lossless(Dict(m))
  {
    hide Valid, AllOfOverwritten, Keep, Marked, EnumNormal, EnumSafe;
    NormalResidue(m);
    NormalEnumIsSafe(m);
    assert Stripped(m) == m;
  }

  lemma {:induction false} PlainlyLosslessEverywhere(n: Node)
    requires EverySchema(PlainlyLossless, n) && !Exits(n)
    ensures EveryKept(Lossless, n)
    decreases Depth(n)
  {
    if n.Dict? {
      var m := n.entries;
      PlainlyLosslessNode(m);
      forall x | Kept(m, x) ensures EveryKept(Lossless, x) {
        KeptIsSmaller(PlainlyLossless, m, x);
        PlainlyLosslessEverywhere(x);
      }
    }
  }

  /** On plainly lossless schemas the 3.0 output accepts exactly what the 3.1 source accepts. */
  lemma ProjectionPreservesValidity(n: Node, v: Node)
    requires EverySchema(PlainlyLossless, n) && !Exits(n)
    ensures Valid(V31, n, v) <==> Valid(V30, Convert(n), v)
  {
    PlainlyLosslessEverywhere(n);
    WeakenToSchema(PlainlyLossless, n);
    PreservesEverywhereIff(n);
    assert Preserves(n);
  }

  // ------------------------------------------------------------------ what the output looks like

  /** The output is a schema of the fragment with single type names, no null branches and no null
      enum members: what a 3.0-only reader accepts. */
  lemma {:induction false} OutputIsPlainThreeZero(p: Entries -> bool, n: Node)
    requires EverySchema(p, n) && !Exits(n)
    ensures EverySchema(Settled, Convert(n))
    decreases Depth(n)
  {
    if n.Dict? {
      var m := n.entries;
      forall x | Kept(m, x) ensures EverySchema(Settled, Convert(x)) {
        KeptIsSmaller(p, m, x);
        OutputIsPlainThreeZero(p, x);
      }
      ConvertDict(m);
      LocalType(m);
      LocalEnum(m);
      LocalBranches(m);
      LocalKeeps(m);
      OutputNodeIsPlain(p, m, Local(m), Convert(n).entries);
    }
  }

  lemma OutputNodeIsPlain(p: Entries -> bool, m: Entries, l: Entries, c: Entries)
    requires EverySchema(p, Dict(m)) && !MultiType(m)
    requires l == Local(m) && ChildrenConverted(l, c)
    requires TypeBecomes(m, l) && EnumBecomes(m, l) && BranchesBecome(m, l)
    requires SameAt(m, l, Properties) && SameAt(m, l, Items)
    requires forall x | Kept(m, x) :: EverySchema(Settled, Convert(x))
    ensures EverySchema(Settled, Dict(c))
  {
    assert Type in l ==> l[Type].Str? by {
      if Type in m && m[Type].List? {
        var concrete := Keep(ConcreteType(), m[Type].items);
        if |concrete| == 1 { assert concrete[0] in concrete; }
      }
    }
    FlatTypeIff(m);
    LocalSettles(m);
    SettledChildrenConverted(l, c);
    PlainBranches(m, l, c);
    if Items in m { assert Kept(m, m[Items]); }
    if Properties in m {
      var props := m[Properties].entries;
      PropertiesAreNotRewritten(p, props);
      ConvertDict(props);
      forall k | k in props ensures EverySchema(Settled, c[Properties].entries[k]) {
        assert Kept(m, props[k]);
      }
    }
  }

  lemma PlainBranches(m: Entries, l: Entries, c: Entries)
    requires WellFormed(m) && BranchesBecome(m, l) && ChildrenConverted(l, c)
    requires forall x | Kept(m, x) :: EverySchema(Settled, Convert(x))
    ensures forall k | k in {AnyOf, AllOf} && k in c ::
              c[k].List? && forall i | 0 <= i < |c[k].items| :: EverySchema(Settled, c[k].items[i])
  {
    forall k | k in {AnyOf, AllOf} && k in c
      ensures c[k].List? && forall i | 0 <= i < |c[k].items| :: EverySchema(Settled, c[k].items[i])
    {
      ConvertList(l[k].items);
      forall i | 0 <= i < |c[k].items| ensures EverySchema(Settled, c[k].items[i]) {
        assert l[k].items[i] in l[k].items;
        assert Kept(m, l[k].items[i]);
      }
    }
  }
}
