/** The ways the projection loses information, each as an equivalence over a whole family of schemas,
    with a concrete member of the family as witness. */
module SchemaLosses {
  import opened YamlTree
  import opened YamlNormalForm
  import opened SchemaMeaning
  import opened SchemaExactness

  // ------------------------------------------------------------------ type lists

  lemma OnlyNullNames(names: seq<Node>)
    requires Keep(ConcreteType(), names) == []
    ensures forall t | t in names :: t == NULL_NAME
  {
    forall t | t in names ensures t == NULL_NAME {
      assert !ConcreteType()(t);
    }
  }

  lemma TypeOnlyExits(names: seq<Node>)
    requires (forall t | t in names :: t.Str?) && |Keep(ConcreteType(), names)| <= 1
    ensures !Exits(Dict(map[Type := List(names)]))
  {
    var m: Entries := map[Type := List(names)];
    LocalType(m);
    LocalBranches(m);
    LocalEnum(m);
    forall k | k in Local(m) ensures !Exits(Local(m)[k]) {
      if k == Type {
        var concrete := Keep(ConcreteType(), names);
        assert concrete[0] in concrete;
      } else {
        LocalOther(m, k);
      }
    }
    assert !MultiType(m);
    hide Local, StepAnyOf, StepType, StepEnum, Keep;
  }

  lemma TypeOnly(names: seq<Node>)
    requires forall t | t in names :: t.Str?
    ensures
      var m: Entries := map[Type := List(names)];
      && IsSchema(Dict(m)) && (forall x :: !Kept(m, x))
      && (forall v :: Valid(V31, Dict(m), v) <==> TypeOk(m, v))
  {
    hide TypeOk, Keep;
  }

  /** `type: names` alone is projected without loss exactly when it lists one concrete name. */
  lemma TypeListPreservesIff(names: seq<Node>)
    requires (forall t | t in names :: t.Str?) && |Keep(ConcreteType(), names)| <= 1
    ensures Preserves(Dict(map[Type := List(names)])) <==> |Keep(ConcreteType(), names)| == 1
  {
    hide Preserves, Valid, EverySchema, Exits, Lossless, Kept, Keep;
    TypeOnly(names);
    TypeOnlyExits(names);
    NodePreservesIff(map[Type := List(names)]);
    TypeListLosslessIff(names);
  }

  lemma TypeListLosslessIff(names: seq<Node>)
    requires (forall t | t in names :: t.Str?) && |Keep(ConcreteType(), names)| <= 1
    ensures Lossless(Dict(map[Type := List(names)])) <==> |Keep(ConcreteType(), names)| == 1
  {
    hide Keep, Lossless;
    if Keep(ConcreteType(), names) == [] {
      NoConcreteNameIsLossy(names);
    } else {
      OneConcreteNameIsLossless(names);
    }
  }

  lemma NoConcreteNameIsLossy(names: seq<Node>)
    requires (forall t | t in names :: t.Str?) && Keep(ConcreteType(), names) == []
    ensures !Lossless(Dict(map[Type := List(names)]))
  {
    var m: Entries := map[Type := List(names)];
    TypeOnly(names);
    OnlyNullNames(names);
    hide Valid, EverySchema, Kept, AllOfOverwritten, Marked;
    assert Type in Dropped(m);
    assert Residue(m) == map[];
    AcceptsEverything(Str("x"));
    assert !TypeOk(m, Str("x"));
  }

  lemma OneConcreteNameIsLossless(names: seq<Node>)
    requires (forall t | t in names :: t.Str?) && Keep(ConcreteType(), names) != []
    ensures Lossless(Dict(map[Type := List(names)]))
  {
    var m: Entries := map[Type := List(names)];
    TypeOnly(names);
    hide Valid, EverySchema, Kept, Keep;
    assert Residue(m) == m;
    assert Marked(m) ==> TypeOk(m, Null);
  }

  lemma AcceptsEverything(v: Node)
    ensures Valid(V31, Dict(map[]), v)
  {
  }

  // ------------------------------------------------------------------ typed enums

  lemma TypedEnumExits(name: string, members: seq<Node>)
    requires forall x | x in members :: Normal(x)
    ensures !Exits(Dict(map[Type := Str(name), Enum := List(members)]))
  {
    var m: Entries := map[Type := Str(name), Enum := List(members)];
    LocalType(m);
    LocalEnum(m);
    hide Local, StepAnyOf, StepType, StepEnum;
    var rest := Keep(NotNull(), members);
    forall k | k in Local(m) ensures !Exits(Local(m)[k]) {
      if k == Enum {
        assert forall i | 0 <= i < |rest| :: rest[i] in rest;
        NormalIsFixed(List(rest));
      } else if k != Type {
        LocalOtherKey(m, k);
      }
    }
  }

  lemma TypedEnum(name: string, members: seq<Node>)
    requires forall x | x in members :: Normal(x)
    ensures
      var m: Entries := map[Type := Str(name), Enum := List(members)];
      && IsSchema(Dict(m)) && (forall x :: !Kept(m, x))
      && (forall v :: Valid(V31, Dict(m), v) <==> HasType(v, name) && v in members)
  {
    hide Normal;
  }

  lemma LocalOtherKey(m: Entries, k: Key)
    requires m.Keys == {Type, Enum} && k in Local(m) && k !in m
    ensures Local(m)[k] == Bool(true)
  {
    LocalBranches(m);
    if k !in {AnyOf, AllOf} {
      LocalOther(m, k);
    }
  }

  /** A typed enum is projected without loss exactly when null is a member only of a null type. */
  lemma TypedEnumPreservesIff(name: string, members: seq<Node>)
    requires forall x | x in members :: Normal(x)
    ensures
      Preserves(Dict(map[Type := Str(name), Enum := List(members)])) <==> (Null in members ==> name == "null")
  {
    var m: Entries := map[Type := Str(name), Enum := List(members)];
    TypedEnum(name, members);
    TypedEnumExits(name, members);
    NodePreservesIff(m);
    hide Preserves, Valid, EverySchema, Exits;
    NormalResidue(m);
    NormalEnumIsSafe(m);
    hide EnumSafe;
    assert Residue(m) == m;
    assert Marked(m) <==> Null in members;
  }

  // ------------------------------------------------------------------ bare enums

  /** A bare enum is projected without loss exactly when no member contains a null marker or a type
      list. */
  lemma EnumPreservesIff(members: seq<Node>)
    requires !Exits(Dict(map[Enum := List(members)]))
    ensures Preserves(Dict(map[Enum := List(members)])) <==> forall x | x in members :: Normal(x)
  {
    var m: Entries := map[Enum := List(members)];
    EnumWidensIff(members);
    if forall x | x in members :: Normal(x) {
      BareEnum(members);
      NormalResidue(m);
      NormalEnumIsSafe(m);
      hide Preserves, Valid, Exits, EnumSafe, EverySchema, Kept;
      assert Residue(m) == m;
      assert Marked(m) ==> Null in members;
      NodePreservesIff(m);
    }
  }

  lemma BareEnum(members: seq<Node>)
    ensures
      var m: Entries := map[Enum := List(members)];
      && IsSchema(Dict(m)) && (forall x :: !Kept(m, x))
      && (forall v :: Valid(V31, Dict(m), v) <==> v in members)
  {
  }

  // ------------------------------------------------------------------ overwritten allOf

  /** Every value the branches accept, null among them, is accepted by the neighbouring `allOf`. */
  ghost predicate BranchesImply(branches: seq<Node>, all: seq<Node>) {
    && SomeValid(V31, branches, Null)
    && forall v | SomeValid(V31, branches, v) :: AllValid(V31, all, v)
  }

  /** When `anyOf` has null branches and one other branch, the neighbouring `allOf` is overwritten.
      Nothing is lost exactly when that `allOf` followed from the `anyOf` and null was accepted. */
  lemma OverwrittenAllOfPreservesIff(branches: seq<Node>, all: seq<Node>)
    requires
      var m: Entries := map[AnyOf := List(branches), AllOf := List(all)];
      && IsSchema(Dict(m)) && !Exits(Dict(m)) && AllOfOverwritten(m)
      && forall x | x in branches && !NullBranch(x) :: Preserves(x)
    ensures
      Preserves(Dict(map[AnyOf := List(branches), AllOf := List(all)])) <==> BranchesImply(branches, all)
  {
    hide Preserves, SomeValid, AllValid, EverySchema, Exits, Valid, Lossless, NullBranch, BranchesImply;
    var m: Entries := map[AnyOf := List(branches), AllOf := List(all)];
    OverwrittenKept(branches, all);
    hide Kept, AllOfOverwritten;
    NodePreservesIff(m);
    OverwrittenLosslessIff(branches, all);
  }

  lemma OverwrittenKept(branches: seq<Node>, all: seq<Node>)
    ensures
      var m: Entries := map[AnyOf := List(branches), AllOf := List(all)];
      AllOfOverwritten(m) ==> forall x | Kept(m, x) :: x in branches && !NullBranch(x)
  {
    hide AllOfOverwritten, NullBranch;
  }

  lemma OverwrittenShape(branches: seq<Node>, all: seq<Node>)
    ensures
      var m: Entries := map[AnyOf := List(branches), AllOf := List(all)];
      AllOfOverwritten(m) ==> Residue(m) == map[AnyOf := List(branches)] && Marked(m)
  {
    hide Keep, NullBranch;
  }

  lemma OverwrittenLosslessIff(branches: seq<Node>, all: seq<Node>)
    requires AllOfOverwritten(map[AnyOf := List(branches), AllOf := List(all)])
    ensures Lossless(Dict(map[AnyOf := List(branches), AllOf := List(all)])) <==> BranchesImply(branches, all)
  {
    hide SomeValid, AllValid, Valid, AllOfOverwritten, Residue, Marked;
    var m: Entries := map[AnyOf := List(branches), AllOf := List(all)];
    OverwrittenShape(branches, all);
    forall v ensures
      && (Valid(V31, Dict(m), v) <==> SomeValid(V31, branches, v) && AllValid(V31, all, v))
      && (Valid(V31, Dict(Residue(m)), v) <==> SomeValid(V31, branches, v))
    {
      BranchesOnly(branches, all, v);
    }
  }

  lemma BranchesOnly(branches: seq<Node>, all: seq<Node>, v: Node)
    ensures
      && (Valid(V31, Dict(map[AnyOf := List(branches), AllOf := List(all)]), v)
          <==> SomeValid(V31, branches, v) && AllValid(V31, all, v))
      && (Valid(V31, Dict(map[AnyOf := List(branches)]), v) <==> SomeValid(V31, branches, v))
  {
    hide SomeValid, AllValid;
  }

  // ------------------------------------------------------------------ witnesses

  lemma ProjectsTo(m: Entries, l: Entries)
    requires Local(m) == l && !MultiType(m)
    requires forall k | k in l :: Convert(l[k]) == l[k] && !Exits(l[k])
    ensures Convert(Dict(m)) == Dict(l) && !Exits(Dict(m))
  {
    ConvertDict(m);
    assert Convert(Dict(m)).entries == l;
  }

  lemma ObjectMember(mm: Entries)
    requires mm == map[Type := List([Str("a")])]
    ensures !Exits(Dict(mm)) && Convert(Dict(mm)) == Dict(map[Type := Str("a")])
  {
    KeepIsIdentity(ConcreteType(), [Str("a")]);
    assert Local(mm) == map[Type := Str("a")];
    ConvertDict(mm);
    assert Convert(Dict(mm)).entries == map[Type := Str("a")];
  }

  /** An enum member that is an object with a type list is rewritten like a schema and lost. */
  lemma EnumOfObjectsNarrows()
    ensures
      var member := Dict(map[Type := List([Str("a")])]);
      var n := Dict(map[Enum := List([member])]);
      !Exits(n) && Valid(V31, n, member) && !Valid(V30, Convert(n), member)
  {
    var mm: Entries := map[Type := List([Str("a")])];
    var member := Dict(mm);
    var m: Entries := map[Enum := List([member])];
    ObjectMember(mm);
    SettledIsUnchanged(m);
    ConvertDict(m);
    ConvertList([member]);
    hide Local, Convert, StepAnyOf, StepEnum, StepType;
    assert mm[Type] != Str("a");
    assert !Exits(List([member]));
  }

  /** type: ["null"] becomes no type at all, so everything is accepted. */
  lemma OnlyNullTypeWidens()
    ensures
      var n := Dict(map[Type := List([NULL_NAME])]);
      !Exits(n) && !Valid(V31, n, Str("x")) && Valid(V30, Convert(n), Str("x"))
  {
    var m: Entries := map[Type := List([NULL_NAME])];
    assert Keep(ConcreteType(), [NULL_NAME]) == [];
    assert Local(m) == map[Nullable := Bool(true)];
    ConvertDict(m);
    assert Convert(Dict(m)).entries == map[Nullable := Bool(true)];
  }

  lemma NullableText(m: Entries, l: Entries)
    requires m == map[Type := Str("string"), Enum := List([Str("a"), Null])]
    requires l == map[Type := Str("string"), Enum := List([Str("a")]), Nullable := Bool(true)]
    ensures Local(m) == l && !TypeOk(m, Null)
  {
    assert Keep(NotNull(), m[Enum].items) == [Str("a")];
    assert StepAnyOf(m) == m && StepType(m) == m;
    assert StepEnum(m) == l;
  }

  /** A null enum member makes the node nullable although its type never admitted null. */
  lemma NullMemberWidens()
    ensures
      var n := Dict(map[Type := Str("string"), Enum := List([Str("a"), Null])]);
      !Exits(n) && !Valid(V31, n, Null) && Valid(V30, Convert(n), Null)
  {
    hide Local, Convert, Exits, TypeOk, EnumOk;
    var m: Entries := map[Type := Str("string"), Enum := List([Str("a"), Null])];
    var l: Entries := map[Type := Str("string"), Enum := List([Str("a")]), Nullable := Bool(true)];
    NullableText(m, l);
    NormalScalars(l);
    NormalIsFixed(l[Enum]);
    ProjectsTo(m, l);
  }

  lemma NormalScalars(l: Entries)
    ensures forall k | k in l && !l[k].List? && !l[k].Dict? :: Convert(l[k]) == l[k] && !Exits(l[k])
  {
  }

  lemma ConstrainedNullable(m: Entries, l: Entries)
    requires m == map[AnyOf := List([Dict(map[Type := NULL_NAME]), Bool(true)]), AllOf := List([Bool(false)])]
    requires l == map[AllOf := List([Bool(true)]), Nullable := Bool(true)]
    ensures Local(m) == l
  {
    hide StepAnyOf, Keep;
    AllOfReplaced(m, l);
    assert StepType(l) == l && StepEnum(l) == l;
  }

  lemma AllOfReplaced(m: Entries, l: Entries)
    requires m == map[AnyOf := List([Dict(map[Type := NULL_NAME]), Bool(true)]), AllOf := List([Bool(false)])]
    requires l == map[AllOf := List([Bool(true)]), Nullable := Bool(true)]
    ensures StepAnyOf(m) == l
  {
    OneBranchLeft(m[AnyOf].items);
    hide Keep, NullBranch;
    assert (m - {AnyOf})[AllOf := List([Bool(true)])][Nullable := Bool(true)] == l;
  }

  lemma OneBranchLeft(branches: seq<Node>)
    requires branches == [Dict(map[Type := NULL_NAME]), Bool(true)]
    ensures Keep(NotNullBranch(), branches) == [Bool(true)]
  {
    assert branches[1..] == [Bool(true)];
    KeepIsIdentity(NotNullBranch(), branches[1..]);
  }

  lemma AllOfSingle(d: Dialect, b: bool, v: Node)
    ensures AllValid(d, [Bool(b)], v) <==> b
  {
    assert Valid(d, [Bool(b)][0], v) <==> b;
  }

  /** An allOf next to `anyOf: [X, null]` is overwritten and its constraint is gone. */
  lemma OverwrittenAllOfWidens()
    ensures
      var nullBranch := Dict(map[Type := NULL_NAME]);
      var n := Dict(map[AnyOf := List([nullBranch, Bool(true)]), AllOf := List([Bool(false)])]);
      !Exits(n) && !Valid(V31, n, Str("x")) && Valid(V30, Convert(n), Str("x"))
  {
    hide Local, Convert, Exits, AllValid, SomeValid;
    var m: Entries := map[AnyOf := List([Dict(map[Type := NULL_NAME]), Bool(true)]), AllOf := List([Bool(false)])];
    var l: Entries := map[AllOf := List([Bool(true)]), Nullable := Bool(true)];
    ConstrainedNullable(m, l);
    NormalScalars(l);
    NormalIsFixed(l[AllOf]);
    ProjectsTo(m, l);
    AllOfSingle(V31, false, Str("x"));
    AllOfSingle(V30, true, Str("x"));
  }
}
