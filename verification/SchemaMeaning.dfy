/** What a schema accepts before and after the projection.

    The source side reads type, enum, anyOf, allOf, properties and items as JSON Schema 2020-12
    does (sections 6.1.1 and 6.1.2 of JSON Schema Validation, sections 10.2.1.1, 10.2.1.2,
    10.3.1.2 and 10.3.2.1 of JSON Schema Core).  The target side reads the same keywords and, in
    addition, lets `nullable: true` admit null at its node, as the script uses it. */
module SchemaMeaning {
  import opened YamlTree
  import opened YamlNormalForm
  import opened YamlWeight

  datatype Dialect = V31 | V30

  predicate HasType(v: Node, name: string) {
    match v
    case Null => name == "null"
    case Bool(_) => name == "boolean"
    case Num(r) => name == "number" || (name == "integer" && r.Floor as real == r)
    case Str(_) => name == "string"
    case List(_) => name == "array"
    case Dict(_) => name == "object"
  }

  predicate TypeOk(m: Entries, v: Node) {
    Type in m ==>
      match m[Type]
      case Str(name) => HasType(v, name)
      case List(names) => exists t | t in names :: t.Str? && HasType(v, t.s)
      case _ => true
  }

  predicate EnumOk(m: Entries, v: Node) {
    Enum in m && m[Enum].List? ==> v in m[Enum].items
  }

  predicate NullableAdmits(d: Dialect, m: Entries, v: Node) {
    d.V30? && v == Null && Nullable in m && m[Nullable] == Bool(true)
  }

  /** The instance v is valid for the schema n. */
  predicate Valid(d: Dialect, n: Node, v: Node)
    decreases n, 1
  {
    match n
    case Bool(b) => b
    case Dict(m) =>
      || NullableAdmits(d, m, v)
      || (&& TypeOk(m, v)
          && EnumOk(m, v)
          && (AnyOf in m && m[AnyOf].List? ==> SomeValid(d, m[AnyOf].items, v))
          && (AllOf in m && m[AllOf].List? ==> AllValid(d, m[AllOf].items, v))
          && (Properties in m && m[Properties].Dict? && v.Dict? ==>
                forall k | k in m[Properties].entries && k in v.entries ::
                  Valid(d, m[Properties].entries[k], v.entries[k]))
          && (Items in m && v.List? ==> forall i | 0 <= i < |v.items| :: Valid(d, m[Items], v.items[i])))
    case _ => true
  }

  predicate SomeValid(d: Dialect, ns: seq<Node>, v: Node)
    decreases ns, 0
  {
    exists i | 0 <= i < |ns| :: Valid(d, ns[i], v)
  }

  predicate AllValid(d: Dialect, ns: seq<Node>, v: Node)
    decreases ns, 0
  {
    forall i | 0 <= i < |ns| :: Valid(d, ns[i], v)
  }

  // ------------------------------------------------------------------ the fragment

  /** The keywords of one schema object have the shapes the standard gives them. */
  predicate WellFormed(m: Entries) {
    && (Type in m ==> m[Type].Str? || (m[Type].List? && forall t | t in m[Type].items :: t.Str?))
    && (Enum in m ==> m[Enum].List?)
    && (AnyOf in m ==> m[AnyOf].List?)
    && (AllOf in m ==> m[AllOf].List?)
    && (Properties in m ==> m[Properties].Dict?)
  }

  /** n is a schema of the fragment, and every schema object in it satisfies p. */
  ghost predicate EverySchema(p: Entries -> bool, n: Node) {
    match n
    case Bool(_) => true
    case Dict(m) =>
      && WellFormed(m) && p(m)
      && (AnyOf in m ==> forall i | 0 <= i < |m[AnyOf].items| :: EverySchema(p, m[AnyOf].items[i]))
      && (AllOf in m ==> forall i | 0 <= i < |m[AllOf].items| :: EverySchema(p, m[AllOf].items[i]))
      && (Properties in m ==>
            forall k | k in m[Properties].entries :: EverySchema(p, m[Properties].entries[k]))
      && (Items in m ==> EverySchema(p, m[Items]))
    case _ => false
  }

  predicate Any(m: Entries) { true }

  ghost predicate IsSchema(n: Node) { EverySchema(Any, n) }

  lemma {:induction false} WeakenToSchema(p: Entries -> bool, n: Node)
    requires EverySchema(p, n)
    ensures IsSchema(n)
  {
    if n.Dict? {
      var m := n.entries;
      if AnyOf in m {
        forall i | 0 <= i < |m[AnyOf].items| ensures IsSchema(m[AnyOf].items[i]) {
          WeakenToSchema(p, m[AnyOf].items[i]);
        }
      }
      if AllOf in m {
        forall i | 0 <= i < |m[AllOf].items| ensures IsSchema(m[AllOf].items[i]) {
          WeakenToSchema(p, m[AllOf].items[i]);
        }
      }
      if Properties in m {
        forall k | k in m[Properties].entries ensures IsSchema(m[Properties].entries[k]) {
          WeakenToSchema(p, m[Properties].entries[k]);
        }
      }
      if Items in m {
        WeakenToSchema(p, m[Items]);
      }
    }
  }

  /** No enum member contains a null marker or a type list. */
  predicate EnumNormal(m: Entries) {
    Enum in m && m[Enum].List? ==> forall x | x in m[Enum].items :: Normal(x)
  }

  // ------------------------------------------------------------------ sub-schemas of the output

  /** A dictionary of schemas, such as `properties`, is not mistaken for a schema. */
  lemma PropertiesAreNotRewritten(p: Entries -> bool, props: Entries)
    requires forall k | k in props :: EverySchema(p, props[k])
    ensures Local(props) == props
  {
    assert AnyOf in props ==> EverySchema(p, props[AnyOf]);
    assert Type in props ==> EverySchema(p, props[Type]);
    assert Enum in props ==> EverySchema(p, props[Enum]);
  }

  /** x is a direct sub-schema of m that the script keeps. */
  ghost predicate Kept(m: Entries, x: Node) {
    || (AnyOf in m && m[AnyOf].List? && x in m[AnyOf].items && !NullBranch(x))
    || (AllOf in m && m[AllOf].List? && x in m[AllOf].items && !AllOfOverwritten(m))
    || (Properties in m && m[Properties].Dict?
        && exists k | k in m[Properties].entries :: x == m[Properties].entries[k])
    || (Items in m && x == m[Items])
  }

  lemma ItemOf(xs: seq<Node>, x: Node)
    requires x in xs
    ensures !Exits(List(xs)) ==> !Exits(x)
    ensures Depth(x) < Depth(List(xs))
    ensures Convert(x) in Convert(List(xs)).items
  {
    var i :| 0 <= i < |xs| && xs[i] == x;
    ConvertList(xs);
    DepthOfItem(xs, x);
    assert Convert(List(xs)).items[i] == Convert(x);
  }

  lemma EntryExits(m: Entries, k: Key)
    requires !Exits(Dict(m)) && k in Local(m)
    ensures !Exits(Local(m)[k])
  {
  }

  /** Kept sub-schemas are smaller schemas of the same kind on which the script does not exit. */
  lemma KeptIsSmaller(p: Entries -> bool, m: Entries, x: Node)
    requires EverySchema(p, Dict(m)) && !Exits(Dict(m)) && Kept(m, x)
    ensures EverySchema(p, x) && !Exits(x) && Depth(x) < Depth(Dict(m))
  {
    var l := Local(m);
    if AnyOf in m && x in m[AnyOf].items && !NullBranch(x) {
      LocalBranches(m);
      var k := if AllOfOverwritten(m) then AllOf else AnyOf;
      EntryExits(m, k);
      LocalDepth(m, k);
      ItemOf(l[k].items, x);
    } else if AllOf in m && x in m[AllOf].items && !AllOfOverwritten(m) {
      LocalBranches(m);
      EntryExits(m, AllOf);
      LocalDepth(m, AllOf);
      ItemOf(l[AllOf].items, x);
    } else if Items in m && x == m[Items] {
      LocalKeeps(m);
      EntryExits(m, Items);
      LocalDepth(m, Items);
    } else {
      KeptPropertyIsSmaller(p, m, x);
    }
  }

  lemma KeptPropertyIsSmaller(p: Entries -> bool, m: Entries, x: Node)
    requires EverySchema(p, Dict(m)) && !Exits(Dict(m))
    requires Properties in m && exists k | k in m[Properties].entries :: x == m[Properties].entries[k]
    ensures EverySchema(p, x) && !Exits(x) && Depth(x) < Depth(Dict(m))
  {
    var props := m[Properties].entries;
    var k :| k in props && x == props[k];
    LocalKeeps(m);
    EntryExits(m, Properties);
    LocalDepth(m, Properties);
    PropertiesAreNotRewritten(p, props);
    EntryExits(props, k);
    DepthOfEntry(props, k);
  }

  // ------------------------------------------------------------------ widening, keyword by keyword
  //
  // In these lemmas l stands for Local(m) and c for the entries of Convert(Dict(m)).

  ghost predicate Widens(x: Node) {
    forall w :: Valid(V31, x, w) ==> Valid(V30, Convert(x), w)
  }

  ghost predicate ChildrenConverted(l: Entries, c: Entries) {
    c.Keys == l.Keys && forall k | k in l :: c[k] == Convert(l[k])
  }

  /** The keywords that leave no trace in the output: a type list without a concrete name, and an
      allOf that is overwritten. */
  function Dropped(m: Entries): set<Key> {
    (if Type in m && m[Type].List? && Keep(ConcreteType(), m[Type].items) == [] then {Type} else {}) +
    (if AllOfOverwritten(m) then {AllOf} else {})
  }

  function Stripped(m: Entries): Entries { m - Dropped(m) }

  lemma WidensType(m: Entries, l: Entries, c: Entries, v: Node)
    requires WellFormed(m) && TypeBecomes(m, l) && ChildrenConverted(l, c)
    requires !MultiType(m) && TypeOk(Stripped(m), v) && !NullableAdmits(V30, l, v)
    ensures TypeOk(c, v)
  {
    hide Convert, AllOfOverwritten, HasType, Keep;
    if Type in m && (m[Type].Str? || Keep(ConcreteType(), m[Type].items) != []) {
      assert Type !in Dropped(m);
      if m[Type].Str? {
        ConvertName(l[Type]);
      } else {
        WidensTypeList(m[Type].items, v);
        ConvertName(l[Type]);
      }
    }
  }

  lemma ConvertName(n: Node)
    requires n.Str?
    ensures Convert(n) == n
  {
  }

  /** The only concrete name of a list admits what the list admits, apart from null. */
  lemma WidensTypeList(names: seq<Node>, v: Node)
    requires forall t | t in names :: t.Str?
    requires |Keep(ConcreteType(), names)| == 1 && exists t | t in names :: HasType(v, t.s)
    ensures
      var name := Keep(ConcreteType(), names)[0];
      name.Str? && (HasType(v, name.s) || (v == Null && NULL_NAME in names))
  {
    var concrete := Keep(ConcreteType(), names);
    assert concrete[0] in concrete;
    var t :| t in names && HasType(v, t.s);
    assert t != NULL_NAME ==> t in concrete;
  }

  /** v is what some member becomes. */
  predicate MemberSurvives(members: seq<Node>, v: Node) {
    exists y | y in members :: Convert(y) == v
  }

  /** What is left to say of the source: the dropped keywords are gone, and `enum` lists what its
      members become. */
  function Residue(m: Entries): Entries {
    if Enum in m && m[Enum].List? then Stripped(m)[Enum := Convert(m[Enum])] else Stripped(m)
  }

  lemma WidensEnum(m: Entries, l: Entries, c: Entries, v: Node)
    requires WellFormed(m) && EnumBecomes(m, l) && ChildrenConverted(l, c)
    requires Enum in m ==> MemberSurvives(m[Enum].items, v)
    requires !NullableAdmits(V30, l, v)
    ensures EnumOk(c, v)
  {
    if Enum in m {
      var members := m[Enum].items;
      var y :| y in members && Convert(y) == v;
      ItemOf(Keep(NotNull(), members), y);
    }
  }

  lemma NullBranchAdmitsNullOnly(b: Node, v: Node)
    ensures NullBranch(b) && Valid(V31, b, v) ==> v == Null
  {
  }

  lemma SomeBranchSurvives(branches: seq<Node>, v: Node)
    requires SomeValid(V31, branches, v)
    requires forall b | b in branches :: if NullBranch(b) then v != Null else Widens(b)
    ensures
      var c := Convert(List(Keep(NotNullBranch(), branches))).items;
      SomeValid(V30, c, v) && (|c| == 1 ==> AllValid(V30, c, v))
  {
    hide Valid, NullBranch, Convert, Keep;
    var rest := Keep(NotNullBranch(), branches);
    var i :| 0 <= i < |branches| && Valid(V31, branches[i], v);
    var b := branches[i];
    assert b in branches;
    NullBranchAdmitsNullOnly(b, v);
    assert b in rest;
    var j :| 0 <= j < |rest| && rest[j] == b;
    ConvertList(rest);
    assert Valid(V30, Convert(List(rest)).items[j], v);
  }

  lemma WidensBranches(m: Entries, l: Entries, c: Entries, v: Node)
    requires WellFormed(m) && BranchesBecome(m, l) && ChildrenConverted(l, c)
    requires forall x | Kept(m, x) :: Widens(x)
    requires AnyOf in m ==> SomeValid(V31, m[AnyOf].items, v)
    requires AllOf in m && !AllOfOverwritten(m) ==> AllValid(V31, m[AllOf].items, v)
    requires !NullableAdmits(V30, l, v)
    ensures AnyOf in c && c[AnyOf].List? ==> SomeValid(V30, c[AnyOf].items, v)
    ensures AllOf in c && c[AllOf].List? ==> AllValid(V30, c[AllOf].items, v)
  {
    if AnyOf in m {
      forall b | b in m[AnyOf].items ensures if NullBranch(b) then v != Null else Widens(b) {
        if !NullBranch(b) {
          assert Kept(m, b);
        }
      }
      SomeBranchSurvives(m[AnyOf].items, v);
    }
    if AllOf in m && !AllOfOverwritten(m) {
      var all := m[AllOf].items;
      ConvertList(all);
      forall i | 0 <= i < |all| ensures Valid(V30, c[AllOf].items[i], v) {
        assert Kept(m, all[i]);
      }
    }
  }

  lemma WidensMembers(p: Entries -> bool, m: Entries, l: Entries, c: Entries, v: Node)
    requires EverySchema(p, Dict(m)) && SameAt(m, l, Properties) && SameAt(m, l, Items)
    requires ChildrenConverted(l, c) && forall x | Kept(m, x) :: Widens(x)
    requires MembersOk(V31, m, v)
    ensures MembersOk(V30, c, v)
  {
    hide AllOfOverwritten;
    if Items in m {
      assert Kept(m, m[Items]);
    }
    if Properties in m {
      var props := m[Properties].entries;
      PropertiesAreNotRewritten(p, props);
      ConvertDict(props);
      forall k | k in props ensures Widens(props[k]) {
        assert Kept(m, props[k]);
      }
    }
  }

  /** The keywords of a schema object, apart from nullable and apart from how they recurse. */
  ghost predicate KeywordsOk(d: Dialect, m: Entries, v: Node) {
    && TypeOk(m, v)
    && EnumOk(m, v)
    && (AnyOf in m && m[AnyOf].List? ==> SomeValid(d, m[AnyOf].items, v))
    && (AllOf in m && m[AllOf].List? ==> AllValid(d, m[AllOf].items, v))
    && MembersOk(d, m, v)
  }

  ghost predicate MembersOk(d: Dialect, m: Entries, v: Node) {
    && (Properties in m && m[Properties].Dict? && v.Dict? ==>
          forall k | k in m[Properties].entries && k in v.entries ::
            Valid(d, m[Properties].entries[k], v.entries[k]))
    && (Items in m && v.List? ==> forall i | 0 <= i < |v.items| :: Valid(d, m[Items], v.items[i]))
  }

  lemma ValidIsKeywords(d: Dialect, m: Entries, v: Node)
    ensures Valid(d, Dict(m), v) <==> NullableAdmits(d, m, v) || KeywordsOk(d, m, v)
  {
  }

  /** The residue says the same as the source but for type, enum and an overwritten allOf. */
  lemma ResidueKeywords(d: Dialect, m: Entries, v: Node)
    ensures KeywordsOk(d, Residue(m), v) <==>
              && TypeOk(Stripped(m), v)
              && (Enum in m && m[Enum].List? ==> MemberSurvives(m[Enum].items, v))
              && (AnyOf in m && m[AnyOf].List? ==> SomeValid(d, m[AnyOf].items, v))
              && (AllOf in m && m[AllOf].List? && !AllOfOverwritten(m) ==> AllValid(d, m[AllOf].items, v))
              && MembersOk(d, m, v)
  {
    hide AllOfOverwritten, Valid, SomeValid, AllValid, Convert;
    var r := Residue(m);
    assert SameAt(Stripped(m), r, Type) && SameAt(Stripped(m), r, AllOf);
    assert SameAt(m, r, AnyOf) && SameAt(m, r, Properties) && SameAt(m, r, Items);
    hide TypeOk, MemberSurvives;
    if Enum in m && m[Enum].List? {
      ConvertedMembers(m[Enum].items, v);
    }
  }

  lemma ConvertedMembers(members: seq<Node>, v: Node)
    ensures Convert(List(members)).List?
    ensures v in Convert(List(members)).items <==> MemberSurvives(members, v)
  {
    ConvertList(members);
    if y :| y in members && Convert(y) == v {
      ItemOf(members, y);
    }
  }

  /** The residue accepts whatever the source accepts, enum members permitting. */
  lemma ResidueAcceptsMore(m: Entries, v: Node)
    requires Valid(V31, Dict(m), v)
    requires Enum in m && m[Enum].List? ==> MemberSurvives(m[Enum].items, v)
    ensures Valid(V31, Dict(Residue(m)), v)
  {
    hide AllOfOverwritten, Valid, SomeValid, AllValid, MemberSurvives, MembersOk, Residue, HasType, Keep;
    ValidIsKeywords(V31, m, v);
    ValidIsKeywords(V31, Residue(m), v);
    ResidueKeywords(V31, m, v);
  }

  /** Whatever the residue accepts, the output accepts. */
  lemma OutputAcceptsResidue(m: Entries, l: Entries, c: Entries, v: Node)
    requires IsSchema(Dict(m)) && !MultiType(m)
    requires l == Local(m) && ChildrenConverted(l, c)
    requires forall x | Kept(m, x) :: Widens(x)
    requires Valid(V31, Dict(Residue(m)), v)
    ensures Valid(V30, Dict(c), v)
  {
    hide Valid, Local, Stripped, Residue, Kept, TypeOk, EnumOk, SomeValid, AllValid, MembersOk, Keep, AllOfOverwritten;
    ValidIsKeywords(V31, Residue(m), v);
    ValidIsKeywords(V30, c, v);
    ResidueKeywords(V31, m, v);
    if !NullableAdmits(V30, l, v) {
      LocalType(m);
      LocalEnum(m);
      LocalBranches(m);
      LocalKeeps(m);
      WidensType(m, l, c, v);
      WidensEnum(m, l, c, v);
      WidensBranches(m, l, c, v);
      WidensMembers(Any, m, l, c, v);
    }
  }

  // ------------------------------------------------------------------ widening, exactly

  /** Enum members that the node accepts are still members after the conversion. */
  ghost predicate EnumSafe(n: Node) {
    n.Dict? && Enum in n.entries && n.entries[Enum].List? ==>
      forall x | x in n.entries[Enum].items && x != Null && Valid(V31, n, x) ::
        MemberSurvives(n.entries[Enum].items, x)
  }

  lemma OutputEnumMembers(m: Entries, x: Node)
    requires WellFormed(m) && Enum in m && x != Null && Valid(V30, Convert(Dict(m)), x)
    ensures MemberSurvives(m[Enum].items, x)
  {
    ConvertDict(m);
    LocalEnum(m);
    var c := Convert(Dict(m)).entries;
    var rest := Keep(NotNull(), m[Enum].items);
    assert EnumOk(c, x);
    hide Local, Valid;
    ConvertList(rest);
    var i :| 0 <= i < |rest| && Convert(rest[i]) == x;
    assert rest[i] in rest;
  }

  lemma AcceptedMemberSurvives(m: Entries, v: Node)
    requires EnumSafe(Dict(m)) && Valid(V31, Dict(m), v) && Enum in m && m[Enum].List?
    ensures MemberSurvives(m[Enum].items, v)
  {
    assert v in m[Enum].items;
    assert Convert(Null) == Null;
  }

  /** With sub-schemas that widen, a schema object widens exactly when it loses no enum member. */
  lemma NodeWidensIff(m: Entries)
    requires IsSchema(Dict(m)) && !Exits(Dict(m)) && forall x | Kept(m, x) :: Widens(x)
    ensures Widens(Dict(m)) <==> EnumSafe(Dict(m))
  {
    var n := Dict(m);
    ConvertDict(m);
    if EnumSafe(n) {
      forall v | Valid(V31, n, v) ensures Valid(V30, Convert(n), v) {
        if Enum in m {
          AcceptedMemberSurvives(m, v);
        }
        ResidueAcceptsMore(m, v);
        OutputAcceptsResidue(m, Local(m), Convert(n).entries, v);
      }
    }
    if Widens(n) && Enum in m {
      forall x | x in m[Enum].items && x != Null && Valid(V31, n, x) ensures MemberSurvives(m[Enum].items, x) {
        OutputEnumMembers(m, x);
      }
    }
  }

  /** p holds of n and of every sub-schema that survives into the output. */
  ghost predicate EveryKept(p: Node -> bool, n: Node) {
    p(n) && (n.Dict? ==> forall x | Kept(n.entries, x) :: EveryKept(p, x))
  }

  /** The projection widens at every schema object it keeps exactly when none of them loses an enum
      member it accepts. */
  lemma {:induction false} WidensEverywhereIff(n: Node)
    requires IsSchema(n) && !Exits(n)
    ensures EveryKept(Widens, n) <==> EveryKept(EnumSafe, n)
    decreases Depth(n)
  {
    if n.Dict? {
      var m := n.entries;
      forall x | Kept(m, x) ensures EveryKept(Widens, x) <==> EveryKept(EnumSafe, x) {
        KeptIsSmaller(Any, m, x);
        WidensEverywhereIff(x);
      }
      hide Kept, EnumSafe, Widens;
      if forall x | Kept(m, x) :: EveryKept(Widens, x) {
        assert forall x | Kept(m, x) :: Widens(x);
        NodeWidensIff(m);
      }
    }
  }

  /** No enum member holds a type list around a list. */
  predicate EnumFlat(m: Entries) {
    Enum in m && m[Enum].List? ==> forall x | x in m[Enum].items :: FlatTypes(x)
  }

  /** No enum member that the node accepts contains a null marker or a type list. */
  ghost predicate AcceptedMembersNormal(n: Node) {
    n.Dict? && Enum in n.entries && n.entries[Enum].List? ==>
      forall x | x in n.entries[Enum].items && Valid(V31, n, x) :: Normal(x)
  }

  lemma EnumSafeIffNormal(m: Entries)
    requires WellFormed(m) && EnumFlat(m) && !Exits(Dict(m))
    ensures EnumSafe(Dict(m)) <==> AcceptedMembersNormal(Dict(m))
  {
    hide Valid, Exits;
    if Enum in m {
      forall x | x in m[Enum].items && x != Null ensures MemberSurvives(m[Enum].items, x) <==> Normal(x) {
        if Normal(x) { NormalIsFixed(x); }
        if MemberSurvives(m[Enum].items, x) {
          var y :| y in m[Enum].items && Convert(y) == x;
          MemberExits(m, y);
          OutputIsNormal(y);
        }
      }
    }
  }

  /** Read off the source: unless a member holds a type list around a list, the projection widens at
      every schema object it keeps exactly when none of them accepts an enum member that contains a
      null marker or a type list. */
  lemma {:induction false} WidensEverywhereIffNormal(n: Node)
    requires EverySchema(EnumFlat, n) && !Exits(n)
    ensures EveryKept(Widens, n) <==> EveryKept(AcceptedMembersNormal, n)
    decreases Depth(n)
  {
    if n.Dict? {
      var m := n.entries;
      WeakenToSchema(EnumFlat, n);
      EnumSafeIffNormal(m);
      forall x | Kept(m, x) ensures EveryKept(Widens, x) <==> EveryKept(AcceptedMembersNormal, x) {
        KeptIsSmaller(EnumFlat, m, x);
        WidensEverywhereIffNormal(x);
      }
      hide Kept, EnumSafe, Widens, AcceptedMembersNormal;
      if forall x | Kept(m, x) :: EveryKept(Widens, x) {
        assert forall x | Kept(m, x) :: Widens(x);
        NodeWidensIff(m);
      }
    }
  }

  lemma NormalEnumIsSafe(m: Entries)
    requires EnumNormal(m)
    ensures EnumSafe(Dict(m))
  {
    hide Valid;
    if Enum in m && m[Enum].List? {
      forall x | x in m[Enum].items ensures MemberSurvives(m[Enum].items, x) {
        NormalIsFixed(x);
      }
    }
  }

  lemma {:induction false} NormalEnumsAreSafe(n: Node)
    requires EverySchema(EnumNormal, n) && !Exits(n)
    ensures EveryKept(EnumSafe, n)
    decreases Depth(n)
  {
    if n.Dict? {
      var m := n.entries;
      NormalEnumIsSafe(m);
      forall x | Kept(m, x) ensures EveryKept(EnumSafe, x) {
        KeptIsSmaller(EnumNormal, m, x);
        NormalEnumsAreSafe(x);
      }
    }
  }

  /** The projection only ever widens: when no enum member contains a null marker or a type list, a
      value the 3.1 schema accepts is accepted by the 3.0 schema. */
  lemma ProjectionWidens(n: Node)
    requires EverySchema(EnumNormal, n) && !Exits(n)
    ensures Widens(n)
  {
    WeakenToSchema(EnumNormal, n);
    NormalEnumsAreSafe(n);
    WidensEverywhereIff(n);
  }

  /** For a bare enum the condition is exact: the projection keeps every accepted value if and only if
      no member contains a null marker or a type list. */
  lemma EnumWidensIff(members: seq<Node>)
    requires !Exits(Dict(map[Enum := List(members)]))
    ensures Widens(Dict(map[Enum := List(members)])) <==> forall x | x in members :: Normal(x)
  {
    var m: Entries := map[Enum := List(members)];
    var n := Dict(m);
    assert IsSchema(n);
    NodeWidensIff(m);
    assert forall x | x in members :: Valid(V31, n, x);
    assert EnumSafe(n) <==> Survive(members);
    SurviveIffUnchanged(members);
    forall x | x in members ensures Convert(x) == x <==> Normal(x) {
      MemberExits(m, x);
      if Normal(x) { NormalIsFixed(x); }
      if Convert(x) == x { FixedIsNormal(x); }
    }
  }

  lemma MemberExits(m: Entries, x: Node)
    requires !Exits(Dict(m)) && Enum in m && m[Enum].List? && x in m[Enum].items
    ensures !Exits(x)
  {
    if x != Null {
      LocalEnum(m);
      EntryExits(m, Enum);
      ItemOf(Keep(NotNull(), m[Enum].items), x);
    }
  }
}
