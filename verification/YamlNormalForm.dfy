/** The fixed points of the conversion, and exactly when converting twice is converting once. */
module YamlNormalForm {
  import opened YamlTree

  /** No dictionary anywhere has work left for the script. */
  predicate Normal(n: Node) {
    match n
    case List(xs) => forall i | 0 <= i < |xs| :: Normal(xs[i])
    case Dict(m) => Settled(m) && forall k | k in m :: Normal(m[k])
    case _ => true
  }

  /** The type list of m, if it is one the script collapses, does not wrap another list. */
  predicate FlatType(m: Entries) {
    Type in m && m[Type].List? ==>
      var concrete := Keep(ConcreteType(), m[Type].items);
      |concrete| == 1 ==> !concrete[0].List?
  }

  /** No type list among the parts the script keeps wraps another list.  A type list that makes the
      script exit is not collapsed at all and is no exception to this. */
  predicate FlatTypes(n: Node)
    decreases Depth(n)
  {
    match n
    case List(xs) =>
      forall i | 0 <= i < |xs| :: (DepthOfItem(xs, xs[i]); FlatTypes(xs[i]))
    case Dict(m) =>
      var l := Local(m);
      && FlatType(m)
      && forall k | k in l :: (LocalDepth(m, k); FlatTypes(l[k]))
    case _ => true
  }

  // ------------------------------------------------------------------ how Convert unfolds

  lemma ConvertList(xs: seq<Node>)
    ensures Convert(List(xs)).List? && |Convert(List(xs)).items| == |xs|
    ensures forall i | 0 <= i < |xs| :: Convert(List(xs)).items[i] == Convert(xs[i])
  {
  }

  lemma ConvertDict(m: Entries)
    ensures Convert(Dict(m)).Dict? && Convert(Dict(m)).entries.Keys == Local(m).Keys
    ensures forall k | k in Local(m) :: Convert(Dict(m)).entries[k] == Convert(Local(m)[k])
  {
  }

  /** The local steps keep the answer of the null-branch test ... */
  lemma LocalKeepsNullName(m: Entries)
    ensures (Type in Local(m) && Local(m)[Type] == NULL_NAME) <==> (Type in m && m[Type] == NULL_NAME)
  {
    if !MultiType(m) {
      LocalType(m);
      hide Local;
      if Type in m && m[Type].List? {
        var concrete := Keep(ConcreteType(), m[Type].items);
        if |concrete| == 1 {
          assert concrete[0] in concrete;
        }
      }
    } else {
      MultiTypeStays(m);
    }
  }

  /** ... and so does the whole conversion: it does not matter whether a branch is tested
      before or after it has been converted. */
  lemma NullBranchStable(n: Node)
    ensures NullBranch(Convert(n)) <==> NullBranch(n)
  {
    if n.Dict? {
      ConvertDict(n.entries);
      LocalKeepsNullName(n.entries);
      var l := Local(n.entries);
      if Type in l && l[Type].List? {
        ConvertList(l[Type].items);
      } else if Type in l && l[Type].Dict? {
        ConvertDict(l[Type].entries);
      }
    }
  }

  lemma {:induction false} ConvertDepth(n: Node)
    ensures Depth(Convert(n)) <= Depth(n)
    decreases Depth(n)
  {
    match n
    case List(xs) =>
      ConvertList(xs);
      var ys := Convert(n).items;
      forall y | y in ys ensures Depth(y) < Depth(n) {
        var i :| 0 <= i < |ys| && ys[i] == y;
        DepthOfItem(xs, xs[i]);
        ConvertDepth(xs[i]);
      }
      DepthListBound(ys, Depth(n));
    case Dict(m) =>
      ConvertDict(m);
      var c := Convert(n).entries;
      forall k | k in c ensures Depth(c[k]) < Depth(n) {
        LocalDepth(m, k);
        ConvertDepth(Local(m)[k]);
      }
      DepthDictBound(c, Depth(n));
    case _ =>
  }

  // ------------------------------------------------------------------ fixed points

  lemma {:induction false} NormalIsFixed(n: Node)
    requires Normal(n)
    ensures Convert(n) == n && !Exits(n)
  {
    match n
    case List(xs) =>
      ConvertList(xs);
      forall i | 0 <= i < |xs| ensures Convert(xs[i]) == xs[i] && !Exits(xs[i]) {
        NormalIsFixed(xs[i]);
      }
      assert Convert(n).items == xs;
    case Dict(m) =>
      SettledIsUnchanged(m);
      ConvertDict(m);
      forall k | k in m ensures Convert(m[k]) == m[k] && !Exits(m[k]) {
        NormalIsFixed(m[k]);
      }
      assert Convert(n).entries == m;
    case _ =>
  }

  lemma {:induction false} FixedIsNormal(n: Node)
    requires !Exits(n) && Convert(n) == n
    ensures Normal(n)
  {
    match n
    case List(xs) =>
      ConvertList(xs);
      forall i | 0 <= i < |xs| ensures Normal(xs[i]) {
        FixedIsNormal(xs[i]);
      }
    case Dict(m) =>
      FixedIsSettled(m);
      SettledIsUnchanged(m);
      ConvertDict(m);
      forall k | k in m ensures Normal(m[k]) {
        FixedIsNormal(m[k]);
      }
    case _ =>
  }

  lemma FixedIsSettled(m: Entries)
    requires !MultiType(m) && Convert(Dict(m)) == Dict(m)
    ensures Settled(m)
  {
    ConvertDict(m);
    LocalBranches(m);
    LocalType(m);
    LocalEnum(m);
    hide Local, Convert;
    FixedHasNoNullBranch(m, Local(m));
    FixedHasNoTypeList(m, Local(m));
    FixedHasNoNullMember(m, Local(m));
  }

  lemma FixedHasNoNullBranch(m: Entries, l: Entries)
    requires BranchesBecome(m, l) && m.Keys == l.Keys && forall k | k in m :: m[k] == Convert(l[k])
    ensures AnyOf in m && m[AnyOf].List? ==> forall b | b in m[AnyOf].items :: !NullBranch(b)
  {
    if AnyOf in m && m[AnyOf].List? {
      KeepAll(NotNullBranch(), m[AnyOf].items);
      ConvertList(Keep(NotNullBranch(), m[AnyOf].items));
    }
  }

  lemma FixedHasNoTypeList(m: Entries, l: Entries)
    requires TypeBecomes(m, l) && m.Keys == l.Keys && forall k | k in m :: m[k] == Convert(l[k])
    ensures !(Type in m && m[Type].List?)
  {
    if Type in m && m[Type].List? {
      var concrete := Keep(ConcreteType(), m[Type].items);
      DepthOfItem(m[Type].items, concrete[0]);
      ConvertDepth(concrete[0]);
    }
  }

  lemma FixedHasNoNullMember(m: Entries, l: Entries)
    requires EnumBecomes(m, l) && m.Keys == l.Keys && forall k | k in m :: m[k] == Convert(l[k])
    ensures Enum in m && m[Enum].List? ==> Null !in m[Enum].items
  {
    if Enum in m && m[Enum].List? {
      KeepAll(NotNull(), m[Enum].items);
      ConvertList(Keep(NotNull(), m[Enum].items));
    }
  }

  // ------------------------------------------------------------------ the output

  /** What is left under `type` is a list exactly when the list it came from wrapped one. */
  lemma FlatTypeIff(m: Entries)
    requires !MultiType(m)
    ensures FlatType(m) <==> !(Type in Local(m) && Local(m)[Type].List?)
  {
    LocalType(m);
  }

  /** After the local steps a dictionary is settled, up to a nested type list. */
  lemma LocalSettles(m: Entries)
    requires !MultiType(m) && FlatType(m)
    ensures Settled(Local(m))
  {
    FlatTypeIff(m);
    LocalBranches(m);
    LocalEnum(m);
    hide Local;
    if AnyOf in m && m[AnyOf].List? {
      KeepAll(NotNullBranch(), m[AnyOf].items);
    }
  }

  lemma {:induction false} OutputIsNormal(n: Node)
    requires !Exits(n) && FlatTypes(n)
    ensures Normal(Convert(n))
    decreases Depth(n)
  {
    match n
    case List(xs) =>
      ConvertList(xs);
      forall i | 0 <= i < |xs| ensures Normal(Convert(xs[i])) {
        DepthOfItem(xs, xs[i]);
        OutputIsNormal(xs[i]);
      }
    case Dict(m) =>
      ConvertDict(m);
      var l, c := Local(m), Convert(n).entries;
      forall k | k in l ensures Normal(c[k]) {
        LocalDepth(m, k);
        OutputIsNormal(l[k]);
      }
      LocalSettles(m);
      SettledChildrenConverted(l, c);
    case _ =>
  }

  lemma SettledChildrenConverted(l: Entries, c: Entries)
    requires Settled(l) && c.Keys == l.Keys
    requires forall k | k in l :: c[k] == Convert(l[k])
    ensures Settled(c)
  {
    forall k | k in l ensures l[k].List? <==> c[k].List? {
    }
    if AnyOf in l && l[AnyOf].List? {
      ConvertList(l[AnyOf].items);
      forall b | b in c[AnyOf].items ensures !NullBranch(b) {
        var i :| 0 <= i < |c[AnyOf].items| && c[AnyOf].items[i] == b;
        NullBranchStable(l[AnyOf].items[i]);
      }
    }
    if Enum in l && l[Enum].List? {
      ConvertList(l[Enum].items);
    }
  }

  lemma {:induction false} NormalOutputHasFlatTypes(n: Node)
    requires !Exits(n) && Normal(Convert(n))
    ensures FlatTypes(n)
    decreases Depth(n)
  {
    match n
    case List(xs) =>
      ConvertList(xs);
      forall i | 0 <= i < |xs| ensures FlatTypes(xs[i]) {
        DepthOfItem(xs, xs[i]);
        assert Normal(Convert(n).items[i]);
        NormalOutputHasFlatTypes(xs[i]);
      }
    case Dict(m) =>
      ConvertDict(m);
      var l := Local(m);
      forall k | k in l ensures FlatTypes(l[k]) {
        LocalDepth(m, k);
        assert Normal(Convert(n).entries[k]);
        NormalOutputHasFlatTypes(l[k]);
      }
      FlatTypeIff(m);
    case _ =>
  }

  /** Running the three steps on a dictionary a second time neither exits nor changes anything exactly
      when its type list did not wrap another list. */
  lemma SecondVisitHarmlessIff(m: Entries)
    requires !MultiType(m)
    ensures !MultiType(Local(m)) && Local(Local(m)) == Local(m) <==> FlatType(m)
  {
    var l := Local(m);
    FlatTypeIff(m);
    if FlatType(m) {
      LocalSettles(m);
      SettledIsUnchanged(l);
    } else if !MultiType(l) {
      LocalType(l);
      CollapsedIsNotItself(l);
    }
  }

  lemma CollapsedIsNotItself(l: Entries)
    requires Type in l && l[Type].List? && TypeBecomes(l, Local(l))
    ensures Local(l) != l
  {
    var concrete := Keep(ConcreteType(), l[Type].items);
    if |concrete| == 1 {
      assert concrete[0] in l[Type].items;
    }
  }

  /** Converting the output again succeeds and changes nothing, exactly when no kept type list
      wraps another list. */
  lemma IdempotentIffFlatTypes(n: Node)
    requires !Exits(n)
    ensures (!Exits(Convert(n)) && Convert(Convert(n)) == Convert(n)) <==> FlatTypes(n)
  {
    if FlatTypes(n) {
      OutputIsNormal(n);
      NormalIsFixed(Convert(n));
    }
    if !Exits(Convert(n)) && Convert(Convert(n)) == Convert(n) {
      FixedIsNormal(Convert(n));
      NormalOutputHasFlatTypes(n);
    }
  }

  /** A nested type list is unwrapped one level at a time, so a second run differs. */
  lemma NestedTypeListIsNotIdempotent()
    ensures
      var n := Dict(map[Type := List([List([NULL_NAME])])]);
      !Exits(n) && Convert(Convert(n)) != Convert(n)
  {
    var inner := List([NULL_NAME]);
    var m: Entries := map[Type := List([inner])];
    var n := Dict(m);
    assert Keep(ConcreteType(), [inner]) == [inner] by { KeepAll(ConcreteType(), [inner]); }
    assert Local(m) == map[Type := inner];
    ConvertDict(m);
    ConvertList([NULL_NAME]);
    assert Convert(inner).items == [NULL_NAME];
    var m1: Entries := map[Type := inner];
    assert Convert(n).entries == m1;
    assert Type !in Local(m1) by {
      assert Keep(ConcreteType(), [NULL_NAME]) == [];
    }
    ConvertDict(m1);
    assert !Exits(inner);
  }

  // ------------------------------------------------------------------ an easier condition

  /** Every type list in the document contains only strings. */
  predicate StringTypes(n: Node) {
    match n
    case List(xs) => forall i | 0 <= i < |xs| :: StringTypes(xs[i])
    case Dict(m) =>
      && (Type in m && m[Type].List? ==> forall t | t in m[Type].items :: t.Str?)
      && forall k | k in m :: StringTypes(m[k])
    case _ => true
  }

  lemma SublistStringTypes(xs: seq<Node>, ys: seq<Node>)
    requires StringTypes(List(xs)) && forall y | y in ys :: y in xs
    ensures StringTypes(List(ys))
  {
    forall i | 0 <= i < |ys| ensures StringTypes(ys[i]) {
      assert ys[i] in ys;
    }
  }

  lemma LocalStringTypes(m: Entries, k: Key)
    requires StringTypes(Dict(m)) && k in Local(m)
    ensures StringTypes(Local(m)[k])
  {
    var l := Local(m);
    LocalBranches(m);
    LocalEnum(m);
    if MultiType(m) {
      MultiTypeStays(m);
    } else {
      LocalType(m);
    }
    if k !in {AnyOf, AllOf, Type, Enum} {
      LocalOther(m, k);
    }
    hide Local;
    if k == AnyOf || k == AllOf {
      if AnyOf in m && m[AnyOf].List? {
        SublistStringTypes(m[AnyOf].items, Keep(NotNullBranch(), m[AnyOf].items));
      }
    } else if k == Enum {
      if m[Enum].List? {
        SublistStringTypes(m[Enum].items, Keep(NotNull(), m[Enum].items));
      }
    } else if k == Type && m[Type].List? && !MultiType(m) {
      var concrete := Keep(ConcreteType(), m[Type].items);
      assert concrete[0] in concrete;
    }
  }

  lemma StringTypeIsFlat(m: Entries)
    requires StringTypes(Dict(m))
    ensures FlatType(m)
  {
    if Type in m && m[Type].List? {
      var concrete := Keep(ConcreteType(), m[Type].items);
      assert |concrete| == 1 ==> concrete[0] in concrete;
    }
  }

  /** If type lists contain only strings, nothing is ever left to do. */
  lemma {:induction false} StringTypesAreFlat(n: Node)
    requires StringTypes(n)
    ensures FlatTypes(n)
    decreases Depth(n)
  {
    match n
    case List(xs) =>
      forall i | 0 <= i < |xs| ensures FlatTypes(xs[i]) {
        DepthOfItem(xs, xs[i]);
        StringTypesAreFlat(xs[i]);
      }
    case Dict(m) =>
      var l := Local(m);
      forall k | k in l ensures FlatTypes(l[k]) {
        LocalDepth(m, k);
        LocalStringTypes(m, k);
        StringTypesAreFlat(l[k]);
      }
      StringTypeIsFlat(m);
    case _ =>
  }

  /** The condition does not exclude the documents on which the script exits. */
  lemma SeveralNamesExit(names: seq<Node>)
    requires (forall t | t in names :: t.Str?) && |Keep(ConcreteType(), names)| > 1
    ensures FlatTypes(Dict(map[Type := List(names)])) && Exits(Dict(map[Type := List(names)]))
  {
    StringTypesAreFlat(Dict(map[Type := List(names)]));
  }
}
