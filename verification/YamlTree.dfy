/** YAML documents as trees, and the 3.1 -> 3.0 projection as a function on trees.

    This is the reference against which the in-place conversion (module YamlHeap) is proved,
    and the object whose meaning module SchemaMeaning talks about. */
module YamlTree {

  /** The keys that the conversion or the schema semantics look at; every other key is Other. */
  datatype Key = Type | Enum | AnyOf | AllOf | Nullable | Properties | Items | Other(name: string)

  /** What a YAML loader produces: scalars, lists and dictionaries.
      Instances validated against a schema are values of the same type. */
  datatype Node =
    | Null
    | Bool(b: bool)
    | Num(n: real)
    | Str(s: string)
    | List(items: seq<Node>)
    | Dict(entries: map<Key, Node>)

  type Entries = map<Key, Node>

  const NULL_NAME: Node := Str("null")

  // ------------------------------------------------------------------ filtering

  /** The elements that satisfy keep, in order. */
  function Keep<T>(keep: T -> bool, xs: seq<T>): (r: seq<T>)
    ensures |r| <= |xs|
    ensures forall x | x in r :: x in xs && keep(x)
    ensures forall x | x in xs && keep(x) :: x in r
    ensures |r| == |xs| ==> r == xs
  {
    if xs == [] then []
    else
      assert xs == [xs[0]] + xs[1..];
      (if keep(xs[0]) then [xs[0]] else []) + Keep(keep, xs[1..])
  }

  /** Nothing is dropped exactly when everything satisfies keep. */
  lemma KeepAll<T>(keep: T -> bool, xs: seq<T>)
    ensures |Keep(keep, xs)| == |xs| <==> forall x | x in xs :: keep(x)
  {
    if forall x | x in xs :: keep(x) {
      KeepIsIdentity(keep, xs);
    }
  }

  lemma {:induction false} KeepIsIdentity<T>(keep: T -> bool, xs: seq<T>)
    requires forall x | x in xs :: keep(x)
    ensures Keep(keep, xs) == xs
  {
    if xs != [] {
      KeepIsIdentity(keep, xs[1..]);
    }
  }

  lemma {:induction false} KeepAppend<T>(keep: T -> bool, xs: seq<T>, x: T)
    ensures Keep(keep, xs + [x]) == Keep(keep, xs) + (if keep(x) then [x] else [])
  {
    if xs == [] {
      assert [x] == [x] + [];
    } else {
      assert (xs + [x])[1..] == xs[1..] + [x];
      KeepAppend(keep, xs[1..], x);
    }
  }

  // ------------------------------------------------------------------ depth

  ghost function MaxOf(s: set<nat>): (r: nat)
    ensures forall x | x in s :: x <= r
    ensures r == 0 || r in s
  {
    if s == {} then 0
    else
      var x :| x in s;
      var y := MaxOf(s - {x});
      assert s == (s - {x}) + {x};
      if x < y then y else x
  }

  /** Nesting depth: the termination measure of the conversion. */
  ghost function Depth(n: Node): nat
  {
    match n
    case List(xs) => 1 + MaxOf(set i | 0 <= i < |xs| :: Depth(xs[i]))
    case Dict(m) => 1 + MaxOf(set k | k in m :: Depth(m[k]))
    case _ => 0
  }

  lemma DepthOfItem(xs: seq<Node>, x: Node)
    requires x in xs
    ensures Depth(x) < Depth(List(xs))
  {
    var ds := set i | 0 <= i < |xs| :: Depth(xs[i]);
    assert Depth(x) in ds;
  }

  lemma DepthOfEntry(m: Entries, k: Key)
    requires k in m
    ensures Depth(m[k]) < Depth(Dict(m))
  {
    var ds := set k | k in m :: Depth(m[k]);
    assert Depth(m[k]) in ds;
  }

  lemma DepthListBound(xs: seq<Node>, d: nat)
    requires forall x | x in xs :: Depth(x) < d
    ensures Depth(List(xs)) <= if xs == [] then 1 else d
  {
    var ds := set i | 0 <= i < |xs| :: Depth(xs[i]);
    if xs != [] {
      assert xs[0] in xs;
    }
    forall e | e in ds ensures e < d {
      var i :| 0 <= i < |xs| && e == Depth(xs[i]);
      assert xs[i] in xs;
    }
  }

  lemma DepthDictBound(m: Entries, d: nat)
    requires forall k | k in m :: Depth(m[k]) < d
    ensures Depth(Dict(m)) <= if m == map[] then 1 else d
  {
    var ds := set k | k in m :: Depth(m[k]);
    assert forall k | k in m :: Depth(m[k]) in ds;
  }

  lemma DepthOfSublist(xs: seq<Node>, ys: seq<Node>)
    requires forall y | y in ys :: y in xs
    ensures Depth(List(ys)) <= Depth(List(xs))
  {
    forall y | y in ys ensures Depth(y) < Depth(List(xs)) { DepthOfItem(xs, y); }
    DepthListBound(ys, Depth(List(xs)));
  }

  // ------------------------------------------------------------------ one dictionary

  /** A branch that spells "null": a dictionary whose type is exactly the string "null". */
  predicate NullBranch(b: Node) {
    b.Dict? && Type in b.entries && b.entries[Type] == NULL_NAME
  }

  function NotNullBranch(): Node -> bool { b => !NullBranch(b) }

  function ConcreteType(): Node -> bool { t => t != NULL_NAME }

  function NotNull(): Node -> bool { x => x != Null }

  /** anyOf: null branches go; a single survivor becomes allOf, overwriting any allOf already there. */
  function StepAnyOf(m: Entries): Entries {
    if AnyOf in m && m[AnyOf].List? then
      var branches := m[AnyOf].items;
      var rest := Keep(NotNullBranch(), branches);
      if |rest| == |branches| then m
      else if |rest| == 1 then (m - {AnyOf})[AllOf := List([rest[0]])][Nullable := Bool(true)]
      else m[AnyOf := List(rest)][Nullable := Bool(true)]
    else m
  }

  /** More than one concrete type name: the script gives up. */
  predicate MultiType(m: Entries) {
    Type in m && m[Type].List? && |Keep(ConcreteType(), m[Type].items)| > 1
  }

  /** type: a list collapses to its only concrete member, or disappears. */
  function StepType(m: Entries): Entries {
    if Type in m && m[Type].List? && !MultiType(m) then
      var names := m[Type].items;
      var concrete := Keep(ConcreteType(), names);
      var single := if |concrete| == 1 then m[Type := concrete[0]] else m - {Type};
      if NULL_NAME in names then single[Nullable := Bool(true)] else single
    else m
  }

  /** enum: null members go. */
  function StepEnum(m: Entries): Entries {
    if Enum in m && m[Enum].List? && Null in m[Enum].items then
      m[Enum := List(Keep(NotNull(), m[Enum].items))][Nullable := Bool(true)]
    else m
  }

  function Local(m: Entries): Entries {
    StepEnum(StepType(StepAnyOf(m)))
  }

  /** A dictionary on which none of the three steps has anything to do. */
  predicate Settled(m: Entries) {
    && (AnyOf in m && m[AnyOf].List? ==> forall b | b in m[AnyOf].items :: !NullBranch(b))
    && !(Type in m && m[Type].List?)
    && (Enum in m && m[Enum].List? ==> Null !in m[Enum].items)
  }

  lemma SettledIsUnchanged(m: Entries)
    requires Settled(m)
    ensures Local(m) == m
  {
    if AnyOf in m && m[AnyOf].List? {
      KeepAll(NotNullBranch(), m[AnyOf].items);
    }
  }

  // ------------------------------------------------------------------ keyword by keyword

  predicate HasNullBranch(m: Entries) {
    AnyOf in m && m[AnyOf].List? && exists b | b in m[AnyOf].items :: NullBranch(b)
  }

  /** Line 37 of the script puts a new allOf over whatever allOf the node had. */
  predicate AllOfOverwritten(m: Entries) {
    HasNullBranch(m) && |Keep(NotNullBranch(), m[AnyOf].items)| == 1
  }

  predicate NullableTrue(m: Entries) {
    Nullable in m && m[Nullable] == Bool(true)
  }

  predicate SameAt(m: Entries, l: Entries, k: Key) {
    (k in l <==> k in m) && (k in m ==> l[k] == m[k])
  }

  // What each of the three steps leaves alone.

  lemma AnyOfStepKeeps(m: Entries)
    ensures forall k | k !in {AnyOf, AllOf, Nullable} :: SameAt(m, StepAnyOf(m), k)
    ensures NullableTrue(m) ==> NullableTrue(StepAnyOf(m))
  {
  }

  lemma TypeStepKeeps(m: Entries)
    ensures forall k | k !in {Type, Nullable} :: SameAt(m, StepType(m), k)
    ensures NullableTrue(m) ==> NullableTrue(StepType(m))
  {
  }

  lemma EnumStepKeeps(m: Entries)
    ensures forall k | k !in {Enum, Nullable} :: SameAt(m, StepEnum(m), k)
    ensures NullableTrue(m) ==> NullableTrue(StepEnum(m))
  {
  }

  // What the three steps together leave under each keyword.

  lemma LocalKeeps(m: Entries)
    ensures SameAt(m, Local(m), Properties) && SameAt(m, Local(m), Items)
  {
    var a := StepAnyOf(m);
    var b := StepType(a);
    hide StepAnyOf, StepType, StepEnum;
    AnyOfStepKeeps(m);
    TypeStepKeeps(a);
    EnumStepKeeps(b);
    forall k | k in {Properties, Items} ensures SameAt(m, Local(m), k) {
      assert SameAt(m, a, k) && SameAt(a, b, k) && SameAt(b, StepEnum(b), k);
    }
  }

  ghost predicate BranchesBecome(m: Entries, l: Entries) {
    && (AnyOf in m && m[AnyOf].List? ==>
          var rest := Keep(NotNullBranch(), m[AnyOf].items);
          && (if AllOfOverwritten(m) then AnyOf !in l && AllOf in l && l[AllOf] == List(rest)
              else AnyOf in l && l[AnyOf] == List(rest))
          && (HasNullBranch(m) ==> NullableTrue(l)))
    && (!(AnyOf in m && m[AnyOf].List?) ==> SameAt(m, l, AnyOf))
    && (!AllOfOverwritten(m) ==> SameAt(m, l, AllOf))
  }

  lemma AnyOfStepBranches(m: Entries)
    ensures BranchesBecome(m, StepAnyOf(m))
  {
    if AnyOf in m && m[AnyOf].List? {
      KeepAll(NotNullBranch(), m[AnyOf].items);
      var rest := Keep(NotNullBranch(), m[AnyOf].items);
      if |rest| == 1 {
        assert [rest[0]] == rest;
      }
    }
  }

  lemma LocalBranches(m: Entries)
    ensures BranchesBecome(m, Local(m))
  {
    var a := StepAnyOf(m);
    var b := StepType(a);
    hide StepAnyOf, StepType, StepEnum;
    AnyOfStepBranches(m);
    TypeStepKeeps(a);
    EnumStepKeeps(b);
    assert SameAt(a, b, AnyOf) && SameAt(b, StepEnum(b), AnyOf);
    assert SameAt(a, b, AllOf) && SameAt(b, StepEnum(b), AllOf);
  }

  ghost predicate TypeBecomes(m: Entries, l: Entries) {
    if Type in m && m[Type].List? then
      var names := m[Type].items;
      var concrete := Keep(ConcreteType(), names);
      && (if |concrete| == 1 then Type in l && l[Type] == concrete[0] else Type !in l)
      && (NULL_NAME in names ==> NullableTrue(l))
    else SameAt(m, l, Type)
  }

  lemma LocalType(m: Entries)
    requires !MultiType(m)
    ensures TypeBecomes(m, Local(m))
  {
    var a := StepAnyOf(m);
    AnyOfStepKeeps(m);
    hide StepAnyOf, StepEnum;
    assert SameAt(m, a, Type);
    assert TypeBecomes(a, StepType(a));
    EnumStepKeeps(StepType(a));
    assert SameAt(StepType(a), Local(m), Type);
  }

  lemma MultiTypeStays(m: Entries)
    requires MultiType(m)
    ensures SameAt(m, Local(m), Type)
  {
    var a := StepAnyOf(m);
    AnyOfStepKeeps(m);
    assert SameAt(m, a, Type);
    assert StepType(a) == a;
    EnumStepKeeps(a);
    assert SameAt(a, Local(m), Type);
  }

  ghost predicate EnumBecomes(m: Entries, l: Entries) {
    if Enum in m && m[Enum].List? then
      && Enum in l && l[Enum] == List(Keep(NotNull(), m[Enum].items))
      && (Null in m[Enum].items ==> NullableTrue(l))
    else SameAt(m, l, Enum)
  }

  lemma LocalEnum(m: Entries)
    ensures EnumBecomes(m, Local(m))
  {
    var a := StepAnyOf(m);
    var b := StepType(a);
    AnyOfStepKeeps(m);
    TypeStepKeeps(a);
    hide StepAnyOf, StepType;
    assert SameAt(m, a, Enum) && SameAt(a, b, Enum);
    if Enum in b && b[Enum].List? {
      KeepAll(NotNull(), b[Enum].items);
    }
  }

  /** Keys that no step touches keep their value; nullable keeps its own or becomes true. */
  lemma LocalOther(m: Entries, k: Key)
    requires k in Local(m) && k !in {AnyOf, AllOf, Type, Enum}
    ensures (k in m && Local(m)[k] == m[k]) || (k == Nullable && Local(m)[k] == Bool(true))
  {
    var a := StepAnyOf(m);
    var b := StepType(a);
    assert StepEnum(b)[k] == Bool(true) || (k in b && StepEnum(b)[k] == b[k]);
    assert k in b ==> b[k] == Bool(true) || (k in a && b[k] == a[k]);
    AnyOfStepKeeps(m);
    TypeStepKeeps(a);
    EnumStepKeeps(b);
    if k != Nullable {
      assert SameAt(m, a, k) && SameAt(a, b, k) && SameAt(b, StepEnum(b), k);
    }
  }

  lemma AnyOfStepDepth(m: Entries, k: Key)
    requires k in StepAnyOf(m)
    ensures Depth(StepAnyOf(m)[k]) < Depth(Dict(m))
  {
    hide NullBranch, MaxOf;
    if k in m && StepAnyOf(m)[k] == m[k] {
      DepthOfEntry(m, k);
    } else {
      var branches := m[AnyOf].items;
      var rest := Keep(NotNullBranch(), branches);
      assert rest != branches;
      DepthOfEntry(m, AnyOf);
      if k == AllOf {
        DepthOfSublist(branches, [rest[0]]);
      } else if k == AnyOf {
        DepthOfSublist(branches, rest);
      } else {
        assert StepAnyOf(m)[k] == Bool(true);
      }
    }
  }

  lemma TypeStepDepth(m: Entries, k: Key, d: nat)
    requires forall j | j in m :: Depth(m[j]) < d
    requires k in StepType(m)
    ensures Depth(StepType(m)[k]) < d
  {
    if Type in m && m[Type].List? {
      var concrete := Keep(ConcreteType(), m[Type].items);
      if |concrete| == 1 {
        DepthOfItem(m[Type].items, concrete[0]);
      }
      assert Depth(m[Type]) < d;
    }
  }

  lemma EnumStepDepth(m: Entries, k: Key, d: nat)
    requires forall j | j in m :: Depth(m[j]) < d
    requires k in StepEnum(m)
    ensures Depth(StepEnum(m)[k]) < d
  {
    if Enum in m && m[Enum].List? {
      DepthOfSublist(m[Enum].items, Keep(NotNull(), m[Enum].items));
      assert Depth(m[Enum]) < d;
    }
  }

  lemma LocalDepth(m: Entries, k: Key)
    requires k in Local(m)
    ensures Depth(Local(m)[k]) < Depth(Dict(m))
  {
    var a := StepAnyOf(m);
    var b := StepType(a);
    var d := Depth(Dict(m));
    hide StepAnyOf, StepType, StepEnum, Depth;
    forall j | j in a ensures Depth(a[j]) < d { AnyOfStepDepth(m, j); }
    forall j | j in b ensures Depth(b[j]) < d { TypeStepDepth(a, j, d); }
    EnumStepDepth(b, k, d);
  }

  // ------------------------------------------------------------------ whole documents

  /** The converted tree.  Only meaningful when the script does not exit. */
  function Convert(n: Node): Node
    decreases Depth(n)
  {
    match n
    case List(xs) =>
      List(seq(|xs|, i requires 0 <= i < |xs| => DepthOfItem(xs, xs[i]); Convert(xs[i])))
    case Dict(m) =>
      var l := Local(m);
      Dict(map k | k in l :: LocalDepth(m, k); Convert(l[k]))
    case _ => n
  }

  /** The script meets a type list it cannot express and stops without writing anything.
      Parts that are dropped before they are visited cannot make it stop. */
  predicate Exits(n: Node)
    decreases Depth(n)
  {
    match n
    case List(xs) =>
      exists i | 0 <= i < |xs| :: (DepthOfItem(xs, xs[i]); Exits(xs[i]))
    case Dict(m) =>
      var l := Local(m);
      MultiType(m) || exists k | k in l :: (LocalDepth(m, k); Exits(l[k]))
    case _ => false
  }
}
