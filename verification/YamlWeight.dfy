/** Every change the conversion makes removes something: a weight of documents that drops whenever
    the conversion does anything.  It follows that the conversion never permutes a list of documents. */
module YamlWeight {
  import opened YamlTree
  import opened YamlNormalForm

  // ------------------------------------------------------------------ sums

  ghost function Sum(ns: seq<nat>): nat {
    if ns == [] then 0 else ns[0] + Sum(ns[1..])
  }

  ghost function Total(f: map<Key, nat>): nat
    decreases |f|
  {
    if f == map[] then 0
    else
      var k :| k in f;
      f[k] + Total(f - {k})
  }

  ghost function At(f: map<Key, nat>, k: Key): nat { if k in f then f[k] else 0 }

  lemma {:induction false} Drop(f: map<Key, nat>, k: Key)
    ensures Total(f) == At(f, k) + Total(f - {k})
    decreases |f|
  {
    if k !in f {
      assert f - {k} == f;
    } else {
      var j := Picked(f);
      hide Total;
      if j != k {
        Fewer(f, j);
        Fewer(f, k);
        Drop(f - {j}, k);
        Drop(f - {k}, j);
        Swapped(f, j, k);
      }
    }
  }

  lemma Swapped(f: map<Key, nat>, j: Key, k: Key)
    ensures f - {j} - {k} == f - {k} - {j}
  {
  }

  lemma Fewer(f: map<Key, nat>, k: Key)
    requires k in f
    ensures |f - {k}| < |f|
    ensures forall j | j in f && j != k :: j in f - {k} && (f - {k})[j] == f[j]
  {
    assert (f - {k}).Keys == f.Keys - {k};
  }

  lemma Picked(f: map<Key, nat>) returns (j: Key)
    requires f != map[]
    ensures j in f && Total(f) == f[j] + Total(f - {j})
  {
    j :| j in f && Total(f) == f[j] + Total(f - {j});
  }

  lemma Put(f: map<Key, nat>, k: Key, a: nat)
    ensures Total(f[k := a]) + At(f, k) == Total(f) + a
  {
    Drop(f, k);
    Drop(f[k := a], k);
    assert f[k := a] - {k} == f - {k};
  }

  lemma {:induction false} TotalMonotone(f: map<Key, nat>, g: map<Key, nat>)
    requires f.Keys == g.Keys && forall k | k in f :: f[k] <= g[k]
    ensures Total(f) <= Total(g) && (Total(f) == Total(g) ==> f == g)
    decreases |f|
  {
    if f == map[] {
      assert g == map[];
    } else {
      var k :| k in f;
      hide Total;
      Drop(f, k);
      Drop(g, k);
      Fewer(f, k);
      Fewer(g, k);
      TotalMonotone(f - {k}, g - {k});
      if f - {k} == g - {k} && f[k] == g[k] {
        SameButOne(f, g, k);
      }
    }
  }

  lemma SameButOne(f: map<Key, nat>, g: map<Key, nat>, k: Key)
    requires k in f && k in g && f - {k} == g - {k} && f[k] == g[k]
    ensures f == g
  {
    assert f == (f - {k})[k := f[k]];
    assert g == (g - {k})[k := g[k]];
  }

  lemma {:induction false} SumMonotone(xs: seq<nat>, ys: seq<nat>)
    requires |xs| == |ys| && forall i | 0 <= i < |xs| :: xs[i] <= ys[i]
    ensures Sum(xs) <= Sum(ys) && (Sum(xs) == Sum(ys) ==> xs == ys)
  {
    if xs != [] {
      SumMonotone(xs[1..], ys[1..]);
      assert xs == [xs[0]] + xs[1..] && ys == [ys[0]] + ys[1..];
    }
  }

  // ------------------------------------------------------------------ weights

  /** Null weighs two, so that trading a null enum member for `nullable: true` is a loss. */
  ghost function Weight(n: Node): (w: nat)
    ensures w >= 1
  {
    match n
    case Null => 2
    case List(xs) => 1 + Sum(seq(|xs|, i requires 0 <= i < |xs| => Weight(xs[i])))
    case Dict(m) => 1 + Total(map k | k in m :: Weight(m[k]))
    case _ => 1
  }

  ghost function Weights(m: Entries): map<Key, nat> { map k | k in m :: Weight(m[k]) }

  ghost function ListWeight(xs: seq<Node>): nat { Sum(seq(|xs|, i requires 0 <= i < |xs| => Weight(xs[i]))) }

  lemma ListWeightCons(xs: seq<Node>)
    requires xs != []
    ensures ListWeight(xs) == Weight(xs[0]) + ListWeight(xs[1..])
  {
    var ns := seq(|xs|, i requires 0 <= i < |xs| => Weight(xs[i]));
    assert ns[1..] == seq(|xs[1..]|, i requires 0 <= i < |xs[1..]| => Weight(xs[1..][i]));
  }

  /** Dropping members lightens a list, by what every dropped member weighs at least. */
  lemma {:induction false} KeepWeight(keep: Node -> bool, xs: seq<Node>, w: nat)
    requires forall x | x in xs && !keep(x) :: Weight(x) >= w
    ensures ListWeight(xs) >= ListWeight(Keep(keep, xs)) + if Keep(keep, xs) == xs then 0 else w
  {
    if xs != [] {
      hide Weight, ListWeight;
      var rest := Keep(keep, xs[1..]);
      var r := Keep(keep, xs);
      ListWeightCons(xs);
      KeepWeight(keep, xs[1..], w);
      if keep(xs[0]) {
        assert r == [xs[0]] + rest;
        ListWeightCons(r);
        assert r[1..] == rest;
        assert xs == [xs[0]] + xs[1..];
      } else {
        assert r == rest;
      }
    }
  }

  ghost function EntriesWeight(m: Entries): nat { Total(Weights(m)) }

  lemma PutEntry(m: Entries, k: Key, v: Node)
    ensures EntriesWeight(m[k := v]) + At(Weights(m), k) == EntriesWeight(m) + Weight(v)
  {
    Put(Weights(m), k, Weight(v));
    assert Weights(m[k := v]) == Weights(m)[k := Weight(v)];
  }

  lemma DropEntry(m: Entries, k: Key)
    ensures EntriesWeight(m) == At(Weights(m), k) + EntriesWeight(m - {k})
  {
    Drop(Weights(m), k);
    assert Weights(m - {k}) == Weights(m) - {k};
  }

  // ------------------------------------------------------------------ the three steps lose weight

  ghost predicate Lighter(m: Entries, m': Entries) {
    m' == m || EntriesWeight(m') < EntriesWeight(m)
  }

  lemma NullBranchWeight(b: Node)
    requires NullBranch(b)
    ensures Weight(b) >= 2
  {
    DropEntry(b.entries, Type);
  }

  lemma EnumStepLighter(m: Entries)
    ensures Lighter(m, StepEnum(m))
  {
    if Enum in m && m[Enum].List? && Null in m[Enum].items {
      var xs := m[Enum].items;
      var rest := Keep(NotNull(), xs);
      KeepWeight(NotNull(), xs, 2);
      KeepAll(NotNull(), xs);
      PutEntry(m, Enum, List(rest));
      PutEntry(m[Enum := List(rest)], Nullable, Bool(true));
    }
  }

  lemma TypeStepLighter(m: Entries)
    ensures Lighter(m, StepType(m))
  {
    if Type in m && m[Type].List? && !MultiType(m) {
      var xs := m[Type].items;
      var concrete := Keep(ConcreteType(), xs);
      KeepWeight(ConcreteType(), xs, 1);
      KeepAll(ConcreteType(), xs);
      if |concrete| == 1 {
        ListWeightCons(concrete);
        PutEntry(m, Type, concrete[0]);
        PutEntry(m[Type := concrete[0]], Nullable, Bool(true));
      } else {
        DropEntry(m, Type);
        PutEntry(m - {Type}, Nullable, Bool(true));
      }
    }
  }

  lemma AnyOfStepLighter(m: Entries)
    ensures Lighter(m, StepAnyOf(m))
  {
    if AnyOf in m && m[AnyOf].List? {
      var xs := m[AnyOf].items;
      var rest := Keep(NotNullBranch(), xs);
      forall x | x in xs && !NotNullBranch()(x) ensures Weight(x) >= 2 { NullBranchWeight(x); }
      KeepWeight(NotNullBranch(), xs, 2);
      if |rest| == 1 {
        assert rest == [rest[0]];
        DropEntry(m, AnyOf);
        PutEntry(m - {AnyOf}, AllOf, List(rest));
        PutEntry((m - {AnyOf})[AllOf := List(rest)], Nullable, Bool(true));
      } else {
        PutEntry(m, AnyOf, List(rest));
        PutEntry(m[AnyOf := List(rest)], Nullable, Bool(true));
      }
    }
  }

  lemma LocalLighter(m: Entries)
    ensures Lighter(m, Local(m))
  {
    hide StepAnyOf, StepType, StepEnum, EntriesWeight;
    AnyOfStepLighter(m);
    TypeStepLighter(StepAnyOf(m));
    EnumStepLighter(StepType(StepAnyOf(m)));
  }

  /** The conversion changes nothing or loses weight. */
  lemma {:induction false} ConvertLighter(n: Node)
    ensures Convert(n) == n || Weight(Convert(n)) < Weight(n)
    decreases Depth(n)
  {
    match n
    case List(xs) =>
      ConvertList(xs);
      var ys := Convert(n).items;
      forall i | 0 <= i < |xs| ensures Weight(ys[i]) < Weight(xs[i]) || ys[i] == xs[i] {
        DepthOfItem(xs, xs[i]);
        ConvertLighter(xs[i]);
      }
      LighterList(xs, ys);
    case Dict(m) =>
      ConvertDict(m);
      var l, c := Local(m), Convert(n).entries;
      forall k | k in l ensures Weight(c[k]) < Weight(l[k]) || c[k] == l[k] {
        LocalDepth(m, k);
        ConvertLighter(l[k]);
      }
      LocalLighter(m);
      LighterEntries(l, c);
      DictWeight(m);
      DictWeight(c);
    case _ =>
  }

  lemma DictWeight(m: Entries)
    ensures Weight(Dict(m)) == 1 + EntriesWeight(m)
  {
  }

  lemma LighterList(xs: seq<Node>, ys: seq<Node>)
    requires |xs| == |ys| && forall i | 0 <= i < |xs| :: Weight(ys[i]) < Weight(xs[i]) || ys[i] == xs[i]
    ensures ys == xs || Weight(List(ys)) < Weight(List(xs))
  {
    var vs := seq(|xs|, i requires 0 <= i < |xs| => Weight(xs[i]));
    var ws := seq(|ys|, i requires 0 <= i < |ys| => Weight(ys[i]));
    SumMonotone(ws, vs);
    if ws == vs {
      forall i | 0 <= i < |xs| ensures ys[i] == xs[i] {
        assert ws[i] == vs[i];
      }
    }
  }

  lemma LighterEntries(l: Entries, c: Entries)
    requires l.Keys == c.Keys && forall k | k in l :: Weight(c[k]) < Weight(l[k]) || c[k] == l[k]
    ensures c == l || EntriesWeight(c) < EntriesWeight(l)
  {
    TotalMonotone(Weights(c), Weights(l));
    if Weights(c) == Weights(l) {
      assert forall k | k in l :: Weights(c)[k] == Weights(l)[k];
      assert c == l;
    }
  }

  // ------------------------------------------------------------------ lists of documents

  /** Every non-null member is what some member becomes. */
  predicate Survive(members: seq<Node>) {
    forall x | x in members && x != Null :: exists y | y in members :: Convert(y) == x
  }

  /** A heaviest member among those the conversion changes. */
  lemma {:induction false} HeaviestChanged(members: seq<Node>, x: Node) returns (h: Node)
    requires x in members && Convert(x) != x
    ensures h in members && Convert(h) != h
    ensures forall y | y in members && Convert(y) != y :: Weight(y) <= Weight(h)
  {
    var i :| 0 <= i < |members| && members[i] == x;
    h := x;
    for j := 0 to |members|
      invariant h in members && Convert(h) != h
      invariant forall y | y in members[..j] && Convert(y) != y :: Weight(y) <= Weight(h)
    {
      if Convert(members[j]) != members[j] && Weight(members[j]) > Weight(h) {
        h := members[j];
      }
      assert members[..j + 1] == members[..j] + [members[j]];
    }
    assert members[..|members|] == members;
  }

  /** Members all reappear after conversion exactly when none of them is changed. */
  lemma SurviveIffUnchanged(members: seq<Node>)
    ensures Survive(members) <==> forall x | x in members :: Convert(x) == x
  {
    if Survive(members) {
      if x :| x in members && Convert(x) != x {
        var h := HeaviestChanged(members, x);
        assert h != Null;
        var y :| y in members && Convert(y) == h;
        ConvertLighter(y);
      }
    }
  }
}
