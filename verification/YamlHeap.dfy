/** The conversion as the script performs it: in place, on dictionaries and lists that may be
    shared (YAML anchors and aliases load as one object referenced from several places).

    There is no visited set in the script, so a shared node is converted once per reference.
    The result proved here is that this does not matter: the document ends up as if every
    reference had been a separate copy converted on its own. */
module YamlHeap {
  import opened YamlTree
  import opened YamlNormalForm

  /** A YAML value in memory: a scalar, or a reference to a container object. */
  datatype Ref = Scalar(leaf: Node) | Obj(c: Cell)

  /** A container.  The script assigns to dictionaries only; it builds new lists but never
      changes one. */
  class Cell {
    const isDict: bool
    const items: seq<Ref>
    var dict: map<Key, Ref>

    constructor FromList(xs: seq<Ref>)
      ensures !isDict && items == xs
    {
      isDict, items, dict := false, xs, map[];
    }
  }

  predicate IsLeaf(n: Node) { !n.List? && !n.Dict? }

  /** The tree y is what one sees when following all references from r. */
  ghost predicate Unfolds(r: Ref, y: Node, cells: set<Cell>)
    reads cells
    decreases y
  {
    match r
    case Scalar(n) => n == y && IsLeaf(y)
    case Obj(c) =>
      && c in cells
      && match y
         case List(ys) =>
           !c.isDict && |c.items| == |ys| && forall i | 0 <= i < |ys| :: Unfolds(c.items[i], ys[i], cells)
         case Dict(m) =>
           c.isDict && c.dict.Keys == m.Keys && forall k | k in m :: Unfolds(c.dict[k], m[k], cells)
         case _ => false
  }

  lemma {:induction false} UnfoldsToOneTree(r: Ref, y: Node, z: Node, cells: set<Cell>)
    requires Unfolds(r, y, cells) && Unfolds(r, z, cells)
    ensures y == z
    decreases y
  {
    match y
    case List(ys) =>
      forall i | 0 <= i < |ys| ensures ys[i] == z.items[i] {
        UnfoldsToOneTree(r.c.items[i], ys[i], z.items[i], cells);
      }
    case Dict(m) =>
      forall k | k in m ensures m[k] == z.entries[k] {
        UnfoldsToOneTree(r.c.dict[k], m[k], z.entries[k], cells);
      }
      assert m == z.entries;
    case _ =>
  }

  // ------------------------------------------------------------------ the proof's bookkeeping
  //
  // orig gives every container the tree it stood for before the conversion touched it.
  // A cell is busy while the loop over its entries runs, and done once all its children are done;
  // in both phases its own three steps have run.

  type Origins = map<Cell, Node>

  ghost predicate Known(r: Ref, orig: Origins) {
    match r
    case Scalar(n) => IsLeaf(n)
    case Obj(c) => c in orig && !IsLeaf(orig[c])
  }

  ghost function OrigOf(r: Ref, orig: Origins): Node
    requires Known(r, orig)
  {
    match r
    case Scalar(n) => n
    case Obj(c) => orig[c]
  }

  /** One level of c looks like one level of y, the children being given by their origins. */
  ghost predicate Shape(c: Cell, y: Node, orig: Origins)
    reads c
  {
    match y
    case List(ys) =>
      && !c.isDict && |c.items| == |ys|
      && forall i | 0 <= i < |ys| :: Known(c.items[i], orig) && OrigOf(c.items[i], orig) == ys[i]
    case Dict(m) => c.isDict && DictShape(c.dict, m, orig)
    case _ => false
  }

  ghost predicate DictShape(dict: map<Key, Ref>, m: Entries, orig: Origins) {
    && dict.Keys == m.Keys
    && forall k | k in m :: Known(dict[k], orig) && OrigOf(dict[k], orig) == m[k]
  }

  /** What a cell's own level becomes. */
  ghost function Cooked(y: Node): Node {
    if y.Dict? then Dict(Local(y.entries)) else y
  }

  ghost predicate ChildDone(r: Ref, done: set<Cell>) { r.Obj? ==> r.c in done }

  ghost predicate ChildrenDone(c: Cell, done: set<Cell>)
    reads c
  {
    if c.isDict then forall k | k in c.dict :: ChildDone(c.dict[k], done)
    else forall i | 0 <= i < |c.items| :: ChildDone(c.items[i], done)
  }

  ghost predicate CellOk(c: Cell, orig: Origins, busy: set<Cell>, done: set<Cell>)
    requires c in orig
    reads c
  {
    && Shape(c, if c in busy + done then Cooked(orig[c]) else orig[c], orig)
    && (c in done ==> ChildrenDone(c, done) && !Exits(orig[c]) && FlatTypes(orig[c]))
  }

  ghost predicate Inv(orig: Origins, busy: set<Cell>, done: set<Cell>)
    reads orig.Keys
  {
    && busy <= orig.Keys && done <= orig.Keys
    && forall c | c in orig :: CellOk(c, orig, busy, done)
  }

  ghost predicate Extends(orig: Origins, orig': Origins) {
    orig.Keys <= orig'.Keys && forall c | c in orig :: orig'[c] == orig[c]
  }

  lemma ShapeExtends(c: Cell, y: Node, orig: Origins, orig': Origins)
    requires Shape(c, y, orig) && Extends(orig, orig')
    ensures Shape(c, y, orig')
  {
  }

  /** Reading `type` through the heap answers the null-branch test for the original tree,
      whether or not the branch has been converted already. */
  lemma NullTestIsStable(d: Cell, orig: Origins, busy: set<Cell>, done: set<Cell>)
    requires Inv(orig, busy, done) && d in orig
    ensures (d.isDict && Type in d.dict && d.dict[Type] == Scalar(NULL_NAME)) <==> NullBranch(orig[d])
  {
    assert CellOk(d, orig, busy, done);
    if orig[d].Dict? {
      LocalKeepsNullName(orig[d].entries);
    }
  }

  /** At the start every cell simply unfolds to its tree. */
  lemma InitialInv(orig: Origins)
    requires forall c | c in orig :: Unfolds(Obj(c), orig[c], orig.Keys)
    ensures Inv(orig, {}, {})
  {
    forall c | c in orig ensures Shape(c, orig[c], orig) {
      var y := orig[c];
      if y.List? {
        forall i | 0 <= i < |y.items|
          ensures Known(c.items[i], orig) && OrigOf(c.items[i], orig) == y.items[i]
        {
          ReferenceIsKnown(c.items[i], y.items[i], orig);
        }
      } else {
        forall k | k in y.entries
          ensures Known(c.dict[k], orig) && OrigOf(c.dict[k], orig) == y.entries[k]
        {
          ReferenceIsKnown(c.dict[k], y.entries[k], orig);
        }
      }
    }
  }

  lemma ReferenceIsKnown(r: Ref, y: Node, orig: Origins)
    requires forall c | c in orig :: Unfolds(Obj(c), orig[c], orig.Keys)
    requires Unfolds(r, y, orig.Keys)
    ensures Known(r, orig) && OrigOf(r, orig) == y
  {
    if r.Obj? {
      assert Unfolds(Obj(r.c), orig[r.c], orig.Keys);
      UnfoldsToOneTree(r, y, orig[r.c], orig.Keys);
    }
  }

  /** At the end a done cell unfolds to the converted tree. */
  lemma {:induction false} DoneUnfolds(r: Ref, orig: Origins, busy: set<Cell>, done: set<Cell>)
    requires Inv(orig, busy, done) && Known(r, orig) && ChildDone(r, done)
    ensures Unfolds(r, Convert(OrigOf(r, orig)), orig.Keys)
    decreases Depth(OrigOf(r, orig))
  {
    if r.Obj? {
      var c, y := r.c, orig[r.c];
      assert CellOk(c, orig, busy, done);
      if y.List? {
        ConvertList(y.items);
        forall i | 0 <= i < |y.items| ensures Unfolds(c.items[i], Convert(y.items[i]), orig.Keys) {
          DepthOfItem(y.items, y.items[i]);
          DoneUnfolds(c.items[i], orig, busy, done);
        }
      } else {
        var l := Local(y.entries);
        ConvertDict(y.entries);
        forall k | k in l ensures Unfolds(c.dict[k], Convert(l[k]), orig.Keys) {
          LocalDepth(y.entries, k);
          DoneUnfolds(c.dict[k], orig, busy, done);
        }
      }
    }
  }

  // ------------------------------------------------------------------ the three steps, in place

  /** The invariant for every cell but the one being rewritten. */
  ghost predicate InvExcept(c0: Cell, orig: Origins, busy: set<Cell>, done: set<Cell>)
    reads orig.Keys
  {
    && busy <= orig.Keys && done <= orig.Keys
    && forall c | c in orig && c != c0 :: CellOk(c, orig, busy, done)
  }

  /** A new list is an unconverted cell of its own. */
  lemma AddList(c0: Cell, orig: Origins, busy: set<Cell>, done: set<Cell>, l: Cell, ys: seq<Node>)
    requires InvExcept(c0, orig, busy, done) && c0 in orig && l !in orig
    requires Shape(l, List(ys), orig)
    ensures InvExcept(c0, orig[l := List(ys)], busy, done)
    ensures Extends(orig, orig[l := List(ys)])
  {
    var orig' := orig[l := List(ys)];
    forall c | c in orig' && c != c0 ensures CellOk(c, orig', busy, done) {
      if c == l {
        ShapeExtends(l, List(ys), orig, orig');
      } else {
        assert CellOk(c, orig, busy, done);
        ShapeExtends(c, if c in busy + done then Cooked(orig[c]) else orig[c], orig, orig');
      }
    }
  }

  ghost predicate Corresponds(rs: seq<Ref>, ys: seq<Node>, orig: Origins) {
    |rs| == |ys| && forall i | 0 <= i < |rs| :: Known(rs[i], orig) && OrigOf(rs[i], orig) == ys[i]
  }

  /** Filtering references agrees with filtering the trees they stand for. */
  lemma {:induction false} KeepCorresponds(p: Ref -> bool, rs: seq<Ref>, q: Node -> bool, ys: seq<Node>, orig: Origins)
    requires Corresponds(rs, ys, orig)
    requires forall i | 0 <= i < |rs| :: p(rs[i]) == q(ys[i])
    ensures Corresponds(Keep(p, rs), Keep(q, ys), orig)
  {
    if rs != [] {
      KeepCorresponds(p, rs[1..], q, ys[1..], orig);
    }
  }

  ghost predicate StandsForNullBranch(r: Ref, orig: Origins) {
    r.Obj? && r.c in orig && NullBranch(orig[r.c])
  }

  lemma StandsForItsOrigin(r: Ref, orig: Origins)
    requires Known(r, orig)
    ensures StandsForNullBranch(r, orig) <==> NullBranch(OrigOf(r, orig))
  {
  }

  lemma KeepNothing(p: Ref -> bool)
    ensures Keep(p, []) == []
  {
  }

  /** The comprehension that collects the branches that are not {type: "null"}. */
  method NonNullBranches(branches: seq<Ref>, ghost ys: seq<Node>, ghost orig: Origins, ghost busy: set<Cell>,
                         ghost done: set<Cell>)
    returns (rest: seq<Ref>)
    requires Inv(orig, busy, done) && Corresponds(branches, ys, orig)
    ensures Corresponds(rest, Keep(NotNullBranch(), ys), orig)
  {
    hide Inv, Keep, NullBranch;
    ghost var p := (r: Ref) => !StandsForNullBranch(r, orig);
    rest := [];
    KeepNothing(p);
    for i := 0 to |branches|
      invariant rest == Keep(p, branches[..i])
    {
      var b := branches[i];
      assert branches[..i + 1] == branches[..i] + [b];
      KeepAppend(p, branches[..i], b);
      if b.Obj? {
        NullTestIsStable(b.c, orig, busy, done);
      }
      if !(b.Obj? && b.c.isDict && Type in b.c.dict && b.c.dict[Type] == Scalar(NULL_NAME)) {
        rest := rest + [b];
      }
    }
    assert branches[..|branches|] == branches;
    forall i | 0 <= i < |branches| ensures p(branches[i]) == NotNullBranch()(ys[i]) {
      StandsForItsOrigin(branches[i], orig);
    }
    KeepCorresponds(p, branches, NotNullBranch(), ys, orig);
  }

  lemma AnyOfShape(dict: map<Key, Ref>, m: Entries, orig: Origins, l: Ref)
    requires DictShape(dict, m, orig)
    requires AnyOf in m && m[AnyOf].List?
    requires |Keep(NotNullBranch(), m[AnyOf].items)| != |m[AnyOf].items|
    requires Known(l, orig) && OrigOf(l, orig) == List(Keep(NotNullBranch(), m[AnyOf].items))
    ensures
      var one := |Keep(NotNullBranch(), m[AnyOf].items)| == 1;
      var dict' := if one then (dict - {AnyOf})[AllOf := l] else dict[AnyOf := l];
      DictShape(dict'[Nullable := Scalar(Bool(true))], StepAnyOf(m), orig)
  {
    var kept := Keep(NotNullBranch(), m[AnyOf].items);
    if |kept| == 1 {
      assert kept == [kept[0]];
    }
  }

  method AnyOfStep(c: Cell, ghost m: Entries, ghost orig: Origins, ghost busy: set<Cell>, ghost done: set<Cell>)
    returns (ghost orig': Origins)
    requires Inv(orig, busy, done) && c in orig && Shape(c, Dict(m), orig)
    modifies c
    ensures InvExcept(c, orig', busy, done) && Shape(c, Dict(StepAnyOf(m)), orig')
    ensures Extends(orig, orig') && fresh(orig'.Keys - orig.Keys)
    ensures Settled(m) ==> c.dict == old(c.dict) && orig' == orig
  {
    orig' := orig;
    if AnyOf in c.dict && c.dict[AnyOf].Obj? {
      var list := c.dict[AnyOf].c;
      assert CellOk(list, orig, busy, done);
      if !list.isDict {
        ghost var ys := m[AnyOf].items;
        var rest := NonNullBranches(list.items, ys, orig, busy, done);
        KeepAll(NotNullBranch(), ys);
        if |rest| != |list.items| {
          var l := new Cell.FromList(rest);
          orig' := orig[l := List(Keep(NotNullBranch(), ys))];
          AddList(c, orig, busy, done, l, Keep(NotNullBranch(), ys));
          ShapeExtends(c, Dict(m), orig, orig');
          AnyOfShape(c.dict, m, orig', Obj(l));
          if |rest| == 1 {
            c.dict := (c.dict - {AnyOf})[AllOf := Obj(l)][Nullable := Scalar(Bool(true))];
          } else {
            c.dict := c.dict[AnyOf := Obj(l)][Nullable := Scalar(Bool(true))];
          }
        }
      }
    }
  }

  lemma TypeShape(dict: map<Key, Ref>, m: Entries, orig: Origins, names: seq<Ref>)
    requires DictShape(dict, m, orig) && !MultiType(m)
    requires Type in m && m[Type].List? && Corresponds(names, m[Type].items, orig)
    ensures
      var concrete := Keep((r: Ref) => r != Scalar(NULL_NAME), names);
      var single := if concrete != [] then dict[Type := concrete[0]] else dict - {Type};
      var dict' := if Scalar(NULL_NAME) in names then single[Nullable := Scalar(Bool(true))] else single;
      |concrete| <= 1 && DictShape(dict', StepType(m), orig)
  {
    KeepCorresponds((r: Ref) => r != Scalar(NULL_NAME), names, ConcreteType(), m[Type].items, orig);
    NullNameCorresponds(names, m[Type].items, NULL_NAME, orig);
  }

  lemma NullNameCorresponds(rs: seq<Ref>, ys: seq<Node>, leaf: Node, orig: Origins)
    requires Corresponds(rs, ys, orig) && IsLeaf(leaf)
    ensures Scalar(leaf) in rs <==> leaf in ys
  {
    if leaf in ys {
      var i :| 0 <= i < |ys| && ys[i] == leaf;
      assert rs[i] == Scalar(leaf);
    }
  }

  method TypeStep(c: Cell, ghost m: Entries, ghost orig: Origins, ghost busy: set<Cell>, ghost done: set<Cell>)
    returns (exited: bool)
    requires InvExcept(c, orig, busy, done) && c in orig && orig[c].Dict? && Shape(c, Dict(m), orig)
    modifies c
    ensures exited == MultiType(m)
    ensures !exited ==> InvExcept(c, orig, busy, done) && Shape(c, Dict(StepType(m)), orig)
    ensures Settled(m) ==> c.dict == old(c.dict)
  {
    exited := false;
    if Type in c.dict && c.dict[Type].Obj? {
      var list := c.dict[Type].c;
      assert list != c ==> CellOk(list, orig, busy, done);
      if !list.isDict {
        var names := list.items;
        var concrete := Keep((r: Ref) => r != Scalar(NULL_NAME), names);
        KeepCorresponds((r: Ref) => r != Scalar(NULL_NAME), names, ConcreteType(), m[Type].items, orig);
        if |concrete| > 1 {
          return true;
        }
        TypeShape(c.dict, m, orig, names);
        c.dict := if concrete != [] then c.dict[Type := concrete[0]] else c.dict - {Type};
        if Scalar(NULL_NAME) in names {
          c.dict := c.dict[Nullable := Scalar(Bool(true))];
        }
      }
    }
  }

  lemma EnumShape(dict: map<Key, Ref>, m: Entries, orig: Origins, l: Ref)
    requires DictShape(dict, m, orig)
    requires Enum in m && m[Enum].List? && Null in m[Enum].items
    requires Known(l, orig) && OrigOf(l, orig) == List(Keep(NotNull(), m[Enum].items))
    ensures DictShape(dict[Enum := l][Nullable := Scalar(Bool(true))], StepEnum(m), orig)
  {
  }

  method EnumStep(c: Cell, ghost m: Entries, ghost orig: Origins, ghost busy: set<Cell>, ghost done: set<Cell>)
    returns (ghost orig': Origins)
    requires InvExcept(c, orig, busy, done) && c in orig && orig[c].Dict? && Shape(c, Dict(m), orig)
    modifies c
    ensures InvExcept(c, orig', busy, done) && Shape(c, Dict(StepEnum(m)), orig')
    ensures Extends(orig, orig') && fresh(orig'.Keys - orig.Keys)
    ensures Settled(m) ==> c.dict == old(c.dict) && orig' == orig
  {
    orig' := orig;
    if Enum in c.dict && c.dict[Enum].Obj? {
      var list := c.dict[Enum].c;
      assert list != c ==> CellOk(list, orig, busy, done);
      if !list.isDict {
        ghost var ys := m[Enum].items;
        NullNameCorresponds(list.items, ys, Null, orig);
        if Scalar(Null) in list.items {
          var rest := Keep((r: Ref) => r != Scalar(Null), list.items);
          KeepCorresponds((r: Ref) => r != Scalar(Null), list.items, NotNull(), ys, orig);
          var l := new Cell.FromList(rest);
          orig' := orig[l := List(Keep(NotNull(), ys))];
          AddList(c, orig, busy, done, l, Keep(NotNull(), ys));
          ShapeExtends(c, Dict(m), orig, orig');
          EnumShape(c.dict, m, orig', Obj(l));
          c.dict := c.dict[Enum := Obj(l)][Nullable := Scalar(Bool(true))];
        }
      }
    }
  }

  lemma SettledSteps(m: Entries)
    ensures MultiType(StepAnyOf(m)) == MultiType(m)
    ensures Settled(m) ==> StepAnyOf(m) == m && StepType(m) == m && StepEnum(m) == m
  {
    if Settled(m) {
      SettledIsUnchanged(m);
    }
  }

  /** The three steps in the script's order. */
  method LocalSteps(c: Cell, ghost m: Entries, ghost orig: Origins, ghost busy: set<Cell>, ghost done: set<Cell>)
    returns (exited: bool, ghost orig': Origins)
    requires Inv(orig, busy, done) && c in orig && orig[c].Dict? && Shape(c, Dict(m), orig)
    modifies c
    ensures exited == MultiType(m)
    ensures !exited ==> InvExcept(c, orig', busy, done) && Shape(c, Dict(Local(m)), orig')
    ensures !exited ==> Extends(orig, orig') && fresh(orig'.Keys - orig.Keys)
    ensures Settled(m) ==> c.dict == old(c.dict) && orig' == orig
  {
    SettledSteps(m);
    ghost var a := StepAnyOf(m);
    ghost var b := StepType(a);
    assert Local(m) == StepEnum(b);
    orig' := AnyOfStep(c, m, orig, busy, done);
    ghost var orig1 := orig';
    exited := TypeStep(c, a, orig1, busy, done);
    if exited {
      return;
    }
    orig' := EnumStep(c, b, orig1, busy, done);
  }

  lemma MarkBusy(c: Cell, orig: Origins, busy: set<Cell>, done: set<Cell>)
    requires InvExcept(c, orig, busy, done) && c in orig && c !in done
    requires Shape(c, Cooked(orig[c]), orig)
    ensures Inv(orig, busy + {c}, done)
  {
    forall x | x in orig ensures CellOk(x, orig, busy + {c}, done) {
      if x != c {
        assert CellOk(x, orig, busy, done);
      }
    }
  }

  lemma MarkDone(c: Cell, orig: Origins, busy: set<Cell>, done: set<Cell>)
    requires Inv(orig, busy, done) && c in orig
    requires orig[c].List? || c in busy + done
    requires ChildrenDone(c, done) && !Exits(orig[c]) && FlatTypes(orig[c])
    ensures Inv(orig, busy - {c}, done + {c})
  {
    forall x | x in orig ensures CellOk(x, orig, busy - {c}, done + {c}) {
      assert CellOk(x, orig, busy, done);
    }
  }

  lemma ListFacts(ys: seq<Node>, i: nat)
    requires i < |ys|
    ensures FlatTypes(List(ys)) ==> FlatTypes(ys[i])
    ensures Exits(ys[i]) ==> Exits(List(ys))
    ensures Depth(ys[i]) < Depth(List(ys))
  {
    DepthOfItem(ys, ys[i]);
  }

  lemma NoItemExits(ys: seq<Node>)
    requires forall i | 0 <= i < |ys| :: !Exits(ys[i])
    ensures !Exits(List(ys))
  {
  }

  lemma MultiTypeExits(m: Entries)
    requires MultiType(m)
    ensures Exits(Dict(m))
  {
  }

  lemma NoEntryExits(m: Entries)
    requires !MultiType(m) && forall k | k in Local(m) :: !Exits(Local(m)[k])
    ensures !Exits(Dict(m))
  {
  }

  lemma DictFacts(m: Entries, k: Key)
    requires k in Local(m)
    ensures FlatTypes(Dict(m)) ==> FlatTypes(Local(m)[k])
    ensures Exits(Local(m)[k]) ==> Exits(Dict(m))
    ensures Depth(Local(m)[k]) < Depth(Dict(m))
  {
    LocalDepth(m, k);
  }

  lemma InvCell(c: Cell, orig: Origins, busy: set<Cell>, done: set<Cell>)
    requires Inv(orig, busy, done) && c in orig
    ensures CellOk(c, orig, busy, done)
  {
  }

  lemma ListCell(c: Cell, orig: Origins, busy: set<Cell>, done: set<Cell>)
    requires Inv(orig, busy, done) && c in orig && orig[c].List?
    ensures !c.isDict && Corresponds(c.items, orig[c].items, orig) && busy <= orig.Keys
  {
    InvCell(c, orig, busy, done);
  }

  lemma DictCell(c: Cell, orig: Origins, busy: set<Cell>, done: set<Cell>)
    requires Inv(orig, busy, done) && c in orig && orig[c].Dict? && c in busy + done
    ensures c.isDict && DictShape(c.dict, Local(orig[c].entries), orig) && busy <= orig.Keys
  {
    InvCell(c, orig, busy, done);
  }

  // ------------------------------------------------------------------ the recursion

  /** One call of the script's convert.  Whatever mixture of converted and unconverted cells it
      finds below r, it leaves r's part of the document converted and disturbs nothing that was
      already finished. */
  method ConvertInPlace(r: Ref, ghost orig: Origins, ghost busy: set<Cell>, ghost done: set<Cell>)
    returns (exited: bool, ghost orig': Origins, ghost done': set<Cell>)
    requires Inv(orig, busy, done) && Known(r, orig) && FlatTypes(OrigOf(r, orig))
    requires forall c | c in busy :: Depth(OrigOf(r, orig)) < Depth(orig[c])
    modifies orig.Keys
    ensures exited == Exits(OrigOf(r, orig))
    ensures !exited ==> Inv(orig', busy, done') && done <= done' && ChildDone(r, done')
    ensures !exited ==> Extends(orig, orig') && fresh(orig'.Keys - orig.Keys)
    ensures !exited ==> forall c | c in busy + done :: c.dict == old(c.dict)
    decreases Depth(OrigOf(r, orig)), 1
  {
    match r
    case Scalar(_) =>
      exited, orig', done' := false, orig, done;
    case Obj(c) =>
      assert CellOk(c, orig, busy, done);
      if c.isDict {
        exited, orig', done' := ConvertDictionary(c, orig, busy, done);
      } else {
        exited, orig', done' := ConvertItems(c, orig, busy, done);
      }
  }

  method ConvertItems(c: Cell, ghost orig: Origins, ghost busy: set<Cell>, ghost done: set<Cell>)
    returns (exited: bool, ghost orig': Origins, ghost done': set<Cell>)
    requires Inv(orig, busy, done) && c in orig && orig[c].List? && FlatTypes(orig[c])
    requires forall x | x in busy :: Depth(orig[c]) < Depth(orig[x])
    modifies orig.Keys
    ensures exited == Exits(orig[c])
    ensures !exited ==> Inv(orig', busy, done') && done <= done' && c in done'
    ensures !exited ==> Extends(orig, orig') && fresh(orig'.Keys - orig.Keys)
    ensures !exited ==> forall x | x in busy + done :: x.dict == old(x.dict)
    decreases Depth(orig[c]), 0
  {
    hide Inv, Exits, FlatTypes, Depth;
    ghost var ys := orig[c].items;
    orig', done' := orig, done;
    ListCell(c, orig, busy, done);
    for i := 0 to |c.items|
      invariant Inv(orig', busy, done') && done <= done'
      invariant Extends(orig, orig') && fresh(orig'.Keys - orig.Keys)
      invariant forall x | x in busy + done :: x.dict == old(x.dict)
      invariant forall j | 0 <= j < i :: ChildDone(c.items[j], done') && !Exits(ys[j])
    {
      ListFacts(ys, i);
      ListCell(c, orig', busy, done');
      exited, orig', done' := ConvertInPlace(c.items[i], orig', busy, done');
      if exited {
        return;
      }
    }
    exited := false;
    NoItemExits(ys);
    MarkDone(c, orig', busy, done');
    done' := done' + {c};
    assert busy - {c} == busy;
  }

  method ConvertDictionary(c: Cell, ghost orig: Origins, ghost busy: set<Cell>, ghost done: set<Cell>)
    returns (exited: bool, ghost orig': Origins, ghost done': set<Cell>)
    requires Inv(orig, busy, done) && c in orig && orig[c].Dict? && FlatTypes(orig[c])
    requires forall x | x in busy :: Depth(orig[c]) < Depth(orig[x])
    modifies orig.Keys
    ensures exited == Exits(orig[c])
    ensures !exited ==> Inv(orig', busy, done') && done <= done' && c in done'
    ensures !exited ==> Extends(orig, orig') && fresh(orig'.Keys - orig.Keys)
    ensures !exited ==> forall x | x in busy + done :: x.dict == old(x.dict)
    decreases Depth(orig[c]), 0
  {
    hide Inv, Exits, FlatTypes, Depth, Local;
    done' := done;
    exited, orig' := PrepareDictionary(c, orig, busy, done);
    if exited {
      assert Exits(orig[c]) by { MultiTypeExits(orig[c].entries); }
      return;
    }
    ghost var l := Local(orig[c].entries);
    ghost var busy' := if c in done then busy else busy + {c};
    DictCell(c, orig', busy', done);
    var entries := c.dict;
    var todo := entries.Keys;
    while todo != {}
      invariant todo <= entries.Keys == l.Keys && c.dict == entries
      invariant Inv(orig', busy', done') && done <= done'
      invariant Extends(orig, orig') && fresh(orig'.Keys - orig.Keys)
      invariant forall x | x in busy + done :: x.dict == old(x.dict)
      invariant forall k | k in entries.Keys - todo :: ChildDone(entries[k], done') && !Exits(l[k])
      decreases todo
    {
      var k :| k in todo;
      DictFacts(orig[c].entries, k);
      DictCell(c, orig', busy', done');
      exited, orig', done' := ConvertInPlace(entries[k], orig', busy', done');
      if exited {
        return;
      }
      todo := todo - {k};
    }
    NoEntryExits(orig[c].entries);
    DictCell(c, orig', busy', done');
    MarkDone(c, orig', busy', done');
    done' := done' + {c};
    assert busy' - {c} == busy;
  }

  /** The steps on a cell met for the first time rewrite it; on a finished cell they do nothing. */
  method PrepareDictionary(c: Cell, ghost orig: Origins, ghost busy: set<Cell>, ghost done: set<Cell>)
    returns (exited: bool, ghost orig': Origins)
    requires Inv(orig, busy, done) && c in orig && orig[c].Dict? && FlatTypes(orig[c]) && c !in busy
    modifies c
    ensures exited == MultiType(orig[c].entries)
    ensures !exited ==> Inv(orig', if c in done then busy else busy + {c}, done)
    ensures !exited ==> Extends(orig, orig') && fresh(orig'.Keys - orig.Keys)
    ensures !exited && c in done ==> c.dict == old(c.dict)
  {
    ghost var m := orig[c].entries;
    assert CellOk(c, orig, busy, done);
    if c in done {
      LocalSettles(m);
      SettledIsUnchanged(Local(m));
    }
    exited, orig' := LocalSteps(c, if c in done then Local(m) else m, orig, busy, done);
    if !exited && c !in done {
      MarkBusy(c, orig', busy, done);
    }
  }

  /** The steps on a dictionary that is reached twice, on their own result the second time.  The
      second visit is harmless exactly when the type list did not wrap another list, which is why the
      conversion of shared nodes asks for flat types. */
  method StepsTwice(c: Cell, ghost orig: Origins)
    returns (exited: bool, ghost orig': Origins)
    requires Inv(orig, {}, {}) && c in orig && orig[c].Dict? && !MultiType(orig[c].entries)
    modifies c
    ensures exited == MultiType(Local(orig[c].entries))
    ensures !exited ==> Shape(c, Dict(Local(Local(orig[c].entries))), orig')
    ensures !exited && Shape(c, Dict(Local(orig[c].entries)), orig') <==> FlatType(orig[c].entries)
  {
    ghost var m := orig[c].entries;
    InvCell(c, orig, {}, {});
    exited, orig' := LocalSteps(c, m, orig, {}, {});
    MarkBusy(c, orig', {}, {});
    ghost var orig1 := orig';
    exited, orig' := LocalSteps(c, Local(m), orig1, {} + {c}, {});
    SecondVisitHarmlessIff(m);
    hide Local, MultiType, FlatType, Inv, InvExcept;
    if !exited && Shape(c, Dict(Local(m)), orig') {
      OneShape(c, Local(m), Local(Local(m)), orig');
    }
  }

  lemma OneShape(c: Cell, m: Entries, m': Entries, orig: Origins)
    requires Shape(c, Dict(m), orig) && Shape(c, Dict(m'), orig)
    ensures m == m'
  {
    assert m.Keys == m'.Keys;
  }

  /** Converting a document with shared nodes in place gives, from the root, the converted tree:
      the same as converting the fully unfolded copy. */
  method ConvertDocument(root: Ref, ghost orig: Origins)
    returns (exited: bool, ghost cells: set<Cell>)
    requires forall c | c in orig :: Unfolds(Obj(c), orig[c], orig.Keys)
    requires Known(root, orig) && FlatTypes(OrigOf(root, orig))
    modifies orig.Keys
    ensures exited == Exits(OrigOf(root, orig))
    ensures !exited ==> Unfolds(root, Convert(OrigOf(root, orig)), cells)
  {
    InitialInv(orig);
    ghost var orig', done;
    exited, orig', done := ConvertInPlace(root, orig, {}, {});
    cells := orig'.Keys;
    if !exited {
      DoneUnfolds(root, orig', {}, done);
    }
  }

  /** In particular for documents whose type lists contain only strings, whether or not one of them
      has several concrete names. */
  method ConvertStringTyped(root: Ref, ghost orig: Origins)
    returns (exited: bool, ghost cells: set<Cell>)
    requires forall c | c in orig :: Unfolds(Obj(c), orig[c], orig.Keys)
    requires Known(root, orig) && StringTypes(OrigOf(root, orig))
    modifies orig.Keys
    ensures exited == Exits(OrigOf(root, orig))
    ensures !exited ==> Unfolds(root, Convert(OrigOf(root, orig)), cells)
  {
    StringTypesAreFlat(OrigOf(root, orig));
    exited, cells := ConvertDocument(root, orig);
  }
}
