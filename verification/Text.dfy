/** Strings as the Go code handles them: order and white-space trimming. */
module Text {

  datatype Option<+T> = None | Some(value: T)
  datatype Result<+T, +E> = Ok(value: T) | Err(error: E)

  // ------------------------------------------------------------------ order

  /** Lexicographic order by code point, which for UTF-8 is the order of the bytes. */
  predicate Less(a: string, b: string) {
    if b == [] then false
    else if a == [] then true
    else if a[0] == b[0] then Less(a[1..], b[1..])
    else a[0] < b[0]
  }

  lemma {:induction false} LessIrreflexive(a: string)
    ensures !Less(a, a)
  {
    if a != [] {
      LessIrreflexive(a[1..]);
    }
  }

  lemma {:induction false} LessTransitive(a: string, b: string, c: string)
    requires Less(a, b) && Less(b, c)
    ensures Less(a, c)
  {
    if a != [] && a[0] == b[0] && b[0] == c[0] {
      LessTransitive(a[1..], b[1..], c[1..]);
    }
  }

  lemma {:induction false} LessTotal(a: string, b: string)
    ensures a == b || Less(a, b) || Less(b, a)
  {
    if a != [] && b != [] && a[0] == b[0] {
      LessTotal(a[1..], b[1..]);
      if a[1..] == b[1..] {
        assert a == [a[0]] + a[1..] && b == [b[0]] + b[1..];
      }
    }
  }

  /** The first difference decides, and a proper prefix comes first. */
  lemma {:induction false} LessIff(a: string, b: string)
    ensures Less(a, b) <==>
              exists n: nat | n <= |a| && n < |b| :: a[..n] == b[..n] && (n == |a| || a[n] < b[n])
  {
    if a != [] && b != [] && a[0] == b[0] {
      LessIff(a[1..], b[1..]);
      if n: nat :| n <= |a[1..]| && n < |b[1..]| && a[1..][..n] == b[1..][..n]
                   && (n == |a[1..]| || a[1..][n] < b[1..][n]) {
        assert a[..n + 1] == [a[0]] + a[1..][..n] && b[..n + 1] == [b[0]] + b[1..][..n];
      }
      if n: nat :| n <= |a| && n < |b| && a[..n] == b[..n] && (n == |a| || a[n] < b[n]) {
        assert n > 0;
        assert a[1..][..n - 1] == a[..n][1..] && b[1..][..n - 1] == b[..n][1..];
      }
    } else if Less(a, b) {
      assert a[..0] == b[..0];
    }
  }

  type Order = (string, string) -> bool

  ghost predicate StrictOrder(lt: Order) {
    && (forall a :: !lt(a, a))
    && (forall a, b, c | lt(a, b) && lt(b, c) :: lt(a, c))
    && (forall a, b :: a == b || lt(a, b) || lt(b, a))
  }

  lemma LessIsStrictOrder()
    ensures StrictOrder(Less)
  {
    forall a ensures !Less(a, a) { LessIrreflexive(a); }
    forall a, b, c | Less(a, b) && Less(b, c) ensures Less(a, c) { LessTransitive(a, b, c); }
    forall a, b ensures a == b || Less(a, b) || Less(b, a) { LessTotal(a, b); }
  }

  ghost predicate StrictlyIncreasing(lt: Order, xs: seq<string>) {
    forall i, j | 0 <= i < j < |xs| :: lt(xs[i], xs[j])
  }

  ghost predicate Distinct<T>(xs: seq<T>) {
    forall i, j | 0 <= i < j < |xs| :: xs[i] != xs[j]
  }

  ghost function Elements<T>(xs: seq<T>): set<T> { set x | x in xs }

  lemma IncreasingIsDistinct(lt: Order, xs: seq<string>)
    requires StrictOrder(lt) && StrictlyIncreasing(lt, xs)
    ensures Distinct(xs)
  {
  }

  /** Pigeonhole: distinct members of a set are no more than the set has. */
  lemma {:induction false} DistinctCount<T>(xs: seq<T>, s: set<T>)
    requires Distinct(xs) && forall x | x in xs :: x in s
    ensures |xs| <= |s|
  {
    if xs != [] {
      var last := xs[|xs| - 1];
      var front := xs[..|xs| - 1];
      DistinctCount(front, s - {last});
    }
  }

  lemma {:induction false} ElementsCount<T>(xs: seq<T>)
    ensures |Elements(xs)| <= |xs|
  {
    if xs != [] {
      ElementsCount(xs[1..]);
      assert Elements(xs) == {xs[0]} + Elements(xs[1..]);
    } else {
      assert Elements(xs) == {};
    }
  }

  lemma ElementsAppend<T>(xs: seq<T>, x: T)
    ensures Elements(xs + [x]) == Elements(xs) + {x}
  {
  }

  lemma DistinctAppend<T>(xs: seq<T>, x: T)
    requires Distinct(xs) && x !in xs
    ensures Distinct(xs + [x])
  {
  }

  /** A strictly increasing list is determined by its set of elements. */
  lemma {:induction false} IncreasingIsCanonical(lt: Order, xs: seq<string>, ys: seq<string>)
    requires StrictOrder(lt) && StrictlyIncreasing(lt, xs) && StrictlyIncreasing(lt, ys)
    requires Elements(xs) == Elements(ys)
    ensures xs == ys
  {
    assert xs != [] ==> xs[0] in Elements(xs);
    assert ys != [] ==> ys[0] in Elements(ys);
    if xs != [] && ys != [] {
      FirstIsLeast(lt, xs, ys);
      FirstIsLeast(lt, ys, xs);
      assert xs[0] == ys[0];
      IncreasingIsDistinct(lt, xs);
      IncreasingIsDistinct(lt, ys);
      assert Elements(xs[1..]) == Elements(xs) - {xs[0]};
      assert Elements(ys[1..]) == Elements(ys) - {ys[0]};
      IncreasingIsCanonical(lt, xs[1..], ys[1..]);
      assert xs == [xs[0]] + xs[1..] && ys == [ys[0]] + ys[1..];
    }
  }

  lemma FirstIsLeast(lt: Order, xs: seq<string>, ys: seq<string>)
    requires StrictlyIncreasing(lt, xs) && xs != [] && ys != [] && Elements(xs) == Elements(ys)
    ensures xs[0] == ys[0] || lt(xs[0], ys[0])
  {
    assert ys[0] in Elements(xs);
    var i :| 0 <= i < |xs| && xs[i] == ys[0];
  }

  /** Every finite set of strings has a least element. */
  ghost function Least(lt: Order, s: set<string>): (m: string)
    requires StrictOrder(lt) && s != {}
    ensures m in s && forall x | x in s && x != m :: lt(m, x)
  {
    var x :| x in s;
    if s == {x} then x
    else
      var y := Least(lt, s - {x});
      assert forall z | z in s && z != x && z != y :: lt(y, z);
      if lt(x, y) then x else y
  }

  /** The elements of s in increasing order. */
  ghost function SortedSeq(lt: Order, s: set<string>): (r: seq<string>)
    requires StrictOrder(lt)
    ensures StrictlyIncreasing(lt, r) && Elements(r) == s
  {
    if s == {} then []
    else
      var m := Least(lt, s);
      var rest := SortedSeq(lt, s - {m});
      LeastFirst(lt, m, rest);
      [m] + rest
  }

  lemma LeastFirst(lt: Order, m: string, rest: seq<string>)
    requires StrictlyIncreasing(lt, rest) && forall x | x in Elements(rest) :: lt(m, x)
    ensures StrictlyIncreasing(lt, [m] + rest) && Elements([m] + rest) == {m} + Elements(rest)
  {
    assert forall x | x in rest :: x in Elements(rest) && lt(m, x);
  }

  // ------------------------------------------------------------------ white space

  /** unicode.IsSpace */
  predicate IsSpace(c: char) {
    || c in {' ', '\t', '\n', '\r', '\U{0B}', '\U{0C}', '\U{85}', '\U{A0}', '\U{1680}'}
    || '\U{2000}' <= c <= '\U{200A}'
    || c in {'\U{2028}', '\U{2029}', '\U{202F}', '\U{205F}', '\U{3000}'}
  }

  /** By code point: the ASCII blanks, and the spaces Unicode adds to them. */
  lemma SpaceTable(c: char)
    ensures
      var n := c as int;
      IsSpace(c) <==>
        || 9 <= n <= 13 || n == 32
        || n == 0x85 || n == 0xA0 || n == 0x1680 || 0x2000 <= n <= 0x200A
        || n == 0x2028 || n == 0x2029 || n == 0x202F || n == 0x205F || n == 0x3000
  {
  }

  predicate Blank(s: string) { forall i | 0 <= i < |s| :: IsSpace(s[i]) }

  function TrimLeft(s: string): (r: string)
    ensures r != [] ==> !IsSpace(r[0])
    ensures |r| <= |s| && r == s[|s| - |r|..]
  {
    if s != [] && IsSpace(s[0]) then TrimLeft(s[1..]) else s
  }

  function TrimRight(s: string): (r: string)
    ensures r != [] ==> !IsSpace(r[|r| - 1])
    ensures r <= s
  {
    if s != [] && IsSpace(s[|s| - 1]) then TrimRight(s[..|s| - 1]) else s
  }

  /** strings.TrimSpace */
  function TrimSpace(s: string): (r: string)
    ensures r != [] ==> !IsSpace(r[0]) && !IsSpace(r[|r| - 1])
  {
    TrimRight(TrimLeft(s))
  }

  lemma TrimSpaceIdentity(s: string)
    requires s != [] ==> !IsSpace(s[0]) && !IsSpace(s[|s| - 1])
    ensures TrimSpace(s) == s
  {
  }

  /** Trimming only ever shortens. */
  lemma TrimSpaceShrinks(s: string)
    ensures |TrimSpace(s)| <= |s| && (|TrimSpace(s)| == |s| ==> TrimSpace(s) == s)
  {
  }

  lemma {:induction false} TrimLeftBlank(left: string, t: string)
    requires Blank(left) && (t != [] ==> !IsSpace(t[0]))
    ensures TrimLeft(left + t) == t
  {
    if left == [] {
      assert left + t == t;
    } else {
      assert (left + t)[1..] == left[1..] + t;
      TrimLeftBlank(left[1..], t);
    }
  }

  lemma {:induction false} TrimRightBlank(t: string, right: string)
    requires Blank(right) && (t != [] ==> !IsSpace(t[|t| - 1]))
    ensures TrimRight(t + right) == t
  {
    if right == [] {
      assert t + right == t;
    } else {
      assert (t + right)[..|t + right| - 1] == t + right[..|right| - 1];
      TrimRightBlank(t, right[..|right| - 1]);
    }
  }

  /** Surrounding white space is removed, all of it and nothing else. */
  lemma TrimSpaceOf(left: string, t: string, right: string)
    requires Blank(left) && Blank(right) && t != [] && !IsSpace(t[0]) && !IsSpace(t[|t| - 1])
    ensures TrimSpace(left + t + right) == t
  {
    assert left + t + right == left + (t + right);
    TrimLeftBlank(left, t + right);
    TrimRightBlank(t, right);
  }

  lemma {:induction false} TrimLeftRest(s: string)
    ensures Blank(s[..|s| - |TrimLeft(s)|])
  {
    if s != [] && IsSpace(s[0]) {
      TrimLeftRest(s[1..]);
      var n := |s| - |TrimLeft(s)|;
      assert forall i | 0 < i < n :: s[..n][i] == s[1..][..n - 1][i - 1];
    }
  }

  lemma {:induction false} TrimRightRest(s: string)
    ensures Blank(s[|TrimRight(s)|..])
  {
    if s != [] && IsSpace(s[|s| - 1]) {
      TrimRightRest(s[..|s| - 1]);
      var n := |TrimRight(s)|;
      assert s[n..] == s[..|s| - 1][n..] + [s[|s| - 1]];
    }
  }

  /** Every text is its trimmed form between white space. */
  lemma TrimSpaceParts(s: string) returns (left: string, right: string)
    ensures s == left + TrimSpace(s) + right && Blank(left) && Blank(right)
  {
    hide TrimLeft, TrimRight, Blank, IsSpace;
    var t := TrimLeft(s);
    var r := TrimRight(t);
    left, right := s[..|s| - |t|], t[|r|..];
    TrimLeftRest(s);
    TrimRightRest(t);
    Rejoined(s, left, t, r, right);
  }

  lemma Rejoined(s: string, left: string, t: string, r: string, right: string)
    requires |t| <= |s| && t == s[|s| - |t|..] && left == s[..|s| - |t|]
    requires r <= t && right == t[|r|..]
    ensures s == left + r + right
  {
    assert s == left + t;
    assert t == r + right;
  }

  lemma TrimSpaceEmptyIff(s: string)
    ensures TrimSpace(s) == "" <==> Blank(s)
  {
    var left, right := TrimSpaceParts(s);
    if Blank(s) {
      TrimLeftBlank(s, "");
      assert s + "" == s;
    }
  }

  lemma TrimSpaceMembers(s: string)
    ensures forall c | c in TrimSpace(s) :: c in s
  {
  }

  lemma TrimSpaceIdempotent(s: string)
    ensures TrimSpace(TrimSpace(s)) == TrimSpace(s)
  {
    TrimSpaceIdentity(TrimSpace(s));
  }
}
