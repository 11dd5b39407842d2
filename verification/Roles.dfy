/** Role lists and their canonical form. */
module Roles {
  import opened Text
  import opened Bytes

  datatype RoleError = EmptyRole | TooLong | BadCharacter

  const MAX_ROLE_LENGTH := 128

  predicate RoleAllowed(c: char) {
    'a' <= c <= 'z' || 'A' <= c <= 'Z' || '0' <= c <= '9' || c in {'_', '-', '.', ':', '/'}
  }

  function CheckRole(role: string): Option<RoleError> {
    if role == "" then Some(EmptyRole)
    else if |Utf8(role)| > MAX_ROLE_LENGTH then Some(TooLong)
    else if exists i | 0 <= i < |role| :: !RoleAllowed(role[i]) then Some(BadCharacter)
    else None
  }

  function Trimmed(roles: seq<string>): (r: seq<string>)
    ensures |r| == |roles| && forall i | 0 <= i < |roles| :: r[i] == TrimSpace(roles[i])
  {
    seq(|roles|, i requires 0 <= i < |roles| => TrimSpace(roles[i]))
  }

  /** One to 128 characters, all of them ASCII letters, digits, or one of _ - . : / */
  predicate IsRole(t: string) {
    1 <= |t| <= 128 && forall i | 0 <= i < |t| :: InAlphabet(t[i])
  }

  predicate InAlphabet(c: char) {
    var n := c as int;
    || 65 <= n <= 90 || 97 <= n <= 122 || 48 <= n <= 57
    || c == '_' || c == '-' || c == '.' || c == ':' || c == '/'
  }

  /** What is wrong with t, in the order of the checks; the length is in bytes. */
  predicate Fault(t: string, e: RoleError) {
    match e
    case EmptyRole => t == ""
    case TooLong => |Utf8(t)| > 128
    case BadCharacter => t != "" && |Utf8(t)| <= 128 && exists i | 0 <= i < |t| :: !InAlphabet(t[i])
  }

  lemma AlphabetIsAllowed(c: char)
    ensures RoleAllowed(c) <==> InAlphabet(c)
    ensures InAlphabet(c) ==> c as int < 0x80
  {
  }

  lemma CheckRoleIff(t: string)
    ensures CheckRole(t).None? <==> IsRole(t)
    ensures forall e :: CheckRole(t) == Some(e) <==> Fault(t, e)
  {
    hide RoleAllowed, InAlphabet, Utf8;
    forall i | 0 <= i < |t| ensures RoleAllowed(t[i]) <==> InAlphabet(t[i]) {
      AlphabetIsAllowed(t[i]);
    }
    if forall i | 0 <= i < |t| :: InAlphabet(t[i]) {
      forall i | 0 <= i < |t| ensures t[i] as int < 0x80 {
        AlphabetIsAllowed(t[i]);
      }
      Utf8Ascii(t);
    }
    assert Utf8("") == [] by { EmptyText(); }
  }

  lemma EmptyText()
    ensures Utf8("") == []
  {
  }

  ghost predicate Acceptable(roles: seq<string>) {
    forall i | 0 <= i < |roles| :: IsRole(TrimSpace(roles[i]))
  }

  /** x into its place in an increasing list. */
  function Insert(x: string, xs: seq<string>): (r: seq<string>)
    requires StrictlyIncreasing(Less, xs) && x !in xs
    ensures StrictlyIncreasing(Less, r) && Elements(r) == Elements(xs) + {x}
  {
    if xs == [] || Less(x, xs[0]) then
      assert forall y | y in xs :: Less(x, y) by {
        forall y | y in xs ensures Less(x, y) {
          var i :| 0 <= i < |xs| && xs[i] == y;
          if i > 0 { LessTransitive(x, xs[0], y); }
        }
      }
      assert Elements([x] + xs) == Elements(xs) + {x};
      [x] + xs
    else
      var rest := Insert(x, xs[1..]);
      InsertBehindFirst(x, xs, rest);
      [xs[0]] + rest
  }

  lemma InsertBehindFirst(x: string, xs: seq<string>, rest: seq<string>)
    requires StrictlyIncreasing(Less, xs) && xs != [] && x !in xs && !Less(x, xs[0])
    requires StrictlyIncreasing(Less, rest) && Elements(rest) == Elements(xs[1..]) + {x}
    ensures StrictlyIncreasing(Less, [xs[0]] + rest) && Elements([xs[0]] + rest) == Elements(xs) + {x}
  {
    LessTotal(x, xs[0]);
    forall y | y in rest ensures Less(xs[0], y) {
      assert y in Elements(rest);
      if y != x {
        var i :| 0 <= i < |xs[1..]| && xs[1..][i] == y;
      }
    }
    assert xs == [xs[0]] + xs[1..];
    assert Elements(xs) == {xs[0]} + Elements(xs[1..]);
    assert Elements([xs[0]] + rest) == {xs[0]} + Elements(rest);
  }

  /** sort.Strings on a list without repetitions. */
  function Sort(xs: seq<string>): (r: seq<string>)
    requires Distinct(xs)
    ensures StrictlyIncreasing(Less, r) && Elements(r) == Elements(xs)
  {
    if xs == [] then []
    else
      assert xs == [xs[0]] + xs[1..];
      assert Elements(xs) == {xs[0]} + Elements(xs[1..]);
      var rest := Sort(xs[1..]);
      assert xs[0] !in xs[1..];
      assert xs[0] !in Elements(rest);
      Insert(xs[0], rest)
  }

  lemma NothingElements()
    ensures Elements<string>([]) == {} && Distinct<string>([])
  {
  }

  lemma ElementsMember(xs: seq<string>, x: string)
    ensures x in Elements(xs) <==> x in xs
  {
  }

  /** NormalizeRoles: accepted exactly when every trimmed entry is a role; then the result is the
      set of trimmed entries in increasing order.  The first bad entry decides the error. */
  method NormalizeRoles(roles: seq<string>) returns (r: Result<seq<string>, RoleError>)
    ensures r.Ok? <==> Acceptable(roles)
    ensures r.Ok? ==> StrictlyIncreasing(Less, r.value) && Elements(r.value) == Elements(Trimmed(roles))
    ensures r.Ok? ==> r.value == Normalized(roles)
    ensures r.Err? ==>
              exists i | 0 <= i < |roles| ::
                Fault(TrimSpace(roles[i]), r.error) && Acceptable(roles[..i])
  {
    hide TrimSpace, CheckRole, IsRole, Fault, Elements, Distinct, StrictlyIncreasing;
    var seen: set<string> := {};
    var out: seq<string> := [];
    assert Trimmed([]) == [];
    assert Elements(out) == {} && Distinct(out) by { NothingElements(); }
    for i := 0 to |roles|
      invariant Acceptable(roles[..i])
      invariant seen == Elements(out) == Elements(Trimmed(roles[..i])) && Distinct(out)
    {
      var role := TrimSpace(roles[i]);
      assert Trimmed(roles[..i + 1]) == Trimmed(roles[..i]) + [role];
      assert roles[..i + 1] == roles[..i] + [roles[i]];
      ElementsAppend(Trimmed(roles[..i]), role);
      ElementsAppend(out, role);
      var bad := CheckRole(role);
      CheckRoleIff(role);
      if bad.Some? {
        return Err(bad.value);
      }
      if role !in seen {
        assert role !in out by { ElementsMember(out, role); }
        DistinctAppend(out, role);
        seen := seen + {role};
        out := out + [role];
      }
    }
    assert roles[..|roles|] == roles;
    NormalFormIsUnique(roles, Sort(out));
    return Ok(Sort(out));
  }

  /** The specification as a function of the input alone. */
  ghost function Normalized(roles: seq<string>): seq<string> {
    LessIsStrictOrder();
    SortedSeq(Less, Elements(Trimmed(roles)))
  }

  /** What NormalizeRoles guarantees determines its result. */
  lemma NormalFormIsUnique(roles: seq<string>, out: seq<string>)
    requires StrictlyIncreasing(Less, out) && Elements(out) == Elements(Trimmed(roles))
    ensures out == Normalized(roles)
  {
    LessIsStrictOrder();
    IncreasingIsCanonical(Less, out, Normalized(roles));
  }

  /** Same trimmed entries as a set, whatever their order and repetition: same result, and conversely. */
  lemma CanonicalForm(xs: seq<string>, ys: seq<string>)
    ensures Normalized(xs) == Normalized(ys) <==> Elements(Trimmed(xs)) == Elements(Trimmed(ys))
  {
    assert Elements(Normalized(xs)) == Elements(Trimmed(xs));
    assert Elements(Normalized(ys)) == Elements(Trimmed(ys));
  }

  /** Results are accepted again and are fixed points. */
  lemma NormalFormIsFixed(roles: seq<string>)
    requires Acceptable(roles)
    ensures Acceptable(Normalized(roles)) && Normalized(Normalized(roles)) == Normalized(roles)
  {
    var out := Normalized(roles);
    forall i | 0 <= i < |out| ensures TrimSpace(out[i]) == out[i] && IsRole(out[i]) {
      assert out[i] in Elements(out);
      var j :| 0 <= j < |roles| && Trimmed(roles)[j] == out[i];
      TrimSpaceIdempotent(roles[j]);
    }
    assert Trimmed(out) == out;
    NormalFormIsUnique(out, out);
  }
}
