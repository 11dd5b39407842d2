/** Lists of allowed origins. */
module OriginLists {
  import opened Text
  import opened Origins

  const MAX_ORIGINS: nat := 1000

  /** The canonical forms of the valid entries, in order, repetitions included. */
  ghost function ValidForms(raws: seq<string>, lib: Library): seq<string> {
    if raws == [] then []
    else
      var n := NormalizeOrigin(raws[|raws| - 1], lib);
      ValidForms(raws[..|raws| - 1], lib) + if n == "" then [] else [n]
  }

  /** First occurrences only. */
  ghost function FirstOccurrences(xs: seq<string>): (r: seq<string>)
    ensures Distinct(r) && Elements(r) == Elements(xs)
  {
    if xs == [] then []
    else
      var last, rest := xs[|xs| - 1], FirstOccurrences(xs[..|xs| - 1]);
      assert xs == xs[..|xs| - 1] + [last];
      assert forall x :: x in rest <==> x in Elements(rest);
      if last in rest then rest else rest + [last]
  }

  ghost function Capped(xs: seq<string>): seq<string> {
    if |xs| > MAX_ORIGINS then xs[..MAX_ORIGINS] else xs
  }

  /** What the list normaliser computes: the first thousand distinct valid canonical forms. */
  ghost function Allowed(raws: seq<string>, lib: Library): seq<string> {
    Capped(FirstOccurrences(ValidForms(raws, lib)))
  }

  lemma {:induction false} OccurrencesGrow(xs: seq<string>, ys: seq<string>)
    ensures FirstOccurrences(xs) <= FirstOccurrences(xs + ys)
  {
    if ys == [] {
      assert xs + ys == xs;
    } else {
      var front := ys[..|ys| - 1];
      OccurrencesGrow(xs, front);
      assert (xs + ys)[..|xs + ys| - 1] == xs + front;
    }
  }

  lemma {:induction false} FormsGrow(raws: seq<string>, i: nat, lib: Library)
    requires i <= |raws|
    ensures ValidForms(raws[..i], lib) <= ValidForms(raws, lib)
    decreases |raws|
  {
    if i == |raws| {
      assert raws[..i] == raws;
    } else {
      var front := raws[..|raws| - 1];
      FormsGrow(front, i, lib);
      assert front[..i] == raws[..i];
    }
  }

  lemma ExtendForms(raws: seq<string>, i: nat, lib: Library)
    requires i < |raws|
    ensures
      var n := NormalizeOrigin(raws[i], lib);
      var before := FirstOccurrences(ValidForms(raws[..i], lib));
      FirstOccurrences(ValidForms(raws[..i + 1], lib)) ==
        if n == "" || n in before then before else before + [n]
  {
    hide NormalizeOrigin;
    var forms := ValidForms(raws[..i], lib);
    assert raws[..i + 1][..i] == raws[..i];
    var n := NormalizeOrigin(raws[i], lib);
    var longer := ValidForms(raws[..i + 1], lib);
    assert longer == forms + if n == "" then [] else [n];
    hide ValidForms;
    if n != "" {
      assert longer[..|longer| - 1] == forms && longer[|longer| - 1] == n;
    } else {
      assert longer == forms;
    }
  }

  method NormalizeOrigins(raws: seq<string>, lib: Library) returns (out: seq<string>)
    ensures out == Allowed(raws, lib)
  {
    hide NormalizeOrigin, ValidForms, FirstOccurrences;
    var seen: set<string> := {};
    out := [];
    NoForms(lib);
    for i := 0 to |raws|
      invariant out == FirstOccurrences(ValidForms(raws[..i], lib))
      invariant seen == Elements(out) && |out| < MAX_ORIGINS
    {
      var n := NormalizeOrigin(raws[i], lib);
      ExtendForms(raws, i, lib);
      if n == "" {
        continue;
      }
      if n in seen {
        continue;
      }
      seen := seen + {n};
      out := out + [n];
      if |out| >= MAX_ORIGINS {
        FormsGrow(raws, i + 1, lib);
        var done, all := ValidForms(raws[..i + 1], lib), ValidForms(raws, lib);
        OccurrencesGrow(done, all[|done|..]);
        assert done + all[|done|..] == all;
        return;
      }
    }
    assert raws[..|raws|] == raws;
  }

  lemma NoForms(lib: Library)
    ensures FirstOccurrences(ValidForms([], lib)) == []
  {
  }

  // ------------------------------------------------------------------ idempotence

  ghost predicate AllFixed(xs: seq<string>, lib: Library) {
    forall x | x in xs :: x != "" && NormalizeOrigin(x, lib) == x
  }

  /** Normal forms are origins, and fixed exactly when they are plain. */
  ghost predicate AllForms(xs: seq<string>, lib: Library) {
    forall x | x in xs :: x != "" && IsOrigin(x, lib) && (NormalizeOrigin(x, lib) == x <==> Plain(x))
  }

  lemma {:induction false} FormsAreForms(raws: seq<string>, lib: Library)
    requires lib.Lawful()
    ensures AllForms(ValidForms(raws, lib), lib)
  {
    hide NormalizeOrigin, Plain, IsOrigin, OriginParts, Library.Lawful;
    if raws != [] {
      var last := raws[|raws| - 1];
      FormsAreForms(raws[..|raws| - 1], lib);
      IdempotentIffPlain(last, lib);
      if NormalizeOrigin(last, lib) != "" {
        var scheme, h := AcceptedIsOrigin(last, lib);
      }
    }
  }

  lemma {:induction false} FixedFormsStay(xs: seq<string>, lib: Library)
    requires AllFixed(xs, lib)
    ensures ValidForms(xs, lib) == xs
  {
    hide NormalizeOrigin;
    if xs != [] {
      var front := xs[..|xs| - 1];
      assert AllFixed(front, lib);
      FixedFormsStay(front, lib);
      var last := xs[|xs| - 1];
      assert last in xs;
      assert ValidForms(xs, lib) == ValidForms(front, lib) + [last];
      assert xs == front + [last];
    }
  }

  /** There are no more valid forms than entries, and with as many, each entry has its own. */
  lemma {:induction false} FormsCount(xs: seq<string>, lib: Library)
    ensures
      var forms := ValidForms(xs, lib);
      && |forms| <= |xs|
      && (|forms| == |xs| ==>
            forall i | 0 <= i < |xs| :: forms[i] == NormalizeOrigin(xs[i], lib) && forms[i] != "")
  {
    hide NormalizeOrigin;
    if xs != [] {
      FormsCount(xs[..|xs| - 1], lib);
    }
  }

  lemma {:induction false} OccurrencesCount(xs: seq<string>)
    ensures |FirstOccurrences(xs)| <= |xs|
    ensures |FirstOccurrences(xs)| == |xs| ==> FirstOccurrences(xs) == xs
  {
    if xs != [] {
      OccurrencesCount(xs[..|xs| - 1]);
      assert xs == xs[..|xs| - 1] + [xs[|xs| - 1]];
    }
  }

  lemma {:induction false} DistinctStays(xs: seq<string>)
    requires Distinct(xs)
    ensures FirstOccurrences(xs) == xs
  {
    if xs != [] {
      DistinctStays(xs[..|xs| - 1]);
      assert xs == xs[..|xs| - 1] + [xs[|xs| - 1]];
    }
  }

  /** The lists the normaliser leaves alone are exactly the short ones of distinct fixed origins. */
  lemma FixedListIff(xs: seq<string>, lib: Library)
    ensures Allowed(xs, lib) == xs <==> AllFixed(xs, lib) && Distinct(xs) && |xs| <= 1000
  {
    hide NormalizeOrigin, ValidForms, FirstOccurrences;
    var forms := ValidForms(xs, lib);
    if Allowed(xs, lib) == xs {
      FormsCount(xs, lib);
      OccurrencesCount(forms);
      assert FirstOccurrences(forms) == forms == xs;
    }
    if AllFixed(xs, lib) && Distinct(xs) && |xs| <= MAX_ORIGINS {
      FixedFormsStay(xs, lib);
      DistinctStays(xs);
    }
  }

  /** The result has at most a thousand distinct origins; normalising it again changes nothing
      exactly when they are all plain. */
  lemma ListIdempotentIffPlain(raws: seq<string>, lib: Library)
    requires lib.Lawful()
    ensures
      var out := Allowed(raws, lib);
      && Distinct(out) && |out| <= 1000 && (forall x | x in out :: IsOrigin(x, lib))
      && (Allowed(out, lib) == out <==> forall x | x in out :: Plain(x))
  {
    hide NormalizeOrigin, Plain, ValidForms, FirstOccurrences, IsOrigin, Library.Lawful;
    var forms := ValidForms(raws, lib);
    var out := Allowed(raws, lib);
    FormsAreForms(raws, lib);
    forall x | x in out ensures x in forms {
      assert x in Elements(FirstOccurrences(forms));
    }
    FixedListIff(out, lib);
  }

  // ------------------------------------------------------------------ read off the entries

  /** The loop reads entry i: fewer than a thousand distinct forms come before it. */
  ghost predicate Reads(raws: seq<string>, i: nat, lib: Library)
    requires i < |raws|
  {
    |FirstOccurrences(ValidForms(raws[..i], lib))| < 1000
  }

  /** x is the form of an entry that the loop reads. */
  ghost predicate FormRead(raws: seq<string>, x: string, lib: Library) {
    x != "" && exists i | 0 <= i < |raws| :: Reads(raws, i, lib) && NormalizeOrigin(raws[i], lib) == x
  }

  lemma ReadsFront(raws: seq<string>, x: string, lib: Library)
    requires raws != []
    ensures
      var n := |raws| - 1;
      FormRead(raws, x, lib) <==>
        FormRead(raws[..n], x, lib) || (x != "" && Reads(raws, n, lib) && NormalizeOrigin(raws[n], lib) == x)
  {
    hide NormalizeOrigin, ValidForms, FirstOccurrences;
    var front := raws[..|raws| - 1];
    forall i | 0 <= i < |front| ensures Reads(front, i, lib) == Reads(raws, i, lib) && front[i] == raws[i] {
      assert front[..i] == raws[..i];
    }
  }

  /** The result contains the forms of the entries read, and no others. */
  lemma {:induction false} AllowedIsRead(raws: seq<string>, x: string, lib: Library)
    ensures x in Allowed(raws, lib) <==> FormRead(raws, x, lib)
  {
    hide NormalizeOrigin;
    if raws == [] {
      NoForms(lib);
    } else {
      hide ValidForms, FirstOccurrences, FormRead;
      var n := |raws| - 1;
      AllowedIsRead(raws[..n], x, lib);
      ReadsFront(raws, x, lib);
      ExtendForms(raws, n, lib);
      assert raws[..n + 1] == raws;
    }
  }

  /** An entry that is rejected, or names a settled host. */
  predicate EntrySettled(raw: string, lib: Library) {
    NormalizeOrigin(raw, lib) == "" || HostSettled(raw, lib)
  }

  /** The result has at most a thousand distinct origins.  Read off the entries given: normalising it
      again changes nothing exactly when every entry the loop reads is rejected or names a settled
      host. */
  lemma ListIdempotentIffSettled(raws: seq<string>, lib: Library)
    requires lib.Lawful()
    ensures
      var out := Allowed(raws, lib);
      && Distinct(out) && |out| <= 1000 && (forall x | x in out :: IsOrigin(x, lib))
      && (Allowed(out, lib) == out <==>
            forall i | 0 <= i < |raws| && Reads(raws, i, lib) :: EntrySettled(raws[i], lib))
  {
    hide NormalizeOrigin, Plain, ValidForms, FirstOccurrences, HostSettled, IsOrigin, Library.Lawful, Allowed;
    var out := Allowed(raws, lib);
    ListIdempotentIffPlain(raws, lib);
    forall i | 0 <= i < |raws| && NormalizeOrigin(raws[i], lib) != ""
      ensures Plain(NormalizeOrigin(raws[i], lib)) <==> EntrySettled(raws[i], lib)
    {
      ResultPlainIff(raws[i], lib);
    }
    forall x ensures x in out <==> FormRead(raws, x, lib) {
      AllowedIsRead(raws, x, lib);
    }
  }

  lemma ShortListIsRead(raws: seq<string>, i: nat, lib: Library)
    requires i < |raws| <= 1000
    ensures Reads(raws, i, lib)
  {
    FormsCount(raws[..i], lib);
    OccurrencesCount(ValidForms(raws[..i], lib));
  }

  /** With at most a thousand entries all of them are read. */
  lemma ShortListIdempotentIff(raws: seq<string>, lib: Library)
    requires lib.Lawful() && |raws| <= 1000
    ensures
      var out := Allowed(raws, lib);
      Allowed(out, lib) == out <==> forall i | 0 <= i < |raws| :: EntrySettled(raws[i], lib)
  {
    hide EntrySettled, Allowed, Reads, Library.Lawful;
    ListIdempotentIffSettled(raws, lib);
    forall i | 0 <= i < |raws| ensures Reads(raws, i, lib) {
      ShortListIsRead(raws, i, lib);
    }
  }

  /** On ASCII entries without percent signs the list normaliser is idempotent. */
  lemma AsciiListIsIdempotent(raws: seq<string>, lib: Library)
    requires lib.Lawful() && forall i, c | 0 <= i < |raws| && c in raws[i] :: Ascii(c) && c != '%'
    ensures Allowed(Allowed(raws, lib), lib) == Allowed(raws, lib)
  {
    hide Allowed, Reads, Library.Lawful, NormalizeOrigin, HostSettled;
    ListIdempotentIffSettled(raws, lib);
    forall i | 0 <= i < |raws| ensures EntrySettled(raws[i], lib) {
      AsciiIsIdempotent(raws[i], lib);
      IdempotentIffHostSettled(raws[i], lib);
    }
  }
}
