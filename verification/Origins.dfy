/** Browser origins: validation and canonical form.

    The parser follows section 3.2 of RFC 3986 for the part an origin can use, on any text. */
module Origins {
  import opened Text

  // ------------------------------------------------------------------ strings

  predicate Ascii(c: char) { c as int < 0x80 }

  function AsciiLower(c: char): char {
    if 'A' <= c <= 'Z' then (c as int + 32) as char else c
  }

  /** What the code leaves to its libraries: unicode.ToLower, whether a bracketed host is an IPv6
      address, and the host that stands for an authority with percent signs (None: malformed). */
  datatype Library = Library(lower: char -> char, ipv6: string -> bool, escaped: string -> Option<string>) {
    /** strings.ToLower */
    function Lower(s: string): (r: string)
      ensures |r| == |s| && forall i | 0 <= i < |s| :: r[i] == lower(s[i])
    {
      seq(|s|, i requires 0 <= i < |s| => lower(s[i]))
    }

    /** Lower-casing is what it is on ASCII, makes no punctuation, neither makes nor removes white
        space, and is done after one round. */
    ghost predicate LawfulCase() {
      && (forall c | Ascii(c) :: lower(c) == AsciiLower(c))
      && (forall c | !Ascii(c) :: !Ascii(lower(c)) || 'a' <= lower(c) <= 'z')
      && (forall c :: lower(lower(c)) == lower(c) && (IsSpace(lower(c)) <==> IsSpace(c)))
      && (forall a :: ipv6(a) ==> ipv6(Lower(a)))
    }

    /** Each escape of three characters stands for at most one, and only %25 for a percent sign. */
    ghost predicate LawfulEscapes() {
      forall a | '%' in a && escaped(a).Some? ::
        |escaped(a).value| < |a| && ('%' !in escaped(a).value ==> ValidHost(escaped(a).value, this))
    }

    ghost predicate Lawful() { LawfulCase() && LawfulEscapes() }
  }

  /** The laws can be met, for instance by a library that knows ASCII only. */
  lemma SomeLibraryIsLawful() returns (lib: Library)
    ensures lib.Lawful() && lib.lower('\U{A0}') == '\U{A0}'
  {
    lib := Library(AsciiLower, _ => false, _ => None);
  }

  lemma LowerTwice(s: string, lib: Library)
    requires lib.LawfulCase()
    ensures lib.Lower(lib.Lower(s)) == lib.Lower(s)
  {
  }

  /** The part of s before the first c (all of s without one). */
  function Before(s: string, c: char): (r: string)
    ensures c !in r && r <= s
    ensures c !in s ==> r == s
    ensures c in s ==> |r| < |s| && s[|r|] == c
  {
    if s == [] || s[0] == c then [] else [s[0]] + Before(s[1..], c)
  }

  /** The part of s after the first c (empty without one). */
  function After(s: string, c: char): string {
    if c in s then s[|Before(s, c)| + 1..] else []
  }

  /** Before is the only prefix that stops at the first c. */
  lemma BeforeUnique(s: string, c: char, r: string)
    requires r <= s && c !in r && (r == s || s[|r|] == c)
    ensures Before(s, c) == r
  {
    var b := Before(s, c);
    hide Before;
    assert |r| == |b|;
  }

  lemma CutAt(a: string, c: char, r: string)
    requires c !in a
    ensures Before(a + [c] + r, c) == a && After(a + [c] + r, c) == r
  {
    BeforeUnique(a + [c] + r, c, a);
    assert (a + [c] + r)[|a|] == c;
  }

  // ------------------------------------------------------------------ URLs

  predicate Letter(c: char) { 'a' <= c <= 'z' || 'A' <= c <= 'Z' }
  predicate Numeral(c: char) { '0' <= c <= '9' }
  predicate SchemeChar(c: char) { Letter(c) || Numeral(c) || c in {'+', '-', '.'} }

  /** The characters a host may contain unescaped: some of ASCII and everything beyond. */
  predicate HostChar(c: char) {
    || Letter(c) || Numeral(c) || !Ascii(c)
    || c in {'-', '_', '.', '~', '!', '$', '&', '\'', '(', ')', '*', '+', ',', ';', '=', ':', '[', ']', '<', '>', '"'}
  }

  predicate Control(c: char) { c < ' ' || c == '\U{7F}' }

  datatype Url = Url(scheme: string, hasUser: bool, host: string, path: string, query: string, fragment: string)

  /** The text before the first colon, when it can be a scheme; None when the URL is malformed. */
  function Scheme(u: string): Option<string> {
    var b := Before(u, ':');
    if ':' !in u then Some("")
    else if b == "" then None
    else if Letter(b[0]) && forall c | c in b :: SchemeChar(c) then Some(b)
    else Some("")
  }

  predicate OptionalPort(s: string) {
    s == "" || (s[0] == ':' && forall c | c in s[1..] :: Numeral(c))
  }

  /** host [ ":" port ], the host being a name without colons or a bracketed IPv6 address. */
  predicate ValidHost(h: string, lib: Library) {
    && (forall c | c in h :: HostChar(c))
    && if h != "" && h[0] == '[' then
         && ']' in h
         && lib.ipv6(Before(h, ']')[1..])
         && OptionalPort(After(h, ']'))
       else
         '[' !in h && (':' in h ==> OptionalPort(h[|Before(h, ':')|..]))
  }

  /** The part of a URL between "//" and the path, query or fragment. */
  function Authority(s: string): string {
    var hier := Before(After(Before(s, '#'), ':'), '?');
    if |hier| < 2 then "" else Before(hier[2..], '/')
  }

  /** The host an authority without user information stands for, None when it is malformed. */
  function HostOf(authority: string, lib: Library): Option<string> {
    if '%' in authority then lib.escaped(authority)
    else if ValidHost(authority, lib) then Some(authority)
    else None
  }

  /** url.Parse, for what an origin can use.  URLs without an authority have an empty host here, and
      escapes in user, path and fragment are not decoded: a non-empty one disqualifies the URL
      whether or not it decodes. */
  function Parse(s: string, lib: Library): Option<Url> {
    var u := Before(s, '#');
    var scheme := Scheme(u);
    if (exists c | c in u :: Control(c)) || scheme.None? then None
    else ParseRest(scheme.value, if scheme.value == "" then u else u[|scheme.value| + 1..], After(s, '#'), lib)
  }

  /** What follows the scheme, without the fragment. */
  function ParseRest(scheme: string, rest: string, fragment: string, lib: Library): Option<Url> {
    var hier, query := Before(rest, '?'), After(rest, '?');
    if !("//" <= hier) then Some(Url(scheme, false, "", hier, query, fragment))
    else
      var authority := Before(hier[2..], '/');
      var path := hier[2 + |authority|..];
      if '@' in authority then Some(Url(scheme, true, authority, path, query, fragment))
      else
        var host := HostOf(authority, lib);
        if host.None? then None
        else Some(Url(scheme, false, host.value, path, query, fragment))
  }

  /** URL.Hostname: the host without port and brackets. */
  function Hostname(h: string): string {
    if h != "" && h[0] == '[' && ']' in h then Before(h, ']')[1..] else Before(h, ':')
  }

  predicate Loopback(host: string) { host in ["localhost", "127.0.0.1", "::1"] }

  predicate HasDisallowedParts(u: Url) {
    (u.path != "" && u.path != "/") || u.query != "" || u.fragment != "" || u.hasUser
  }

  /** The origin in canonical form, or "" when it must not be allowed. */
  function NormalizeOrigin(raw: string, lib: Library): string {
    var s := TrimSpace(raw);
    if s == "" || s == "*" || lib.Lower(s) == "null" then ""
    else
      var parsed := Parse(s, lib);
      if parsed.None? || parsed.value.host == "" then ""
      else
        var u := parsed.value;
        var scheme := lib.Lower(u.scheme);
        if scheme != "http" && scheme != "https" then ""
        else if HasDisallowedParts(u) then ""
        else if scheme == "http" && !Loopback(lib.Lower(Hostname(u.host))) then ""
        else scheme + "://" + lib.Lower(u.host)
  }

  // ------------------------------------------------------------------ lower case and cutting

  lemma LowerCharIs(x: char, c: char, lib: Library)
    requires lib.LawfulCase() && Ascii(c) && !Letter(c)
    ensures lib.lower(x) == c <==> x == c
  {
    assert Ascii(x) ==> lib.lower(x) == AsciiLower(x);
  }

  lemma LowerMember(s: string, c: char, lib: Library)
    requires lib.LawfulCase() && Ascii(c) && !Letter(c)
    ensures c in lib.Lower(s) <==> c in s
  {
    forall i | 0 <= i < |s| ensures lib.Lower(s)[i] == c <==> s[i] == c {
      LowerCharIs(s[i], c, lib);
    }
    hide Library.LawfulCase, Letter;
    if c in s {
      var i :| 0 <= i < |s| && s[i] == c;
      assert lib.Lower(s)[i] == c;
    }
  }

  lemma BeforeLower(s: string, c: char, lib: Library)
    requires lib.LawfulCase() && Ascii(c) && !Letter(c)
    ensures Before(lib.Lower(s), c) == lib.Lower(Before(s, c)) && (c in lib.Lower(s) <==> c in s)
  {
    hide Before, Library.LawfulCase, Letter;
    LowerMember(s, c, lib);
    var r := Before(s, c);
    LowerMember(r, c, lib);
    assert lib.Lower(r) <= lib.Lower(s);
    if c in s {
      assert lib.Lower(s)[|r|] == c by { LowerCharIs(s[|r|], c, lib); }
    }
    BeforeUnique(lib.Lower(s), c, lib.Lower(r));
  }

  lemma AfterLower(s: string, c: char, lib: Library)
    requires lib.LawfulCase() && Ascii(c) && !Letter(c)
    ensures After(lib.Lower(s), c) == lib.Lower(After(s, c))
  {
    hide Before, Library.LawfulCase, Letter;
    BeforeLower(s, c, lib);
    if c in s {
      var n := |Before(s, c)| + 1;
      assert lib.Lower(s)[n..] == lib.Lower(s[n..]);
    }
  }

  lemma LowerKeepsPort(s: string, lib: Library)
    requires lib.LawfulCase() && OptionalPort(s)
    ensures OptionalPort(lib.Lower(s))
  {
    if s != "" {
      LowerCharIs(s[0], ':', lib);
      forall c | c in lib.Lower(s)[1..] ensures Numeral(c) {
        var i :| 0 < i < |s| && lib.Lower(s)[i] == c;
        assert s[i] in s[1..];
        assert Ascii(s[i]) && lib.lower(s[i]) == AsciiLower(s[i]);
      }
    }
  }

  lemma LowerHostChars(h: string, lib: Library)
    requires lib.LawfulCase() && forall c | c in h :: HostChar(c)
    ensures forall c | c in lib.Lower(h) :: HostChar(c)
  {
    forall i | 0 <= i < |h| ensures HostChar(lib.Lower(h)[i]) {
      assert h[i] in h;
      LowerHostChar(h[i], lib);
    }
  }

  lemma LowerHostChar(c: char, lib: Library)
    requires lib.LawfulCase() && HostChar(c)
    ensures HostChar(lib.lower(c))
  {
    if Ascii(c) {
      assert lib.lower(c) == AsciiLower(c);
    }
  }

  lemma Punctuation()
    ensures forall c | c in {'[', ']', ':', '%'} :: Ascii(c) && !Letter(c)
  {
  }

  lemma LowerFirst(h: string, lib: Library)
    requires lib.LawfulCase() && h != ""
    ensures lib.Lower(h)[0] == '[' <==> h[0] == '['
  {
    LowerCharIs(h[0], '[', lib);
  }

  lemma LowerAddress(a: string, lib: Library)
    requires lib.LawfulCase() && lib.ipv6(a)
    ensures lib.ipv6(lib.Lower(a))
  {
  }

  lemma LowerHost(h: string, lib: Library)
    requires lib.LawfulCase() && ValidHost(h, lib)
    ensures ValidHost(lib.Lower(h), lib)
  {
    hide HostChar, OptionalPort, Letter, Before, After, Library.LawfulCase;
    LowerHostChars(h, lib);
    Punctuation();
    BeforeLower(h, ']', lib);
    AfterLower(h, ']', lib);
    BeforeLower(h, ':', lib);
    LowerMember(h, '[', lib);
    if h != "" {
      LowerFirst(h, lib);
    }
    if h != "" && h[0] == '[' {
      LowerKeepsPort(After(h, ']'), lib);
      LowerAddress(Before(h, ']')[1..], lib);
      assert lib.Lower(Before(h, ']'))[1..] == lib.Lower(Before(h, ']')[1..]);
    } else if ':' in h {
      var n := |Before(h, ':')|;
      LowerKeepsPort(h[n..], lib);
      assert lib.Lower(h)[n..] == lib.Lower(h[n..]);
    }
  }

  lemma LowerHostname(h: string, lib: Library)
    requires lib.LawfulCase()
    ensures Hostname(lib.Lower(h)) == lib.Lower(Hostname(h))
  {
    hide Letter, Before, Library.LawfulCase;
    Punctuation();
    BeforeLower(h, ']', lib);
    BeforeLower(h, ':', lib);
    if h != "" {
      LowerFirst(h, lib);
    }
    if h != "" && h[0] == '[' && ']' in h {
      assert lib.Lower(Before(h, ']'))[1..] == lib.Lower(Before(h, ']')[1..]);
    }
  }

  // ------------------------------------------------------------------ origins that are accepted

  predicate ThisMachine(name: string) { name == "localhost" || name == "127.0.0.1" || name == "::1" }

  lemma LoopbackIff(name: string)
    ensures Loopback(name) <==> ThisMachine(name)
  {
  }

  /** scheme://h as NormalizeOrigin writes it: a lower-case host, and plain http only on loopback. */
  predicate OriginParts(scheme: string, h: string, lib: Library) {
    && (scheme == "https" || (scheme == "http" && ThisMachine(Hostname(h))))
    && h != "" && lib.Lower(h) == h && ('%' in h || ValidHost(h, lib))
  }

  ghost predicate IsOrigin(s: string, lib: Library) {
    exists scheme, h :: s == scheme + "://" + h && OriginParts(scheme, h, lib)
  }

  /** Everything NormalizeOrigin accepts is an origin: no wildcard, no "null", no path, query,
      fragment or user, no other scheme, no plain http off loopback. */
  lemma AcceptedIsOrigin(raw: string, lib: Library) returns (scheme: string, h: string)
    requires lib.Lawful() && NormalizeOrigin(raw, lib) != ""
    ensures OriginParts(scheme, h, lib) && NormalizeOrigin(raw, lib) == scheme + "://" + h
    ensures IsOrigin(NormalizeOrigin(raw, lib), lib)
  {
    hide TrimSpace, ValidHost, Hostname, Loopback, Scheme, Control, Before, Library.LawfulCase, HostOf;
    var u := Parse(TrimSpace(raw), lib).value;
    scheme, h := lib.Lower(u.scheme), lib.Lower(u.host);
    assert exists authority :: HostOf(authority, lib) == Some(u.host);
    var authority :| HostOf(authority, lib) == Some(u.host);
    AuthorityHost(authority, lib);
    LowerTwice(u.host, lib);
    LowerHostname(u.host, lib);
    LoopbackIff(Hostname(h));
  }

  lemma AuthorityHost(authority: string, lib: Library)
    requires lib.Lawful() && HostOf(authority, lib).Some?
    ensures
      var h := HostOf(authority, lib).value;
      && |h| <= |authority|
      && ('%' in authority ==> |h| < |authority|)
      && ('%' in lib.Lower(h) || ValidHost(lib.Lower(h), lib))
  {
    var h := HostOf(authority, lib).value;
    hide ValidHost, Library.LawfulCase, Letter;
    Punctuation();
    LowerMember(h, '%', lib);
    if '%' !in h {
      LowerHost(h, lib);
    }
  }

  // ------------------------------------------------------------------ origins that are parsed again

  lemma NotHostChars(h: string)
    requires forall c | c in h :: HostChar(c)
    ensures '#' !in h && '?' !in h && '/' !in h && '@' !in h && '%' !in h
    ensures forall c | c in h :: !Control(c)
  {
  }

  /** http or https in any mixture of cases. */
  predicate IsHttp(s: string) {
    |s| == 4 && s[0] in {'h', 'H'} && s[1] in {'t', 'T'} && s[2] in {'t', 'T'} && s[3] in {'p', 'P'}
  }

  predicate IsHttps(s: string) { |s| == 5 && IsHttp(s[..4]) && s[4] in {'s', 'S'} }

  lemma WebSchemeChars(s: string)
    requires IsHttp(s) || IsHttps(s)
    ensures forall c | c in s :: Letter(c) && SchemeChar(c) && !Control(c) && c !in {':', '#', '/', '?', '%'}
  {
    forall i | 0 <= i < |s| ensures s[i] in {'h', 'H', 't', 'T', 'p', 'P', 's', 'S'} {
      if i < 4 { assert s[i] == s[..4][i]; }
    }
  }

  lemma SchemeOf(scheme: string, rest: string)
    requires IsHttp(scheme) || IsHttps(scheme)
    ensures Scheme(scheme + ":" + rest) == Some(scheme)
  {
    hide IsHttp, IsHttps, Before, SchemeChar, Letter;
    assert scheme != "" by { WebSchemeLength(scheme); }
    WebSchemeChars(scheme);
    CutAt(scheme, ':', rest);
    assert scheme[0] in scheme;
    assert ':' in scheme + ":" + rest;
  }

  lemma WebSchemeLength(s: string)
    requires IsHttp(s) || IsHttps(s)
    ensures s != ""
  {
  }

  lemma HostChars(h: string, lib: Library)
    requires ValidHost(h, lib)
    ensures forall c | c in h :: HostChar(c)
  {
  }

  lemma SchemeIsPlain(scheme: string)
    requires scheme == "http" || scheme == "https"
    ensures forall c | c in scheme + "://" :: !Control(c) && c != '#' && c != '?' && c != '%'
  {
  }

  /** What may follow the authority of an origin: an empty path, query and fragment. */
  predicate EmptyTail(p: string, q: string, f: string) {
    (p == "" || p == "/") && (q == "" || q == "?") && (f == "" || f == "#")
  }

  lemma RestParts(scheme: string, a: string, p: string, q: string, lib: Library)
    requires '/' !in a && '?' !in a && '@' !in a && HostOf(a, lib).Some? && EmptyTail(p, q, "")
    ensures ParseRest(scheme, "//" + a + p + q, "", lib) == Some(Url(scheme, false, HostOf(a, lib).value, p, "", ""))
  {
    hide HostOf, Before;
    var hier := "//" + a + p;
    var rest := hier + q;
    BeforeUnique(rest, '?', hier);
    assert After(rest, '?') == "";
    assert hier[2..] == a + p && hier[2 + |a|..] == p && "//" <= hier;
    BeforeUnique(a + p, '/', a);
  }

  /** Parsing the text of an origin gives back its parts and nothing else. */
  lemma ParseParts(scheme: string, a: string, p: string, q: string, f: string, lib: Library)
    requires (IsHttp(scheme) || IsHttps(scheme)) && EmptyTail(p, q, f) && HostOf(a, lib).Some?
    requires forall c | c in a :: !Control(c) && c !in {'/', '?', '#', '@'}
    ensures Parse(scheme + "://" + a + p + q + f, lib) ==
            Some(Url(scheme, false, HostOf(a, lib).value, p, "", ""))
  {
    hide HostOf, Before, Scheme, ParseRest, Control, IsHttp, IsHttps;
    var rest := "//" + a + p + q;
    var u := scheme + ":" + rest;
    var s := scheme + "://" + a + p + q + f;
    assert s == u + f by { Regroup(scheme, a, p, q, f); }
    assert '#' !in u && forall c | c in u :: !Control(c) by { NothingForbidden(scheme, a, p, q); }
    BeforeUnique(s, '#', u);
    assert After(s, '#') == "";
    SchemeOf(scheme, rest);
    assert scheme != "" by { WebSchemeLength(scheme); }
    assert u[|scheme| + 1..] == rest;
    RestParts(scheme, a, p, q, lib);
  }

  lemma Regroup(scheme: string, a: string, p: string, q: string, f: string)
    ensures scheme + "://" + a + p + q + f == scheme + ":" + ("//" + a + p + q) + f
  {
    assert scheme + "://" == scheme + ":" + "//";
  }

  lemma NothingForbidden(scheme: string, a: string, p: string, q: string)
    requires (IsHttp(scheme) || IsHttps(scheme)) && EmptyTail(p, q, "")
    requires forall c | c in a :: !Control(c) && c !in {'/', '?', '#', '@'}
    ensures forall c | c in scheme + ":" + ("//" + a + p + q) :: !Control(c) && c != '#'
  {
    WebSchemeChars(scheme);
    hide IsHttp, IsHttps, Letter, SchemeChar;
    assert forall c | c in ":" + "//" + p + q :: !Control(c) && c != '#';
  }

  /** In particular scheme://h, with or without a final slash. */
  lemma ParseOrigin(scheme: string, h: string, path: string, lib: Library)
    requires scheme == "http" || scheme == "https"
    requires ValidHost(h, lib) && (path == "" || path == "/")
    ensures Parse(scheme + "://" + h + path, lib) == Some(Url(scheme, false, h, path, "", ""))
  {
    hide ValidHost, HostChar, Control, Parse;
    HostChars(h, lib);
    NotHostChars(h);
    assert HostOf(h, lib) == Some(h);
    hide HostOf;
    ParseParts(scheme, h, path, "", "", lib);
    assert scheme + "://" + h + path + "" + "" == scheme + "://" + h + path;
  }

  lemma SchemeLower(scheme: string, lib: Library)
    requires (scheme == "http" || scheme == "https") && lib.LawfulCase()
    ensures lib.Lower(scheme) == scheme
  {
    forall i | 0 <= i < |scheme| ensures lib.Lower(scheme)[i] == scheme[i] {
      assert Ascii(scheme[i]);
    }
  }

  lemma FirstIsNotSpace(s: string)
    requires s != "" && s[0] == 'h'
    ensures !IsSpace(s[0])
  {
  }

  /** An origin is accepted as it stands, with or without a final slash, unless its last character
      is white space and gets trimmed. */
  lemma OriginIsAccepted(scheme: string, h: string, path: string, lib: Library)
    requires lib.Lawful() && OriginParts(scheme, h, lib) && ValidHost(h, lib)
    requires path == "/" || (path == "" && !IsSpace(h[|h| - 1]))
    ensures NormalizeOrigin(scheme + "://" + h + path, lib) == scheme + "://" + h
  {
    hide TrimSpace, ValidHost, Parse, Hostname, IsSpace, Library.LawfulCase;
    LoopbackIff(Hostname(h));
    var s := scheme + "://" + h + path;
    FirstIsNotSpace(s);
    LastIsNotSpace(h, path);
    assert s[|s| - 1] == (h + path)[|h + path| - 1];
    TrimSpaceIdentity(s);
    ParseOrigin(scheme, h, path, lib);
    SchemeLower(scheme, lib);
    LowerHostname(h, lib);
    assert |lib.Lower(s)| > |"null"|;
  }

  lemma LastIsNotSpace(h: string, path: string)
    requires h != "" && (path == "/" || (path == "" && !IsSpace(h[|h| - 1])))
    ensures !IsSpace((h + path)[|h + path| - 1])
  {
    assert !IsSpace('/');
    assert path == "" ==> h + path == h;
  }

  // ------------------------------------------------------------------ fixed points

  /** How the trimmed text of an accepted origin is made up. */
  lemma ParseSplits(t: string, lib: Library) returns (authority: string, tail: string)
    requires Parse(t, lib).Some? && Parse(t, lib).value.scheme != ""
    requires Parse(t, lib).value.host != "" && !Parse(t, lib).value.hasUser
    ensures t == Parse(t, lib).value.scheme + "://" + authority + tail
    ensures authority == Authority(t) && HostOf(authority, lib) == Some(Parse(t, lib).value.host)
  {
    hide Control, HostOf, Before, Scheme, ParseRest;
    var u := Before(t, '#');
    var scheme := Scheme(u).value;
    SchemeIsPrefix(u);
    SchemeOfRest(scheme, if scheme == "" then u else u[|scheme| + 1..], After(t, '#'), lib);
    var rest := u[|scheme| + 1..];
    var more;
    authority, more := RestSplits(scheme, rest, After(t, '#'), lib);
    tail := more + t[|u|..];
    Joined(t, u, scheme, rest, authority, more);
    assert After(u, ':') == rest by { SchemeIsBefore(u); }
  }

  lemma Joined(t: string, u: string, scheme: string, rest: string, authority: string, more: string)
    requires u <= t && scheme + ":" <= u && rest == u[|scheme| + 1..] && rest == "//" + authority + more
    ensures t == scheme + "://" + authority + (more + t[|u|..])
  {
    assert u == (scheme + ":") + rest;
    assert (scheme + ":") + "//" == scheme + "://";
    assert u == (scheme + "://") + (authority + more);
    assert t == u + t[|u|..];
  }

  lemma SchemeOfRest(scheme: string, rest: string, fragment: string, lib: Library)
    ensures
      var parsed := ParseRest(scheme, rest, fragment, lib);
      parsed.Some? ==> parsed.value.scheme == scheme
  {
  }

  lemma RestSplits(scheme: string, rest: string, fragment: string, lib: Library)
    returns (authority: string, tail: string)
    requires
      var parsed := ParseRest(scheme, rest, fragment, lib);
      parsed.Some? && parsed.value.host != "" && !parsed.value.hasUser
    ensures rest == "//" + authority + tail
    ensures |Before(rest, '?')| >= 2 && authority == Before(Before(rest, '?')[2..], '/')
    ensures HostOf(authority, lib) == Some(ParseRest(scheme, rest, fragment, lib).value.host)
  {
    hide HostOf, Before;
    var hier := Before(rest, '?');
    authority := Before(hier[2..], '/');
    tail := rest[2 + |authority|..];
    assert hier == "//" + hier[2..];
  }

  lemma SchemeIsPrefix(u: string)
    ensures Scheme(u).Some? && Scheme(u).value != "" ==> Scheme(u).value + ":" <= u
  {
  }

  lemma SchemeIsBefore(u: string)
    ensures Scheme(u).Some? && Scheme(u).value != "" ==>
              ':' in u && After(u, ':') == u[|Scheme(u).value| + 1..]
  {
  }

  /** No percent sign and no trailing white space. */
  predicate Plain(s: string) { '%' !in s && (s == "" || !IsSpace(s[|s| - 1])) }

  /** Only a text without percent signs that needs no trimming can be returned unchanged, since
      decoding and trimming both shorten. */
  lemma FixedIsPlain(s: string, lib: Library)
    requires lib.Lawful() && s != "" && NormalizeOrigin(s, lib) == s
    ensures Plain(s)
  {
    hide Parse, HostOf, Loopback, Hostname, IsSpace, Library.LawfulCase, TrimSpace;
    var t := TrimSpace(s);
    TrimSpaceShrinks(s);
    var u := Parse(t, lib).value;
    var authority, tail := ParseSplits(t, lib);
    AuthorityHost(authority, lib);
    assert |t| == |s| && |u.host| == |authority|;
    assert '%' !in u.host by { HostOfPlain(authority, lib); }
    Punctuation();
    LowerMember(u.host, '%', lib);
    SchemeIsPlain(lib.Lower(u.scheme));
  }

  lemma HostOfPlain(authority: string, lib: Library)
    requires '%' !in authority && HostOf(authority, lib).Some?
    ensures HostOf(authority, lib).value == authority && forall c | c in authority :: HostChar(c)
  {
  }

  /** An origin that parses again to itself. */
  predicate CanonicalParts(scheme: string, h: string, lib: Library) {
    OriginParts(scheme, h, lib) && ValidHost(h, lib) && h != "" && !IsSpace(h[|h| - 1])
  }

  /** The accepted texts that normalising leaves alone are exactly the origins without percent
      signs and trailing white space. */
  lemma FixedIff(s: string, lib: Library)
    requires lib.Lawful()
    ensures s != "" && NormalizeOrigin(s, lib) == s <==>
              exists scheme, h :: s == scheme + "://" + h && CanonicalParts(scheme, h, lib)
  {
    hide NormalizeOrigin, OriginParts, ValidHost, IsSpace, Plain, Library.Lawful;
    if s != "" && NormalizeOrigin(s, lib) == s {
      FixedIsPlain(s, lib);
      var scheme, h := AcceptedIsOrigin(s, lib);
      CanonicalWhenPlain(scheme, h, lib);
    }
    if scheme, h :| s == scheme + "://" + h && CanonicalParts(scheme, h, lib) {
      CanonicalIsFixed(scheme, h, lib);
    }
  }

  lemma CanonicalWhenPlain(scheme: string, h: string, lib: Library)
    requires OriginParts(scheme, h, lib) && Plain(scheme + "://" + h)
    ensures CanonicalParts(scheme, h, lib)
  {
    hide ValidHost, IsSpace, Loopback, Hostname;
    var s := scheme + "://" + h;
    assert s[|s| - 1] == h[|h| - 1];
    assert forall c | c in h :: c in s;
  }

  lemma CanonicalIsFixed(scheme: string, h: string, lib: Library)
    requires lib.Lawful() && CanonicalParts(scheme, h, lib)
    ensures NormalizeOrigin(scheme + "://" + h, lib) == scheme + "://" + h
  {
    hide NormalizeOrigin, OriginParts, ValidHost, IsSpace;
    OriginIsAccepted(scheme, h, "", lib);
    assert scheme + "://" + h + "" == scheme + "://" + h;
  }

  /** Normalising twice is normalising once exactly when the first result has no percent sign and
      no trailing white space. */
  lemma IdempotentIffPlain(raw: string, lib: Library)
    requires lib.Lawful()
    ensures
      var out := NormalizeOrigin(raw, lib);
      NormalizeOrigin(out, lib) == out <==> Plain(out)
  {
    var out := NormalizeOrigin(raw, lib);
    if out == "" {
      assert TrimSpace("") == "";
    } else {
      var scheme, h := AcceptedIsOrigin(raw, lib);
      hide NormalizeOrigin, OriginParts, ValidHost, Plain, Library.Lawful;
      if NormalizeOrigin(out, lib) == out {
        FixedIsPlain(out, lib);
      }
      if Plain(out) {
        CanonicalWhenPlain(scheme, h, lib);
        CanonicalIsFixed(scheme, h, lib);
      }
    }
  }

  /** The host that raw names has no percent sign after decoding and does not end in white space. */
  predicate HostSettled(raw: string, lib: Library) {
    var host := HostOf(Authority(TrimSpace(raw)), lib);
    host.Some? && Plain(host.value)
  }

  /** What the result of an accepted text ends in and contains is decided by its host. */
  lemma ResultPlainIff(raw: string, lib: Library)
    requires lib.Lawful() && NormalizeOrigin(raw, lib) != ""
    ensures Plain(NormalizeOrigin(raw, lib)) <==> HostSettled(raw, lib)
  {
    hide Parse, HostOf, Loopback, Hostname, IsSpace, Library.LawfulCase, TrimSpace, Authority;
    var t := TrimSpace(raw);
    var u := Parse(t, lib).value;
    var authority, tail := ParseSplits(t, lib);
    SchemeIsPlain(lib.Lower(u.scheme));
    Punctuation();
    LowerMember(u.host, '%', lib);
    LowerLast(u.host, lib);
    PrefixPlain(lib.Lower(u.scheme) + "://", lib.Lower(u.host));
  }

  lemma LowerLast(h: string, lib: Library)
    requires lib.LawfulCase() && h != ""
    ensures IsSpace(lib.Lower(h)[|h| - 1]) <==> IsSpace(h[|h| - 1])
  {
  }

  lemma PrefixPlain(prefix: string, h: string)
    requires '%' !in prefix && h != ""
    ensures Plain(prefix + h) <==> Plain(h)
  {
    hide IsSpace;
    assert (prefix + h)[|prefix + h| - 1] == h[|h| - 1];
  }

  /** Read off the text given: normalising twice is normalising once exactly when the text is
      rejected or the host it names has no percent sign after decoding and no trailing white space. */
  lemma IdempotentIffHostSettled(raw: string, lib: Library)
    requires lib.Lawful()
    ensures
      var out := NormalizeOrigin(raw, lib);
      NormalizeOrigin(out, lib) == out <==> out == "" || HostSettled(raw, lib)
  {
    IdempotentIffPlain(raw, lib);
    if NormalizeOrigin(raw, lib) != "" {
      ResultPlainIff(raw, lib);
    }
  }

  /** Without percent signs the host of an accepted text is its authority. */
  lemma PlainAuthority(raw: string, lib: Library)
    requires lib.Lawful() && '%' !in raw && NormalizeOrigin(raw, lib) != ""
    ensures
      var authority := Authority(TrimSpace(raw));
      && authority != "" && HostOf(authority, lib) == Some(authority)
      && forall c | c in authority :: c in raw && c != '%' && HostChar(c)
  {
    hide Parse, HostOf, Loopback, Hostname, IsSpace, Library.LawfulCase, TrimSpace, Authority, HostChar;
    var t := TrimSpace(raw);
    var authority, tail := ParseSplits(t, lib);
    TrimSpaceMembers(raw);
    assert forall c | c in authority :: c in t;
    HostOfPlain(authority, lib);
  }

  /** Then only the last character of the authority counts ... */
  lemma IdempotentIffNoTrailingSpace(raw: string, lib: Library)
    requires lib.Lawful() && '%' !in raw && NormalizeOrigin(raw, lib) != ""
    ensures
      var out, authority := NormalizeOrigin(raw, lib), Authority(TrimSpace(raw));
      authority != "" && (NormalizeOrigin(out, lib) == out <==> !IsSpace(authority[|authority| - 1]))
  {
    hide NormalizeOrigin, HostOf, Authority, IsSpace, TrimSpace, Library.Lawful;
    PlainAuthority(raw, lib);
    IdempotentIffHostSettled(raw, lib);
  }

  lemma AsciiHostChar(c: char)
    requires Ascii(c) && HostChar(c)
    ensures !IsSpace(c)
  {
  }

  /** ... and on ASCII text normalising is idempotent. */
  lemma AsciiIsIdempotent(raw: string, lib: Library)
    requires lib.Lawful() && forall c | c in raw :: Ascii(c) && c != '%'
    ensures NormalizeOrigin(NormalizeOrigin(raw, lib), lib) == NormalizeOrigin(raw, lib)
  {
    hide NormalizeOrigin, HostOf, Authority, IsSpace, TrimSpace, Library.Lawful, HostChar;
    if NormalizeOrigin(raw, lib) != "" {
      PlainAuthority(raw, lib);
      IdempotentIffNoTrailingSpace(raw, lib);
      var authority := Authority(TrimSpace(raw));
      var last := authority[|authority| - 1];
      assert last in authority;
      AsciiHostChar(last);
    } else {
      IdempotentIffHostSettled(raw, lib);
    }
  }

  lemma NoBreakHost(h: string, lib: Library)
    requires lib.Lawful() && lib.lower('\U{A0}') == '\U{A0}' && h == ['a', '\U{A0}']
    ensures OriginParts("https", h, lib) && ValidHost(h, lib) && IsSpace(h[1])
  {
    assert lib.lower('a') == AsciiLower('a');
  }

  /** A final slash hides the no-break space in front of it from the first trimming but not from the
      second. */
  lemma TrailingSpaceIsNotIdempotent(lib: Library)
    requires lib.Lawful() && lib.lower('\U{A0}') == '\U{A0}'
    ensures
      var origin := "https://" + "a\U{A0}";
      NormalizeOrigin(origin + "/", lib) == origin && NormalizeOrigin(origin, lib) != origin
  {
    hide NormalizeOrigin, OriginParts, ValidHost, Library.Lawful, IsSpace;
    var h := "a\U{A0}";
    var origin := "https://" + h;
    NoBreakHost(h, lib);
    OriginIsAccepted("https", h, "/", lib);
    assert "https" + "://" == "https://";
    assert origin[|origin| - 1] == h[1];
    IdempotentIffPlain(origin + "/", lib);
  }
}
