/** Which texts are accepted as origins, read off the text, and what becomes of them. */
module OriginTexts {
  import opened Text
  import opened Origins

  // ------------------------------------------------------------------ hosts

  /** Of ASCII a host may not contain blanks, controls, and what delimits or would need escaping. */
  lemma HostCharTable(c: char)
    requires Ascii(c)
    ensures HostChar(c) <==>
              && c > ' ' && c != '\U{7F}'
              && c !in {'#', '%', '/', '?', '@', '\\', '^', '`', '{', '|', '}'}
  {
  }

  predicate PortText(port: string) {
    port == "" || (port[0] == ':' && forall i | 1 <= i < |port| :: '0' <= port[i] <= '9')
  }

  /** A name without brackets and colons, or an address in brackets; then perhaps a port. */
  predicate NameAndPort(h: string, name: string, port: string, lib: Library) {
    && PortText(port)
    && ((h == name + port && '[' !in name && ':' !in name)
        || (h == "[" + name + "]" + port && ']' !in name && lib.ipv6(name)))
  }

  lemma PortTextIff(port: string)
    ensures OptionalPort(port) <==> PortText(port)
    ensures PortText(port) ==> '[' !in port && ']' !in port
  {
    if port != "" {
      forall i | 1 <= i < |port| ensures port[i] in port[1..] {
        assert port[1..][i - 1] == port[i];
      }
      if PortText(port) {
        forall c | c in port[1..] ensures Numeral(c) {
          var k :| 0 <= k < |port[1..]| && port[1..][k] == c;
          assert port[k + 1] == c;
        }
      }
    }
  }

  lemma BracketedIff(h: string, lib: Library)
    requires h != "" && h[0] == '['
    ensures (']' in h && lib.ipv6(Before(h, ']')[1..]) && OptionalPort(After(h, ']'))) <==>
            exists name, port :: NameAndPort(h, name, port, lib)
  {
    hide Before, OptionalPort, PortText;
    if ']' in h && lib.ipv6(Before(h, ']')[1..]) && OptionalPort(After(h, ']')) {
      var name, port := Before(h, ']')[1..], After(h, ']');
      PortTextIff(port);
      assert h == Before(h, ']') + "]" + port;
      assert Before(h, ']') == "[" + name;
      assert NameAndPort(h, name, port, lib);
    }
    if name, port :| NameAndPort(h, name, port, lib) {
      PortTextIff(port);
      NotPlain(h, name, port);
      CutAt("[" + name, ']', port);
      assert h == ("[" + name) + [']'] + port;
      assert ("[" + name)[1..] == name;
    }
  }

  /** A text that starts with a bracket is no plain name. */
  lemma NotPlain(h: string, name: string, port: string)
    requires h != "" && h[0] == '[' && PortText(port)
    ensures !(h == name + port && '[' !in name)
  {
    PortTextIff(port);
    if h == name + port {
      assert h[0] in name + port;
    }
  }

  lemma NamedIff(h: string, lib: Library)
    requires h == "" || h[0] != '['
    ensures ('[' !in h && (':' in h ==> OptionalPort(h[|Before(h, ':')|..]))) <==>
            exists name, port :: NameAndPort(h, name, port, lib)
  {
    hide Before, OptionalPort, PortText;
    if '[' !in h && (':' in h ==> OptionalPort(h[|Before(h, ':')|..])) {
      var name := Before(h, ':');
      var port := h[|name|..];
      PortTextIff(port);
      assert port == "" ==> PortText(port) by { EmptyPort(); }
      assert h == name + port;
      assert NameAndPort(h, name, port, lib);
    }
    if name, port :| NameAndPort(h, name, port, lib) {
      PortTextIff(port);
      assert h == name + port by { assert h != "" ==> h[0] != '['; }
      assert ':' in h ==> port != "" && port[0] == ':' by { PortStarts(port); }
      if ':' in h {
        BeforeUnique(h, ':', name);
        assert h[|name|..] == port;
      }
    }
  }

  lemma EmptyPort()
    ensures PortText("")
  {
  }

  lemma PortStarts(port: string)
    requires PortText(port)
    ensures port != "" ==> port[0] == ':'
  {
  }

  /** The hosts accepted without escapes. */
  lemma ValidHostIff(h: string, lib: Library)
    ensures ValidHost(h, lib) <==>
              (forall c | c in h :: HostChar(c)) && exists name, port :: NameAndPort(h, name, port, lib)
  {
    hide HostChar, NameAndPort, Before, OptionalPort;
    if h != "" && h[0] == '[' {
      BracketedIff(h, lib);
    } else {
      NamedIff(h, lib);
    }
  }

  /** The host name is the name or the address, without brackets and port. */
  lemma HostnameIs(h: string, name: string, port: string, lib: Library)
    requires NameAndPort(h, name, port, lib)
    ensures Hostname(h) == name
  {
    hide Before, PortText;
    PortTextIff(port);
    PortStarts(port);
    if h == name + port && '[' !in name && ':' !in name {
      assert h != "" ==> h[0] != '[' by {
        if h != "" && h[0] == '[' { assert h[0] in name + port; }
      }
      BeforeUnique(h, ':', name);
    } else {
      CutAt("[" + name, ']', port);
      assert h == ("[" + name) + [']'] + port;
      assert ("[" + name)[1..] == name;
    }
  }

  // ------------------------------------------------------------------ texts

  /** How an origin may be written: http or https in any case, an authority, and then at most a slash,
      a question mark and a number sign, in this order. */
  datatype Spelling = Spelling(scheme: string, authority: string, slash: string, mark: string, sign: string) {
    function Text(): string { scheme + "://" + authority + slash + mark + sign }

    predicate Proper() {
      && (IsHttp(scheme) || IsHttps(scheme))
      && (forall c | c in authority :: c as int >= 32 && c as int != 127 && c !in {'/', '?', '#', '@'})
      && (slash == "" || slash == "/") && (mark == "" || mark == "?") && (sign == "" || sign == "#")
    }

    /** It names an acceptable host, and out is the origin it stands for. */
    predicate Means(out: string, lib: Library) {
      HostOf(authority, lib).Some? &&
      var host := HostOf(authority, lib).value;
      && host != ""
      && (IsHttp(scheme) ==> ThisMachine(lib.Lower(Hostname(host))))
      && out == (if IsHttp(scheme) then "http" else "https") + "://" + lib.Lower(host)
    }
  }

  lemma LowerWebScheme(scheme: string, lib: Library)
    requires lib.LawfulCase()
    ensures IsHttp(scheme) ==> lib.Lower(scheme) == "http"
    ensures IsHttps(scheme) ==> lib.Lower(scheme) == "https"
    ensures (forall c | c in scheme :: Ascii(c)) && lib.Lower(scheme) == "http" ==> IsHttp(scheme)
    ensures (forall c | c in scheme :: Ascii(c)) && lib.Lower(scheme) == "https" ==> IsHttps(scheme)
  {
  }

  lemma ControlTable(c: char)
    ensures Control(c) <==> c as int < 32 || c as int == 127
  {
  }

  /** A proper spelling is accepted, as the origin it means. */
  lemma SpellingIsAccepted(raw: string, s: Spelling, out: string, lib: Library)
    requires lib.LawfulCase() && TrimSpace(raw) == s.Text() && s.Proper() && s.Means(out, lib)
    ensures NormalizeOrigin(raw, lib) == out
  {
    hide HostOf, Parse, Hostname, TrimSpace, Library.LawfulCase, IsHttp, IsHttps, Control;
    forall c | c in s.authority ensures !Control(c) { ControlTable(c); }
    ParseParts(s.scheme, s.authority, s.slash, s.mark, s.sign, lib);
    LowerWebScheme(s.scheme, lib);
    OneWebScheme(s.scheme);
    LoopbackIff(lib.Lower(Hostname(HostOf(s.authority, lib).value)));
    assert |s.Text()| > 4;
  }

  lemma OneWebScheme(scheme: string)
    ensures !(IsHttp(scheme) && IsHttps(scheme))
  {
  }

  lemma SchemeIsAscii(u: string)
    requires Scheme(u).Some?
    ensures forall c | c in Scheme(u).value :: Ascii(c)
  {
  }

  /** What an accepted text looks like behind the scheme. */
  lemma RestSpelling(scheme: string, rest: string, lib: Library)
    returns (authority: string, slash: string, mark: string)
    requires
      var parsed := ParseRest(scheme, rest, "", lib);
      parsed.Some? && parsed.value.host != "" && !HasDisallowedParts(parsed.value)
    ensures rest == "//" + authority + slash + mark
    ensures '/' !in authority && '?' !in authority && '@' !in authority
    ensures (slash == "" || slash == "/") && (mark == "" || mark == "?")
    ensures HostOf(authority, lib) == Some(ParseRest(scheme, rest, "", lib).value.host)
  {
    hide HostOf, Before, After;
    var hier := Before(rest, '?');
    authority := Before(hier[2..], '/');
    slash := hier[2 + |authority|..];
    mark := EmptyQuery(rest);
    SplitHier(hier, authority, slash);
    assert rest == hier + mark;
  }

  lemma EmptyQuery(rest: string) returns (mark: string)
    requires After(rest, '?') == ""
    ensures rest == Before(rest, '?') + mark && (mark == "" || mark == "?")
  {
    hide Before;
    mark := if '?' in rest then "?" else "";
    var hier := Before(rest, '?');
    if '?' in rest {
      assert rest == hier + [rest[|hier|]] + rest[|hier| + 1..];
    }
  }

  lemma SplitHier(hier: string, authority: string, slash: string)
    requires "//" <= hier && authority <= hier[2..] && slash == hier[2 + |authority|..]
    ensures hier == "//" + authority + slash
    ensures '?' !in hier ==> '?' !in authority
  {
    assert hier == "//" + hier[2..];
    assert hier[2..] == authority + slash;
    assert forall c | c in authority :: c in hier[2..];
  }

  lemma EmptyFragment(t: string) returns (sign: string)
    requires After(t, '#') == ""
    ensures t == Before(t, '#') + sign && (sign == "" || sign == "#")
  {
    hide Before;
    sign := if '#' in t then "#" else "";
    var u := Before(t, '#');
    if '#' in t {
      assert t == u + [t[|u|]] + t[|u| + 1..];
    }
  }

  /** A text that parses to an origin's parts, in pieces. */
  lemma ParseSpelling(t: string, lib: Library) returns (s: Spelling)
    requires Parse(t, lib).Some? && Parse(t, lib).value.scheme != ""
    requires Parse(t, lib).value.host != "" && !HasDisallowedParts(Parse(t, lib).value)
    ensures t == s.Text() && s.scheme == Parse(t, lib).value.scheme && forall c | c in s.scheme :: Ascii(c)
    ensures forall c | c in s.authority :: !Control(c) && c !in {'/', '?', '#', '@'}
    ensures (s.slash == "" || s.slash == "/") && (s.mark == "" || s.mark == "?") && (s.sign == "" || s.sign == "#")
    ensures HostOf(s.authority, lib) == Some(Parse(t, lib).value.host)
  {
    hide HostOf, ParseRest, Before, After, Scheme, Control, Ascii;
    var u := Before(t, '#');
    var scheme := Scheme(u).value;
    SchemeIsPrefix(u);
    var rest := if scheme == "" then u else u[|scheme| + 1..];
    SchemeOfRest(scheme, rest, After(t, '#'), lib);
    FragmentOfRest(scheme, rest, After(t, '#'), lib);
    var authority, slash, mark := RestSpelling(scheme, rest, lib);
    var sign := EmptyFragment(t);
    s := Spelling(scheme, authority, slash, mark, sign);
    SchemeIsAscii(u);
    SpelledOut(t, u, scheme, rest, s);
  }

  /** An accepted text is a proper spelling that means the result. */
  lemma AcceptedIsSpelling(raw: string, lib: Library) returns (s: Spelling)
    requires lib.LawfulCase() && NormalizeOrigin(raw, lib) != ""
    ensures TrimSpace(raw) == s.Text() && s.Proper() && s.Means(NormalizeOrigin(raw, lib), lib)
  {
    hide TrimSpace, HostOf, Hostname, Loopback, Parse, Control, IsHttp, IsHttps, Library.LawfulCase, Ascii;
    var parsed := Parse(TrimSpace(raw), lib).value;
    s := ParseSpelling(TrimSpace(raw), lib);
    forall c | c in s.authority ensures c as int >= 32 && c as int != 127 { ControlTable(c); }
    LowerWebScheme(s.scheme, lib);
    OneWebScheme(s.scheme);
    LoopbackIff(lib.Lower(Hostname(parsed.host)));
  }

  lemma FragmentOfRest(scheme: string, rest: string, fragment: string, lib: Library)
    ensures
      var parsed := ParseRest(scheme, rest, fragment, lib);
      parsed.Some? ==> parsed.value.fragment == fragment
  {
  }

  lemma SpelledOut(t: string, u: string, scheme: string, rest: string, s: Spelling)
    requires scheme + ":" <= u && rest == u[|scheme| + 1..] && t == u + s.sign && s.scheme == scheme
    requires rest == "//" + s.authority + s.slash + s.mark
    ensures t == s.Text() && forall c | c in s.authority :: c in u
  {
    assert u == scheme + ":" + rest;
    Regroup(scheme, s.authority, s.slash, s.mark, s.sign);
    assert forall c | c in s.authority :: c in rest;
  }

  /** Exactly the proper spellings with an acceptable host are accepted, each as the origin it means. */
  lemma NormalizeOriginIff(raw: string, out: string, lib: Library)
    requires lib.LawfulCase() && out != ""
    ensures NormalizeOrigin(raw, lib) == out <==>
              exists s: Spelling :: TrimSpace(raw) == s.Text() && s.Proper() && s.Means(out, lib)
  {
    hide NormalizeOrigin, TrimSpace, Library.LawfulCase;
    if NormalizeOrigin(raw, lib) == out {
      var s := AcceptedIsSpelling(raw, lib);
    }
    if s: Spelling :| TrimSpace(raw) == s.Text() && s.Proper() && s.Means(out, lib) {
      SpellingIsAccepted(raw, s, out, lib);
    }
  }
}
