/** Standard padded base64 (section 4 of RFC 4648) as Go's decoder reads it. */
module Base64 {
  import opened Text
  import opened Bytes

  // ------------------------------------------------------------------ the alphabet

  type Sextet = n: int | 0 <= n < 64

  function Digit(n: Sextet): char {
    if n < 26 then (n + 'A' as int) as char
    else if n < 52 then (n - 26 + 'a' as int) as char
    else if n < 62 then (n - 52 + '0' as int) as char
    else if n == 62 then '+'
    else '/'
  }

  function Value(c: char): Option<Sextet> {
    if 'A' <= c <= 'Z' then Some(c as int - 'A' as int)
    else if 'a' <= c <= 'z' then Some(c as int - 'a' as int + 26)
    else if '0' <= c <= '9' then Some(c as int - '0' as int + 52)
    else if c == '+' then Some(62)
    else if c == '/' then Some(63)
    else None
  }

  /** Table 1 of RFC 4648: the capital letters, the small letters, the numerals, plus and slash. */
  lemma DigitTable(n: Sextet)
    ensures n < 26 ==> Digit(n) == "ABCDEFGHIJKLMNOPQRSTUVWXYZ"[n]
    ensures 26 <= n < 52 ==> Digit(n) == "abcdefghijklmnopqrstuvwxyz"[n - 26]
    ensures 52 <= n < 62 ==> Digit(n) == "0123456789"[n - 52]
    ensures (n == 62 ==> Digit(n) == '+') && (n == 63 ==> Digit(n) == '/')
  {
  }

  lemma DigitValue(n: Sextet)
    ensures Value(Digit(n)) == Some(n)
    ensures Digit(n) !in {'=', '\r', '\n'} && !IsSpace(Digit(n))
  {
  }

  lemma ValueDigit(c: char)
    requires Value(c).Some?
    ensures Digit(Value(c).value) == c
  {
  }

  // The four digits of three bytes, and back.

  function D0(a: Byte): Sextet { a as int / 4 }
  function D1(a: Byte, b: Byte): Sextet { a as int % 4 * 16 + b as int / 16 }
  function D2(b: Byte, c: Byte): Sextet { b as int % 16 * 4 + c as int / 64 }
  function D3(c: Byte): Sextet { c as int % 64 }

  function B0(p: Sextet, q: Sextet): Byte { (p * 4 + q / 16) as Byte }
  function B1(q: Sextet, r: Sextet): Byte { (q % 16 * 16 + r / 4) as Byte }
  function B2(r: Sextet, s: Sextet): Byte { (r % 4 * 64 + s) as Byte }

  lemma BytesToDigits(a: Byte, b: Byte, c: Byte)
    ensures B0(D0(a), D1(a, b)) == a && B1(D1(a, b), D2(b, c)) == b && B2(D2(b, c), D3(c)) == c
  {
  }

  lemma DigitsToBytes(p: Sextet, q: Sextet, r: Sextet, s: Sextet)
    ensures D0(B0(p, q)) == p && D1(B0(p, q), B1(q, r)) == q
    ensures D2(B1(q, r), B2(r, s)) == r && D3(B2(r, s)) == s
    ensures D1(B0(p, q), 0) == q <==> q % 16 == 0
    ensures D2(B1(q, r), 0) == r <==> r % 4 == 0
  {
  }

  function Encode(k: seq<Byte>): string {
    if k == [] then ""
    else if |k| == 1 then [Digit(D0(k[0])), Digit(D1(k[0], 0)), '=', '=']
    else if |k| == 2 then [Digit(D0(k[0])), Digit(D1(k[0], k[1])), Digit(D2(k[1], 0)), '=']
    else
      [Digit(D0(k[0])), Digit(D1(k[0], k[1])), Digit(D2(k[1], k[2])), Digit(D3(k[2]))] + Encode(k[3..])
  }

  /** Line breaks are skipped wherever they occur. */
  function WithoutBreaks(s: string): string {
    if s == [] then []
    else (if s[0] in {'\r', '\n'} then [] else [s[0]]) + WithoutBreaks(s[1..])
  }

  /** Line breaks are skipped one by one, ... */
  lemma {:induction false} BreaksAreSkipped(a: string, b: string)
    ensures WithoutBreaks(a + b) == WithoutBreaks(a) + WithoutBreaks(b)
  {
    hide WithoutBreaks;
    if a == [] {
      assert a + b == b;
      NoBreaksInNothing();
    } else {
      BreaksAreSkipped(a[1..], b);
      assert (a + b)[1..] == a[1..] + b;
      assert (a + b)[0] == a[0];
      FirstSkipped(a + b);
      FirstSkipped(a);
    }
  }

  lemma FirstSkipped(s: string)
    requires s != []
    ensures WithoutBreaks(s) == (if s[0] == '\r' || s[0] == '\n' then [] else [s[0]]) + WithoutBreaks(s[1..])
  {
  }

  /** ... and nothing else is. */
  lemma SkippedOneByOne(c: char)
    ensures WithoutBreaks([c]) == if c == '\r' || c == '\n' then "" else [c]
  {
    assert [c][1..] == [];
  }

  /** Groups of four digits; only the last may be padded.  Unused bits of a padded group are ignored. */
  function DecodeGroups(t: string): Option<seq<Byte>> {
    if t == [] then Some([])
    else if |t| < 4 || Value(t[0]).None? || Value(t[1]).None? then None
    else
      var p, q := Value(t[0]).value, Value(t[1]).value;
      if |t| == 4 && t[2] == '=' && t[3] == '=' then Some([B0(p, q)])
      else if Value(t[2]).None? then None
      else
        var r := Value(t[2]).value;
        if |t| == 4 && t[3] == '=' then Some([B0(p, q), B1(q, r)])
        else if Value(t[3]).None? then None
        else
          var rest := DecodeGroups(t[4..]);
          if rest.None? then None else Some([B0(p, q), B1(q, r), B2(r, Value(t[3]).value)] + rest.value)
  }

  /** base64.StdEncoding.DecodeString */
  function DecodeString(s: string): Option<seq<Byte>> {
    DecodeGroups(WithoutBreaks(s))
  }

  // ------------------------------------------------------------------ which texts decode

  predicate InAlphabet(c: char) {
    'A' <= c <= 'Z' || 'a' <= c <= 'z' || '0' <= c <= '9' || c == '+' || c == '/'
  }

  /** Characters of the alphabet in groups of four, the last one or two replaced by padding. */
  predicate Padded(t: string) {
    && |t| % 4 == 0
    && forall i | 0 <= i < |t| ::
         || InAlphabet(t[i])
         || (t[i] == '=' && i == |t| - 1)
         || (t[i] == '=' && i == |t| - 2 && t[i + 1] == '=')
  }

  lemma AlphabetHasValues(c: char)
    ensures Value(c).Some? <==> InAlphabet(c)
    ensures !InAlphabet('=')
  {
  }

  lemma {:induction false} DecodesIffPadded(t: string)
    ensures DecodeGroups(t).Some? <==> Padded(t)
  {
    hide Padded;
    if |t| > 4 {
      DecodesIffPadded(t[4..]);
      DecodeRest(t);
      PaddedRest(t);
    } else {
      ShortDecodesIffPadded(t);
    }
  }

  lemma ShortDecodesIffPadded(t: string)
    requires |t| <= 4
    ensures DecodeGroups(t).Some? <==> Padded(t)
  {
    if |t| == 4 {
      forall i | 0 <= i < 4 ensures Value(t[i]).Some? <==> InAlphabet(t[i]) {
        AlphabetHasValues(t[i]);
      }
      AlphabetHasValues('=');
      hide Value, InAlphabet, B0, B1, B2;
      assert t[4..] == "";
      assert t[0] != '=' || !InAlphabet(t[0]);
    }
  }

  predicate FourDigits(t: string)
    requires |t| >= 4
  {
    InAlphabet(t[0]) && InAlphabet(t[1]) && InAlphabet(t[2]) && InAlphabet(t[3])
  }

  /** Behind the first of several groups there is no padding in front. */
  lemma DecodeRest(t: string)
    requires |t| > 4
    ensures DecodeGroups(t).Some? <==> FourDigits(t) && DecodeGroups(t[4..]).Some?
    ensures DecodeGroups(t).Some? ==>
              && FourDigits(t)
              && var p, q, r, s := DigitBits(t[0]), DigitBits(t[1]), DigitBits(t[2]), DigitBits(t[3]);
                 DecodeGroups(t).value == [B0(p, q), B1(q, r), B2(r, s)] + DecodeGroups(t[4..]).value
  {
    AlphabetHasValues(t[0]);
    AlphabetHasValues(t[1]);
    AlphabetHasValues(t[2]);
    AlphabetHasValues(t[3]);
    hide Value, InAlphabet, B0, B1, B2;
    var rest := DecodeGroups(t[4..]);
    if FourDigits(t) {
      assert DecodeGroups(t) == if rest.None? then None else
          Some([B0(Value(t[0]).value, Value(t[1]).value), B1(Value(t[1]).value, Value(t[2]).value),
                B2(Value(t[2]).value, Value(t[3]).value)] + rest.value);
    }
  }

  lemma PaddedRest(t: string)
    requires |t| > 4
    ensures Padded(t) <==> FourDigits(t) && Padded(t[4..])
  {
    hide InAlphabet;
    var rest := t[4..];
    assert forall i | 0 <= i < |rest| :: rest[i] == t[i + 4];
    assert forall i | 4 <= i < |t| :: t[i] == rest[i - 4];
    assert |t| % 4 == 0 ==> |t| >= 8;
  }

  // ------------------------------------------------------------------ what they decode to

  /** The 24 bits of group g, padding counting as zeros. */
  function GroupBits(t: string, g: nat): int
    requires 4 * g + 4 <= |t|
  {
    DigitBits(t[4 * g]) * 0x40000 + DigitBits(t[4 * g + 1]) * 0x1000
    + DigitBits(t[4 * g + 2]) * 0x40 + DigitBits(t[4 * g + 3])
  }

  function DigitBits(c: char): Sextet { if Value(c).Some? then Value(c).value else 0 }

  /** Byte i of a group of 24 bits, the most significant first. */
  function ByteOf(bits: int, i: nat): int
    requires i < 3
  {
    if i == 0 then bits / 0x10000 else if i == 1 then bits / 0x100 % 0x100 else bits % 0x100
  }

  lemma BytesOfNumber(a: nat, b: nat, c: nat)
    requires b < 0x100 && c < 0x100
    ensures
      var bits := a * 0x10000 + b * 0x100 + c;
      ByteOf(bits, 0) == a && ByteOf(bits, 1) == b && ByteOf(bits, 2) == c
  {
    var bits := a * 0x10000 + b * 0x100 + c;
    assert bits / 0x100 == a * 0x100 + b;
  }

  lemma BytesAreBits(p: Sextet, q: Sextet, r: Sextet, s: Sextet)
    ensures
      var bits := p * 0x40000 + q * 0x1000 + r * 0x40 + s;
      && B0(p, q) as int == ByteOf(bits, 0)
      && B1(q, r) as int == ByteOf(bits, 1)
      && B2(r, s) as int == ByteOf(bits, 2)
  {
    hide ByteOf, B0, B1, B2;
    var q1, q0, r1, r0 := ByteParts(p, q, r, s);
    SameNumber(p, q, q1, q0, r, r1, r0, s);
    BytesOfNumber(p * 4 + q1, q0 * 16 + r1, r0 * 64 + s);
  }

  lemma ByteParts(p: Sextet, q: Sextet, r: Sextet, s: Sextet) returns (q1: nat, q0: nat, r1: nat, r0: nat)
    ensures q == q1 * 16 + q0 && q0 < 16 && r == r1 * 4 + r0 && r1 < 16 && r0 < 4
    ensures B0(p, q) as int == p * 4 + q1 && B1(q, r) as int == q0 * 16 + r1 && B2(r, s) as int == r0 * 64 + s
  {
    q1, q0, r1, r0 := q / 16, q % 16, r / 4, r % 4;
  }

  lemma SameNumber(p: int, q: int, q1: int, q0: int, r: int, r1: int, r0: int, s: int)
    requires q == q1 * 16 + q0 && r == r1 * 4 + r0
    ensures (p * 4 + q1) * 0x10000 + (q0 * 16 + r1) * 0x100 + (r0 * 64 + s)
            == p * 0x40000 + q * 0x1000 + r * 0x40 + s
  {
  }

  function Padding(t: string): nat {
    if |t| >= 2 && t[|t| - 2] == '=' then 2 else if |t| >= 1 && t[|t| - 1] == '=' then 1 else 0
  }

  /** Byte i of the key is the i-th byte of the digits' bits, three to a group; padding and unused
      bits are left away. */
  lemma {:induction false} DecodedBytes(t: string, k: seq<Byte>, i: nat)
    requires DecodeGroups(t) == Some(k)
    ensures |t| % 4 == 0 && |k| == |t| / 4 * 3 - Padding(t)
    ensures i < |k| ==> 4 * (i / 3) + 4 <= |t| && k[i] as int == ByteOf(GroupBits(t, i / 3), i % 3)
  {
    hide Value, B0, B1, B2, ByteOf, DigitBits, GroupBits, DecodeGroups;
    if |t| > 4 {
      DecodeRest(t);
      var rest := DecodeGroups(t[4..]).value;
      DecodedBytes(t[4..], rest, if i < 3 then 0 else i - 3);
      assert Padding(t[4..]) == Padding(t);
      FirstGroup(t);
      if 3 <= i < |k| {
        assert k[i] == rest[i - 3];
        ShiftedGroup(t, i / 3);
      }
    } else {
      LastGroup(t, k);
    }
  }

  lemma FirstGroup(t: string)
    requires |t| >= 4
    ensures
      var p, q, r, s := DigitBits(t[0]), DigitBits(t[1]), DigitBits(t[2]), DigitBits(t[3]);
      && B0(p, q) as int == ByteOf(GroupBits(t, 0), 0)
      && B1(q, r) as int == ByteOf(GroupBits(t, 0), 1)
      && B2(r, s) as int == ByteOf(GroupBits(t, 0), 2)
  {
    BytesAreBits(DigitBits(t[0]), DigitBits(t[1]), DigitBits(t[2]), DigitBits(t[3]));
    hide DigitBits, B0, B1, B2, ByteOf;
  }

  lemma ShiftedGroup(t: string, g: nat)
    requires 1 <= g && 4 * g + 4 <= |t|
    ensures GroupBits(t, g) == GroupBits(t[4..], g - 1)
  {
  }

  /** A text of one group, padded or not, or none. */
  lemma LastGroup(t: string, k: seq<Byte>)
    requires |t| <= 4 && DecodeGroups(t) == Some(k)
    ensures |t| % 4 == 0 && |k| == |t| / 4 * 3 - Padding(t)
    ensures forall i | 0 <= i < |k| :: k[i] as int == ByteOf(GroupBits(t, 0), i)
  {
    if |t| == 4 {
      AlphabetHasValues('=');
      FirstGroup(t);
      hide Value, B0, B1, B2, ByteOf, GroupBits;
      assert t[4..] == "";
    }
  }

  // ------------------------------------------------------------------ round trips

  lemma {:induction false} EncodeThenDecode(k: seq<Byte>)
    ensures DecodeGroups(Encode(k)) == Some(k)
  {
    if |k| == 1 {
      OneByte(k[0]);
      assert k == [k[0]];
    } else if |k| == 2 {
      TwoBytes(k[0], k[1]);
      assert k == [k[0], k[1]];
    } else if |k| > 2 {
      EncodeThenDecode(k[3..]);
      ThreeBytes(k);
    }
  }

  lemma OneByte(a: Byte)
    ensures DecodeGroups(Encode([a])) == Some([a])
  {
    hide Digit, Value, D0, D1, D2, D3, B0, B1, B2, IsSpace;
    BytesToDigits(a, 0, 0);
    DigitValue(D0(a)); DigitValue(D1(a, 0));
    var t := [Digit(D0(a)), Digit(D1(a, 0)), '=', '='];
    assert Encode([a]) == t;
    hide Encode;
    assert DecodeGroups(t) == Some([a]);
  }

  lemma TwoBytes(a: Byte, b: Byte)
    ensures DecodeGroups(Encode([a, b])) == Some([a, b])
  {
    hide Digit, Value, D0, D1, D2, D3, B0, B1, B2, IsSpace;
    BytesToDigits(a, b, 0);
    DigitValue(D0(a)); DigitValue(D1(a, b)); DigitValue(D2(b, 0));
    var t := [Digit(D0(a)), Digit(D1(a, b)), Digit(D2(b, 0)), '='];
    assert Encode([a, b]) == t;
    hide Encode;
    assert DecodeGroups(t) == Some([a, b]);
  }

  lemma ThreeBytes(k: seq<Byte>)
    requires |k| > 2 && DecodeGroups(Encode(k[3..])) == Some(k[3..])
    ensures DecodeGroups(Encode(k)) == Some(k)
  {
    hide Digit, Value, D0, D1, D2, D3, B0, B1, B2, IsSpace;
    var a, b, c := k[0], k[1], k[2];
    BytesToDigits(a, b, c);
    DigitValue(D0(a)); DigitValue(D1(a, b)); DigitValue(D2(b, c)); DigitValue(D3(c));
    var t := Encode(k);
    assert t == [Digit(D0(a)), Digit(D1(a, b)), Digit(D2(b, c)), Digit(D3(c))] + Encode(k[3..]);
    hide Encode, DecodeGroups;
    DecodeFullGroup(t, k[3..]);
    assert k == [a, b, c] + k[3..];
  }

  lemma DecodeFullGroup(t: string, rest: seq<Byte>)
    requires |t| >= 4 && t[4..] == Encode(rest) && DecodeGroups(Encode(rest)) == Some(rest)
    requires forall i | 0 <= i < 4 :: Value(t[i]).Some? && t[i] != '='
    ensures
      var p, q, r, s := Value(t[0]).value, Value(t[1]).value, Value(t[2]).value, Value(t[3]).value;
      DecodeGroups(t) == Some([B0(p, q), B1(q, r), B2(r, s)] + rest)
  {
    hide Value, B0, B1, B2, Encode;
  }

  lemma {:induction false} EncodingHasNoBreaks(k: seq<Byte>)
    ensures WithoutBreaks(Encode(k)) == Encode(k)
  {
    if k != [] {
      hide Digit, Value, D0, D1, D2, D3, IsSpace, WithoutBreaks;
      var b := if |k| > 1 then k[1] else 0;
      var c := if |k| > 2 then k[2] else 0;
      DigitValue(D0(k[0])); DigitValue(D1(k[0], b)); DigitValue(D2(b, c)); DigitValue(D3(c));
      var e := Encode(k);
      var rest := if |k| > 2 then Encode(k[3..]) else "";
      if |k| > 2 {
        EncodingHasNoBreaks(k[3..]);
      } else {
        NoBreaksInNothing();
      }
      FourThenRest(e, rest);
    }
  }

  lemma NoBreaksInNothing()
    ensures WithoutBreaks("") == ""
  {
  }

  lemma FourThenRest(e: string, rest: string)
    requires |e| >= 4 && e[4..] == rest && WithoutBreaks(rest) == rest
    requires forall i | 0 <= i < 4 :: e[i] !in {'\r', '\n'}
    ensures WithoutBreaks(e) == e
  {
    assert e[1..][1..] == e[2..] && e[2..][1..] == e[3..] && e[3..][1..] == e[4..];
    assert WithoutBreaks(e[3..]) == e[3..];
    assert WithoutBreaks(e[2..]) == e[2..];
    assert WithoutBreaks(e[1..]) == e[1..];
  }

  /** The bits of the last digit that carry no data are zero. */
  predicate ZeroTail(t: string) {
    |t| >= 4 ==>
      && (t[|t| - 1] == '=' && t[|t| - 2] == '=' && Value(t[|t| - 3]).Some? ==> Value(t[|t| - 3]).value % 16 == 0)
      && (t[|t| - 1] == '=' && Value(t[|t| - 2]).Some? ==> Value(t[|t| - 2]).value % 4 == 0)
  }

  /** Re-encoding a decoded text gives it back exactly when its unused bits are zero. */
  lemma {:induction false} DecodeThenEncodeIff(t: string, k: seq<Byte>)
    requires DecodeGroups(t) == Some(k)
    ensures Encode(k) == t <==> ZeroTail(t)
  {
    hide Digit, Value, D0, D1, D2, D3, B0, B1, B2;
    if t != [] {
      if Value(t[2]).None? {
        OnePadded(t);
      } else if Value(t[3]).None? {
        TwoPadded(t);
      } else {
        ThreeBack(t, k);
        DecodeThenEncodeIff(t[4..], k[3..]);
        ZeroTailOfRest(t);
        assert t == t[..4] + t[4..];
      }
    }
  }

  lemma OnePadded(t: string)
    requires |t| == 4 && Value(t[0]).Some? && Value(t[1]).Some? && t[2] == t[3] == '='
    ensures Encode([B0(Value(t[0]).value, Value(t[1]).value)]) == t <==> ZeroTail(t)
  {
    hide Digit, Value, D0, D1, D2, D3, B0, B1, B2, ZeroTail;
    var p, q := Value(t[0]).value, Value(t[1]).value;
    ValueDigit(t[0]); ValueDigit(t[1]);
    DigitsToBytes(p, q, 0, 0);
    var d := D1(B0(p, q), 0);
    DigitInjective(d, q);
    var e := Encode([B0(p, q)]);
    assert e == [t[0], Digit(d), '=', '='];
    assert e == t <==> d == q;
    OnePaddedTail(t);
  }

  lemma OnePaddedTail(t: string)
    requires |t| == 4 && Value(t[1]).Some? && t[2] == t[3] == '='
    ensures ZeroTail(t) <==> Value(t[1]).value % 16 == 0
  {
  }

  lemma TwoPadded(t: string)
    requires |t| == 4 && Value(t[0]).Some? && Value(t[1]).Some? && Value(t[2]).Some? && t[3] == '='
    ensures
      var p, q, r := Value(t[0]).value, Value(t[1]).value, Value(t[2]).value;
      Encode([B0(p, q), B1(q, r)]) == t <==> ZeroTail(t)
  {
    var p, q, r := Value(t[0]).value, Value(t[1]).value, Value(t[2]).value;
    assert Value('=').None?;
    hide Digit, Value, D0, D1, D2, D3, B0, B1, B2;
    ValueDigit(t[0]); ValueDigit(t[1]); ValueDigit(t[2]);
    DigitsToBytes(p, q, r, 0);
    var e := Encode([B0(p, q), B1(q, r)]);
    assert e == [t[0], t[1], Digit(D2(B1(q, r), 0)), '='];
    DigitInjective(D2(B1(q, r), 0), r);
    assert e == t <==> e[2] == t[2];
  }

  lemma DigitInjective(m: Sextet, n: Sextet)
    ensures Digit(m) == Digit(n) <==> m == n
  {
    DigitValue(m);
    DigitValue(n);
  }

  lemma ThreeBack(t: string, k: seq<Byte>)
    requires |t| >= 4 && DecodeGroups(t) == Some(k) && forall i | 0 <= i < 4 :: Value(t[i]).Some?
    ensures |k| > 2 && DecodeGroups(t[4..]) == Some(k[3..])
    ensures Encode(k) == t[..4] + Encode(k[3..])
  {
    var p, q, r, s := Value(t[0]).value, Value(t[1]).value, Value(t[2]).value, Value(t[3]).value;
    assert Value('=').None?;
    hide Digit, Value, D0, D1, D2, D3, B0, B1, B2;
    ValueDigit(t[0]); ValueDigit(t[1]); ValueDigit(t[2]); ValueDigit(t[3]);
    DigitsToBytes(p, q, r, s);
    var rest := DecodeGroups(t[4..]);
    assert k == [B0(p, q), B1(q, r), B2(r, s)] + rest.value;
    assert k[3..] == rest.value;
    assert t[..4] == [t[0], t[1], t[2], t[3]];
  }

  lemma ZeroTailOfRest(t: string)
    requires |t| >= 4 && Value(t[3]).Some? && DecodeGroups(t[4..]).Some?
    ensures ZeroTail(t) <==> ZeroTail(t[4..])
  {
  }

  /** A text is the canonical encoding of what it decodes to exactly when it has no line breaks and
      no stray bits. */
  lemma CanonicalTextIff(s: string, k: seq<Byte>)
    requires DecodeString(s) == Some(k)
    ensures Encode(k) == s <==> WithoutBreaks(s) == s && ZeroTail(s)
  {
    EncodingHasNoBreaks(k);
    DecodeThenEncodeIff(WithoutBreaks(s), k);
  }
}
