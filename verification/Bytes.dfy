/** Texts as bytes: UTF-8 (RFC 3629), which Go's strings are made of and which sorting compares. */
module Bytes {
  import opened Text

  newtype Byte = b: int | 0 <= b < 256

  function Utf8Char(c: char): (r: seq<Byte>)
    ensures 1 <= |r| <= 4
  {
    var n := c as int;
    if n < 0x80 then [n as Byte]
    else if n < 0x800 then [(0xC0 + n / 0x40) as Byte, (0x80 + n % 0x40) as Byte]
    else if n < 0x10000 then
      [(0xE0 + n / 0x1000) as Byte, (0x80 + n / 0x40 % 0x40) as Byte, (0x80 + n % 0x40) as Byte]
    else
      [(0xF0 + n / 0x40000) as Byte, (0x80 + n / 0x1000 % 0x40) as Byte,
       (0x80 + n / 0x40 % 0x40) as Byte, (0x80 + n % 0x40) as Byte]
  }

  /** []byte(s) */
  function Utf8(s: string): seq<Byte> {
    if s == [] then [] else Utf8Char(s[0]) + Utf8(s[1..])
  }

  /** How many bytes the first byte of a character announces (section 3 of RFC 3629). */
  function Announced(lead: Byte): int {
    if lead < 0x80 then 1
    else if 0xC0 <= lead < 0xE0 then 2
    else if 0xE0 <= lead < 0xF0 then 3
    else if 0xF0 <= lead < 0xF8 then 4
    else 0
  }

  predicate Continuation(b: Byte) { 0x80 <= b < 0xC0 }

  /** The code point a character's bytes spell. */
  function CodePoint(bs: seq<Byte>): int
    requires 1 <= |bs| <= 4
  {
    var n := |bs|;
    if n == 1 then bs[0] as int
    else if n == 2 then (bs[0] as int - 0xC0) * 0x40 + (bs[1] as int - 0x80)
    else if n == 3 then ((bs[0] as int - 0xE0) * 0x40 + (bs[1] as int - 0x80)) * 0x40 + (bs[2] as int - 0x80)
    else
      (((bs[0] as int - 0xF0) * 0x40 + (bs[1] as int - 0x80)) * 0x40 + (bs[2] as int - 0x80)) * 0x40
      + (bs[3] as int - 0x80)
  }

  lemma Sixties(n: nat)
    ensures n == n / 0x40 * 0x40 + n % 0x40
    ensures n / 0x40 == n / 0x1000 * 0x40 + n / 0x40 % 0x40
    ensures n / 0x1000 == n / 0x40000 * 0x40 + n / 0x1000 % 0x40
  {
    var q := n / 0x40;
    assert q / 0x40 == n / 0x1000;
    var r := n / 0x1000;
    assert r / 0x40 == n / 0x40000;
  }

  /** A character's bytes spell its code point, ... */
  lemma Utf8CharSpells(c: char)
    ensures CodePoint(Utf8Char(c)) == c as int
  {
    Sixties(c as int);
  }

  /** ... announce their number, and continue properly. */
  lemma Utf8CharAnnounces(c: char)
    ensures
      var bs := Utf8Char(c);
      Announced(bs[0]) == |bs| && forall i | 1 <= i < |bs| :: Continuation(bs[i])
  {
  }

  /** The bytes of a text determine it. */
  lemma {:induction false} Utf8Injective(s: string, t: string)
    requires Utf8(s) == Utf8(t)
    ensures s == t
  {
    if s != [] && t != [] {
      var u, v := Utf8Char(s[0]), Utf8Char(t[0]);
      Utf8CharSpells(s[0]);
      Utf8CharSpells(t[0]);
      Utf8CharAnnounces(s[0]);
      Utf8CharAnnounces(t[0]);
      hide Utf8Char, Announced, CodePoint;
      assert Utf8(s)[0] == u[0] && Utf8(t)[0] == v[0];
      assert u == Utf8(s)[..|u|] && v == Utf8(t)[..|v|];
      assert Utf8(s)[|u|..] == Utf8(s[1..]) && Utf8(t)[|v|..] == Utf8(t[1..]);
      Utf8Injective(s[1..], t[1..]);
      assert s == [s[0]] + s[1..] && t == [t[0]] + t[1..];
    }
  }

  /** On ASCII every character is one byte, its code. */
  lemma {:induction false} Utf8Ascii(s: string)
    requires forall i | 0 <= i < |s| :: s[i] as int < 0x80
    ensures |Utf8(s)| == |s| && forall i | 0 <= i < |s| :: Utf8(s)[i] as int == s[i] as int
  {
    if s != [] {
      Utf8Ascii(s[1..]);
      assert Utf8(s) == [s[0] as int as Byte] + Utf8(s[1..]);
    }
  }

  lemma {:induction false} Utf8AtLeastOneByteEach(s: string)
    ensures |Utf8(s)| >= |s|
  {
    if s != [] {
      Utf8AtLeastOneByteEach(s[1..]);
    }
  }

  // ------------------------------------------------------------------ order of bytes

  /** The first differing byte decides, and a proper prefix comes first. */
  predicate BytesLess(u: seq<Byte>, v: seq<Byte>) {
    exists n: nat | n <= |u| && n < |v| :: u[..n] == v[..n] && (n == |u| || u[n] < v[n])
  }

  lemma SixtiesOrder(m: nat, n: nat)
    requires m < n
    ensures m / 0x40 < n / 0x40 || (m / 0x40 == n / 0x40 && m % 0x40 < n % 0x40)
  {
  }

  lemma Quotients(n: nat)
    ensures n / 0x1000 == n / 0x40 / 0x40 && n / 0x40000 == n / 0x40 / 0x40 / 0x40
  {
  }

  /** u and v differ first at k, where u has the smaller byte. */
  predicate SmallerAt(u: seq<Byte>, v: seq<Byte>, k: nat) {
    k < |u| && k < |v| && u[..k] == v[..k] && u[k] < v[k]
  }

  lemma LongerIsLater(c: char, d: char)
    requires c < d && |Utf8Char(c)| != |Utf8Char(d)|
    ensures SmallerAt(Utf8Char(c), Utf8Char(d), 0)
  {
  }

  lemma TwoByteOrder(c: char, d: char)
    requires 0x80 <= c as int < d as int < 0x800
    ensures SmallerAt(Utf8Char(c), Utf8Char(d), if c as int / 0x40 < d as int / 0x40 then 0 else 1)
  {
    SixtiesOrder(c as int, d as int);
  }

  lemma ThreeByteOrder(c: char, d: char) returns (k: nat)
    requires 0x800 <= c as int < d as int < 0x10000
    ensures SmallerAt(Utf8Char(c), Utf8Char(d), k)
  {
    var m, n := c as int, d as int;
    Quotients(m);
    Quotients(n);
    SixtiesOrder(m, n);
    if m / 0x40 < n / 0x40 {
      SixtiesOrder(m / 0x40, n / 0x40);
    }
    k := if m / 0x1000 < n / 0x1000 then 0 else if m / 0x40 < n / 0x40 then 1 else 2;
  }

  lemma FourByteOrder(c: char, d: char) returns (k: nat)
    requires 0x10000 <= c as int < d as int
    ensures SmallerAt(Utf8Char(c), Utf8Char(d), k)
  {
    var m, n := c as int, d as int;
    Quotients(m);
    Quotients(n);
    SixtiesOrder(m, n);
    if m / 0x40 < n / 0x40 {
      SixtiesOrder(m / 0x40, n / 0x40);
      if m / 0x1000 < n / 0x1000 {
        SixtiesOrder(m / 0x1000, n / 0x1000);
      }
    }
    k := if m / 0x40000 < n / 0x40000 then 0
         else if m / 0x1000 < n / 0x1000 then 1
         else if m / 0x40 < n / 0x40 then 2
         else 3;
  }

  /** The bytes of a smaller character differ first in a smaller byte. */
  lemma CharOrder(c: char, d: char) returns (k: nat)
    requires c < d
    ensures SmallerAt(Utf8Char(c), Utf8Char(d), k)
  {
    if |Utf8Char(c)| != |Utf8Char(d)| {
      LongerIsLater(c, d);
      k := 0;
    } else if d as int < 0x80 {
      k := 0;
    } else if d as int < 0x800 {
      TwoByteOrder(c, d);
      k := if c as int / 0x40 < d as int / 0x40 then 0 else 1;
    } else if d as int < 0x10000 {
      k := ThreeByteOrder(c, d);
    } else {
      k := FourByteOrder(c, d);
    }
  }

  lemma {:induction false} Utf8Append(a: string, b: string)
    ensures Utf8(a + b) == Utf8(a) + Utf8(b)
  {
    hide Utf8Char;
    if a == [] {
      assert a + b == b;
    } else {
      Utf8Append(a[1..], b);
      assert (a + b)[1..] == a[1..] + b;
      assert (a + b)[0] == a[0];
    }
  }

  lemma Utf8Cons(s: string)
    requires s != []
    ensures Utf8(s) == Utf8Char(s[0]) + Utf8(s[1..])
  {
  }

  /** Comparing texts by code point is comparing their bytes. */
  lemma LessIsBytesLess(a: string, b: string)
    requires Less(a, b)
    ensures BytesLess(Utf8(a), Utf8(b))
  {
    hide Less, Utf8Char, Utf8, BytesLess;
    LessIff(a, b);
    var n: nat :| n <= |a| && n < |b| && a[..n] == b[..n] && (n == |a| || a[n] < b[n]);
    var p := Utf8(a[..n]);
    Utf8Append(a[..n], a[n..]);
    Utf8Append(b[..n], b[n..]);
    assert a == a[..n] + a[n..] && b == b[..n] + b[n..];
    Utf8Cons(b[n..]);
    if n == |a| {
      assert a[..n] == a;
      PrefixFirst(p, Utf8Char(b[n]) + Utf8(b[n..][1..]));
    } else {
      Utf8Cons(a[n..]);
      var k := CharOrder(a[n], b[n]);
      DifferAt(p, Utf8Char(a[n]), Utf8(a[n..][1..]), Utf8Char(b[n]), Utf8(b[n..][1..]), k);
    }
  }

  lemma PrefixFirst(p: seq<Byte>, s: seq<Byte>)
    requires s != []
    ensures BytesLess(p, p + s)
  {
    assert p[..|p|] == (p + s)[..|p|];
  }

  lemma DifferAt(p: seq<Byte>, x: seq<Byte>, s: seq<Byte>, y: seq<Byte>, t: seq<Byte>, k: nat)
    requires SmallerAt(x, y, k)
    ensures BytesLess(p + (x + s), p + (y + t))
  {
    var u, v, n := p + (x + s), p + (y + t), |p| + k;
    assert u[..n] == p + x[..k] && v[..n] == p + y[..k];
  }

  /** ... and conversely, so that sorting by one is sorting by the other. */
  lemma LessIffBytesLess(a: string, b: string)
    ensures Less(a, b) <==> BytesLess(Utf8(a), Utf8(b))
  {
    hide Less, Utf8, BytesLess;
    if Less(a, b) {
      LessIsBytesLess(a, b);
    } else {
      LessTotal(a, b);
      if a == b {
        BytesLessIrreflexive(Utf8(a));
      } else {
        LessIsBytesLess(b, a);
        BytesLessAsymmetric(Utf8(b), Utf8(a));
      }
    }
  }

  lemma BytesLessIrreflexive(u: seq<Byte>)
    ensures !BytesLess(u, u)
  {
  }

  lemma BytesLessAsymmetric(u: seq<Byte>, v: seq<Byte>)
    requires BytesLess(u, v)
    ensures !BytesLess(v, u)
  {
    var m: nat :| m <= |u| && m < |v| && u[..m] == v[..m] && (m == |u| || u[m] < v[m]);
    forall n: nat | n <= |v| && n < |u| && v[..n] == u[..n] ensures !(n == |v| || v[n] < u[n]) {
      FirstDifference(u, v, m, n);
    }
  }

  lemma FirstDifference(u: seq<Byte>, v: seq<Byte>, m: nat, n: nat)
    requires m <= |u| && m < |v| && u[..m] == v[..m] && (m == |u| || u[m] < v[m])
    requires n <= |v| && n < |u| && v[..n] == u[..n]
    ensures n < |v| && u[n] <= v[n]
  {
    if n < m {
      assert u[n] == u[..m][n] == v[..m][n] == v[n];
    }
  }
}
