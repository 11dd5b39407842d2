/** Webhook signing secrets: "whsec_" followed by standard padded base64, or a legacy secret taken
    literally. */
module WebhookSecret {
  import opened Text
  import opened Bytes
  import opened Base64

  datatype SecretError = Required | Invalid

  const PREFIX := "whsec_"

  /** The HMAC key: decoded bytes for prefixed secrets, the text itself for legacy ones. */
  function Decode(value: string): Result<seq<Byte>, SecretError> {
    var v := TrimSpace(value);
    if v == "" then Err(Required)
    else if PREFIX <= v then
      var key := DecodeString(v[|PREFIX|..]);
      if key.None? || key.value == [] then Err(Invalid) else Ok(key.value)
    else Ok(Utf8(v))
  }

  /** The secret is missing exactly when there is nothing but white space. */
  lemma RequiredIff(value: string)
    ensures Decode(value) == Err(Required) <==> forall i | 0 <= i < |value| :: IsSpace(value[i])
  {
    hide TrimSpace, DecodeString, Utf8, IsSpace;
    TrimSpaceEmptyIff(value);
  }

  /** What is to be decoded of a prefixed secret. */
  function Encoded(v: string): string
    requires "whsec_" <= v
  {
    WithoutBreaks(v[6..])
  }

  lemma {:induction false} EmptyKeyIff(t: string)
    requires DecodeGroups(t).Some?
    ensures DecodeGroups(t).value == [] <==> t == ""
  {
  }

  /** A prefixed secret is invalid exactly when what follows the prefix is, line breaks aside, empty
      or not base64; it is never taken literally instead. */
  lemma InvalidIff(value: string)
    ensures
      var v := TrimSpace(value);
      Decode(value) == Err(Invalid) <==> "whsec_" <= v && (Encoded(v) == "" || !Padded(Encoded(v)))
  {
    hide TrimSpace, WithoutBreaks, DecodeGroups, Padded, Utf8;
    var v := TrimSpace(value);
    if "whsec_" <= v {
      DecodesIffPadded(Encoded(v));
      if DecodeGroups(Encoded(v)).Some? {
        EmptyKeyIff(Encoded(v));
      }
    }
  }

  /** A valid prefixed secret yields the bytes its digits spell. */
  lemma PrefixedKey(value: string, i: nat)
    requires "whsec_" <= TrimSpace(value) && Decode(value).Ok?
    ensures
      var t, k := Encoded(TrimSpace(value)), Decode(value).value;
      && |t| % 4 == 0 && |k| == |t| / 4 * 3 - Padding(t) && k != []
      && (i < |k| ==> 4 * (i / 3) + 4 <= |t| && k[i] as int == ByteOf(GroupBits(t, i / 3), i % 3))
  {
    hide TrimSpace, WithoutBreaks, DecodeGroups, GroupBits, ByteOf, Utf8, Padding;
    DecodedBytes(Encoded(TrimSpace(value)), Decode(value).value, i);
  }

  /** A secret without the prefix is taken literally: its key is its trimmed text in UTF-8, which on
      ASCII is one byte per character. */
  lemma LegacyKey(value: string)
    requires TrimSpace(value) != "" && !("whsec_" <= TrimSpace(value))
    ensures Decode(value) == Ok(Utf8(TrimSpace(value)))
    ensures
      var v := TrimSpace(value);
      (forall i | 0 <= i < |v| :: v[i] as int < 0x80) ==>
        && Decode(value).Ok? && |Decode(value).value| == |v|
        && forall i | 0 <= i < |v| :: Decode(value).value[i] as int == v[i] as int
  {
    hide TrimSpace, Utf8, DecodeString;
    var v := TrimSpace(value);
    if forall i | 0 <= i < |v| :: v[i] as int < 0x80 {
      Utf8Ascii(v);
    }
  }

  /** Legacy secrets that differ in more than surrounding white space have different keys. */
  lemma DistinctLegacyKeys(value: string, other: string)
    requires TrimSpace(value) != "" && !("whsec_" <= TrimSpace(value))
    requires TrimSpace(other) != "" && !("whsec_" <= TrimSpace(other))
    ensures Decode(value) == Decode(other) <==> TrimSpace(value) == TrimSpace(other)
  {
    hide TrimSpace, Utf8, Decode;
    LegacyKey(value);
    LegacyKey(other);
    if Decode(value) == Decode(other) {
      Utf8Injective(TrimSpace(value), TrimSpace(other));
    }
  }

  /** A key encoded the standard way is recovered exactly, whatever white space surrounds it. */
  lemma SecretRoundTrip(k: seq<Byte>, left: string, right: string)
    requires k != [] && Blank(left) && Blank(right)
    ensures Decode(left + ("whsec_" + Encode(k)) + right) == Ok(k)
  {
    hide TrimSpace, Decode, Encode, IsSpace;
    var v := "whsec_" + Encode(k);
    assert !IsSpace(v[0]) by { NoSpaces(); }
    assert !IsSpace(v[|v| - 1]) by { LastIsNoSpace(k); }
    TrimSpaceOf(left, v, right);
    TrimmedRoundTrip(k, left + v + right);
  }

  lemma TrimmedRoundTrip(k: seq<Byte>, value: string)
    requires k != [] && TrimSpace(value) == PREFIX + Encode(k)
    ensures Decode(value) == Ok(k)
  {
    EncodeThenDecode(k);
    EncodingHasNoBreaks(k);
    PrefixedSecret(value, Encode(k), k);
  }

  lemma PrefixedSecret(value: string, t: string, k: seq<Byte>)
    requires TrimSpace(value) == PREFIX + t && k != []
    requires WithoutBreaks(t) == t && DecodeGroups(t) == Some(k)
    ensures Decode(value) == Ok(k)
  {
    hide TrimSpace, DecodeGroups, WithoutBreaks, Utf8;
    assert (PREFIX + t)[|PREFIX|..] == t;
  }

  /** The encoded secret itself needs no trimming. */
  lemma EncodedSecretIsTrimmed(k: seq<Byte>)
    requires k != []
    ensures TrimSpace(PREFIX + Encode(k)) == PREFIX + Encode(k)
    ensures Decode(PREFIX + Encode(k)) == Ok(k)
  {
    hide TrimSpace, Decode, Encode, IsSpace;
    var v := PREFIX + Encode(k);
    assert !IsSpace(v[0]) by { NoSpaces(); }
    assert !IsSpace(v[|v| - 1]) by { LastIsNoSpace(k); }
    TrimSpaceIdentity(v);
    TrimmedRoundTrip(k, v);
  }

  lemma {:induction false} LastIsNoSpace(k: seq<Byte>)
    requires k != []
    ensures Encode(k) != "" && !IsSpace(Encode(k)[|Encode(k)| - 1])
  {
    if |k| == 3 {
      DigitValue(D3(k[2]));
      assert Encode(k[3..]) == "";
    } else if |k| > 3 {
      LastIsNoSpace(k[3..]);
    }
  }

  /** Distinct keys never share a canonically encoded secret. */
  lemma DistinctKeysDistinctSecrets(k: seq<Byte>, l: seq<Byte>)
    requires Encode(k) == Encode(l)
    ensures k == l
  {
    EncodeThenDecode(k);
    EncodeThenDecode(l);
  }

  /** The converse fails: decoding ignores unused bits, so two texts can carry the same key. */
  lemma TwoTextsOneKey()
    ensures Decode(PREFIX + "AA==") == Decode(PREFIX + "AB==") == Ok([0])
  {
    PaddedSecret('A');
    PaddedSecret('B');
  }

  lemma PaddedSecret(c: char)
    requires c == 'A' || c == 'B'
    ensures Decode(PREFIX + ['A', c, '=', '=']) == Ok([0])
  {
    hide IsSpace, TrimSpace, WithoutBreaks, DecodeGroups, Decode;
    var t := ['A', c, '=', '='];
    NoSpaces();
    TrimSpaceIdentity(PREFIX + t);
    NoBreaksInNothing();
    FourThenRest(t, "");
    PaddedGroup(c);
    PrefixedSecret(PREFIX + t, t, [0]);
  }

  lemma PaddedGroup(c: char)
    requires c == 'A' || c == 'B'
    ensures DecodeGroups(['A', c, '=', '=']) == Some([0])
  {
  }

  lemma NoSpaces()
    ensures !IsSpace('w') && !IsSpace('=')
  {
  }
}
