/**
 uri_encode: percent-encoding of RFC 3986 (section 2.1) with the unreserved set of
 section 2.3, and its reader.
 */
module UriCodec {
  import opened Basics

  type Byte = b: int | 0 <= b < 256

  /** ALPHA, DIGIT, "-", ".", "_" and "~" (RFC 3986, section 2.3). */
  predicate Unreserved(b: Byte) {
    || 0x41 <= b <= 0x5A
    || 0x61 <= b <= 0x7A
    || 0x30 <= b <= 0x39
    || b in {0x2D, 0x2E, 0x5F, 0x7E}
  }

  function UpperHex(n: nat): char
    requires n < 16
  {
    if n < 10 then (0x30 + n) as char else (0x41 + n - 10) as char
  }

  function Escape(b: Byte): string { ['%', UpperHex(b / 16), UpperHex(b % 16)] }

  function EncodeByte(b: Byte): string {
    if Unreserved(b) then [b as char] else Escape(b)
  }

  function Encode(bytes: seq<Byte>): string {
    if bytes == [] then "" else EncodeByte(bytes[0]) + Encode(bytes[1..])
  }

  /** Letters, digits and four marks are written as they are, any other byte as two upper-case digits. */
  lemma EncodesOneByte(b: Byte)
    ensures Encode([b]) == [b as char] <==>
            (|| 'A' <= b as char <= 'Z' || 'a' <= b as char <= 'z' || '0' <= b as char <= '9'
             || b as char in "-._~")
    ensures Encode([b]) == [b as char] || Encode([b]) ==
            ['%', "0123456789ABCDEF"[b / 16], "0123456789ABCDEF"[b % 16]]
  {
    assert [b][1..] == [] && Encode([b]) == EncodeByte(b);
  }

  lemma {:induction false} EncodeAppend(a: seq<Byte>, b: seq<Byte>)
    ensures Encode(a + b) == Encode(a) + Encode(b)
  {
    if a == [] {
      assert a + b == b;
    } else {
      assert (a + b)[1..] == a[1..] + b;
      EncodeAppend(a[1..], b);
    }
  }

  /** The loop of uri_encode over input.bytes(), one push per character. */
  method UriEncode(input: seq<Byte>) returns (result: string)
    ensures result == Encode(input)
    ensures |input| <= |result| <= 3 * |input|
  {
    result := "";
    for i := 0 to |input|
      invariant result == Encode(input[..i])
    {
      var byte := input[i];
      assert input[..i + 1] == input[..i] + [byte];
      EncodeAppend(input[..i], [byte]);
      assert Encode([byte]) == EncodeByte(byte);
      if Unreserved(byte) {
        result := result + [byte as char];
      } else {
        result := result + ['%'];
        result := result + [UpperHex(byte / 16)];
        result := result + [UpperHex(byte % 16)];
      }
    }
    assert input[..|input|] == input;
    EncodeLength(input);
  }

  lemma {:induction false} EncodeLength(bytes: seq<Byte>)
    ensures |bytes| <= |Encode(bytes)| <= 3 * |bytes|
  {
    if bytes != [] {
      EncodeLength(bytes[1..]);
    }
  }

  // ------------------------------------------------------------------- the reader

  /** Hexadecimal digits of either case (RFC 3986, section 6.2.2.1). */
  function HexValue(c: char): Option<nat> {
    if '0' <= c <= '9' then Some(c as int - 0x30)
    else if 'A' <= c <= 'F' then Some(c as int - 0x41 + 10)
    else if 'a' <= c <= 'f' then Some(c as int - 0x61 + 10)
    else None
  }

  function Decode(s: string): Option<seq<Byte>> {
    if s == "" then Some([])
    else if s[0] == '%' then
      if |s| < 3 || HexValue(s[1]).None? || HexValue(s[2]).None? then None
      else
        var b: int := 16 * HexValue(s[1]).value + HexValue(s[2]).value;
        match Decode(s[3..])
        case None => None
        case Some(rest) => if 0 <= b < 256 then Some([b] + rest) else None
    else if s[0] as int >= 128 then None
    else
      match Decode(s[1..])
      case None => None
      case Some(rest) => Some([s[0] as int] + rest)
  }

  lemma DecodeByte(b: Byte, s: string)
    ensures Decode(EncodeByte(b) + s) ==
            match Decode(s) case None => None case Some(rest) => Some([b] + rest)
  {
    if Unreserved(b) {
      assert ([b as char] + s)[1..] == s;
    } else {
      assert (Escape(b) + s)[3..] == s;
      assert HexValue(UpperHex(b / 16)) == Some(b / 16) && HexValue(UpperHex(b % 16)) == Some(b % 16);
    }
  }

  lemma {:induction false} DecodeUndoesEncode(bytes: seq<Byte>)
    ensures Decode(Encode(bytes)) == Some(bytes)
  {
    if bytes != [] {
      DecodeUndoesEncode(bytes[1..]);
      DecodeByte(bytes[0], Encode(bytes[1..]));
      assert [bytes[0]] + bytes[1..] == bytes;
    }
  }

  // -------------------------------------------------------------- the normal form

  predicate IsUpperHex(c: char) { '0' <= c <= '9' || 'A' <= c <= 'F' }

  /**
   Normalized text (RFC 3986, sections 6.2.2.1 and 6.2.2.2): bare characters are
   unreserved, escapes are upper-case and never stand for an unreserved character.
   */
  predicate Normal(s: string) {
    s == "" ||
    (if s[0] == '%' then
       |s| >= 3 && IsUpperHex(s[1]) && IsUpperHex(s[2])
       && !Unreserved(16 * HexValue(s[1]).value + HexValue(s[2]).value)
       && Normal(s[3..])
     else s[0] as int < 128 && Unreserved(s[0] as int) && Normal(s[1..]))
  }

  lemma NormalByte(b: Byte, s: string)
    requires Normal(s)
    ensures Normal(EncodeByte(b) + s)
  {
    if Unreserved(b) {
      assert ([b as char] + s)[1..] == s;
    } else {
      assert (Escape(b) + s)[3..] == s;
      assert 16 * (b / 16) + b % 16 == b;
      assert HexValue(UpperHex(b / 16)) == Some(b / 16) && HexValue(UpperHex(b % 16)) == Some(b % 16);
    }
  }

  lemma {:induction false} EncodeIsNormal(bytes: seq<Byte>)
    ensures Normal(Encode(bytes))
  {
    if bytes != [] {
      EncodeIsNormal(bytes[1..]);
      NormalByte(bytes[0], Encode(bytes[1..]));
    }
  }

  lemma UpperHexBack(c: char)
    requires IsUpperHex(c)
    ensures UpperHex(HexValue(c).value) == c && HexValue(c).value < 16
  {
  }

  lemma {:induction false} NormalIsEncoded(s: string) returns (bytes: seq<Byte>)
    requires Normal(s)
    ensures Encode(bytes) == s
  {
    if s == "" {
      bytes := [];
    } else if s[0] == '%' {
      var rest := NormalIsEncoded(s[3..]);
      UpperHexBack(s[1]);
      UpperHexBack(s[2]);
      var b: Byte := 16 * HexValue(s[1]).value + HexValue(s[2]).value;
      bytes := [b] + rest;
      assert bytes[1..] == rest && s == Escape(b) + s[3..];
    } else {
      var rest := NormalIsEncoded(s[1..]);
      bytes := [s[0] as int] + rest;
      assert bytes[1..] == rest && s == [s[0]] + s[1..];
    }
  }

  /** The texts uri_encode can produce are exactly the normalized ones. */
  lemma ImageIsNormalForm(s: string)
    ensures Normal(s) <==> exists bytes :: Encode(bytes) == s
  {
    if Normal(s) {
      var bytes := NormalIsEncoded(s);
    }
    if bytes :| Encode(bytes) == s {
      EncodeIsNormal(bytes);
    }
  }

  /** Of all percent-encodings of the same bytes, uri_encode writes the one normalized text. */
  lemma {:induction false} EncodeIsTheCanonicalText(s: string)
    requires Decode(s).Some?
    ensures Encode(Decode(s).value) == s <==> Normal(s)
  {
    if Normal(s) {
      var bytes := NormalIsEncoded(s);
      DecodeUndoesEncode(bytes);
    }
    EncodeIsNormal(Decode(s).value);
  }

  /** Nothing that has a meaning in a URI other than '%' is ever written. */
  lemma {:induction false} EncodedHasNoDelimiter(bytes: seq<Byte>, c: char)
    requires c in "?&=@/#:"
    ensures c !in Encode(bytes)
  {
    if bytes != [] {
      EncodedHasNoDelimiter(bytes[1..], c);
    }
  }
}
