/** Percent-encoding of strings as the relay produces it: `encodeURIComponent`
    (ECMA-262, over the unreserved set of section 2.3 of RFC 3986 extended by
    `!~*'()`) for the deep link, and the application/x-www-form-urlencoded
    serializer of the WHATWG URL Standard for the token request body. Both
    write each character as its UTF-8 bytes in `%XX` form unless the
    character is in their unescaped set. `Decode` is the inverse used to state
    what the encodings preserve. */
module PercentEncoding {
  import opened JsValues

  type byte = b: int | 0 <= b < 256

  /** Which of the two encoders. */
  datatype Flavor = Component | Form

  predicate IsAsciiAlphanumeric(c: char)
  {
    ('a' <= c <= 'z') || ('A' <= c <= 'Z') || ('0' <= c <= '9')
  }

  /** The characters an encoder writes as themselves. */
  predicate Unescaped(flavor: Flavor, c: char)
  {
    IsAsciiAlphanumeric(c) ||
    match flavor
    case Component => c == '-' || c == '_' || c == '.' || c == '!' || c == '~' || c == '*' || c == '\'' || c == '(' || c == ')'
    case Form => c == '*' || c == '-' || c == '.' || c == '_'
  }

  /** The UTF-8 encoding of a Unicode scalar value (section 3 of RFC 3629). */
  function Utf8(c: char): (bytes: seq<byte>)
    ensures 1 <= |bytes| <= 4
  {
    var n := c as int;
    var q1 := n / 64;
    var q2 := q1 / 64;
    if n < 0x80 then [n]
    else if n < 0x800 then [0xC0 + q1, 0x80 + n % 64]
    else if n < 0x10000 then [0xE0 + q2, 0x80 + q1 % 64, 0x80 + n % 64]
    else [0xF0 + q2 / 64, 0x80 + q2 % 64, 0x80 + q1 % 64, 0x80 + n % 64]
  }

  /** An upper-case hexadecimal digit, as both encoders write them. */
  function HexDigit(d: int): char
    requires 0 <= d < 16
  {
    if d < 10 then ('0' as int + d) as char else ('A' as int + d - 10) as char
  }

  function PercentByte(b: byte): string
  {
    ['%', HexDigit(b / 16), HexDigit(b % 16)]
  }

  function PercentBytes(bytes: seq<byte>): (s: string)
    ensures |s| == 3 * |bytes|
    ensures forall i :: 0 <= i < |s| ==> s[i] == '%' || IsAsciiAlphanumeric(s[i])
  {
    if bytes == [] then [] else PercentByte(bytes[0]) + PercentBytes(bytes[1..])
  }

  function EncodeChar(flavor: Flavor, c: char): string
  {
    if Unescaped(flavor, c) then [c]
    else if flavor == Form && c == ' ' then "+"
    else PercentBytes(Utf8(c))
  }

  /** The characters an encoding can contain. */
  predicate IsEncodedChar(flavor: Flavor, c: char)
  {
    Unescaped(flavor, c) || c == '%' || (flavor == Form && c == '+')
  }

  /** `encodeURIComponent(s)` (Component) or the form serializer's encoding of `s` (Form). */
  function Encode(flavor: Flavor, s: string): (r: string)
    ensures forall i :: 0 <= i < |r| ==> IsEncodedChar(flavor, r[i])
  {
    if s == [] then [] else EncodeChar(flavor, s[0]) + Encode(flavor, s[1..])
  }

  lemma EncodedCharIsNotDelimiter(flavor: Flavor, c: char)
    requires IsEncodedChar(flavor, c)
    ensures c != '&' && c != '=' && c != '#' && c != '?' && c != '/'
  {
  }

  /** An encoding never contains the delimiters of a query or a fragment. */
  lemma EncodeHasNoDelimiters(flavor: Flavor, s: string)
    ensures '&' !in Encode(flavor, s) && '=' !in Encode(flavor, s) && '#' !in Encode(flavor, s)
    ensures '?' !in Encode(flavor, s) && '/' !in Encode(flavor, s)
  {
    var r := Encode(flavor, s);
    forall i | 0 <= i < |r| ensures r[i] != '&' && r[i] != '=' && r[i] != '#' && r[i] != '?' && r[i] != '/' {
      EncodedCharIsNotDelimiter(flavor, r[i]);
    }
  }

  /** A string made only of unescaped characters encodes to itself. */
  lemma {:induction false} EncodeUnescaped(flavor: Flavor, s: string)
    requires forall i :: 0 <= i < |s| ==> Unescaped(flavor, s[i])
    ensures Encode(flavor, s) == s
  {
    if s != [] {
      EncodeUnescaped(flavor, s[1..]);
    }
  }

  // ---------------------------------------------------------------------
  // The inverse: a strict decoder in the manner of `decodeURIComponent`.

  function HexValue(c: char): (r: Option<int>)
    ensures r.Some? ==> 0 <= r.value < 16
  {
    if '0' <= c <= '9' then Some(c as int - '0' as int)
    else if 'A' <= c <= 'F' then Some(c as int - 'A' as int + 10)
    else if 'a' <= c <= 'f' then Some(c as int - 'a' as int + 10)
    else None
  }

  /** The byte written as `%XX` at the start of `s`. */
  function ReadByte(s: string): (r: Option<byte>)
    ensures r.Some? ==> |s| >= 3
  {
    if |s| < 3 || s[0] != '%' then None
    else match (HexValue(s[1]), HexValue(s[2]))
      case (Some(hi), Some(lo)) => Some(16 * hi + lo)
      case _ => None
  }

  /** `count` bytes written as consecutive `%XX` at the start of `s`. */
  function ReadBytes(s: string, count: nat): (r: Option<seq<byte>>)
    ensures r.Some? ==> |r.value| == count && 3 * count <= |s|
  {
    if count == 0 then Some([])
    else match ReadByte(s)
      case None => None
      case Some(b) =>
        match ReadBytes(s[3..], count - 1)
        case None => None
        case Some(bs) => Some([b] + bs)
  }

  /** How many bytes a UTF-8 sequence with this lead byte has (0: not a lead byte). */
  function SequenceLength(lead: byte): nat
  {
    if lead < 0x80 then 1
    else if 0xC0 <= lead < 0xE0 then 2
    else if 0xE0 <= lead < 0xF0 then 3
    else if 0xF0 <= lead < 0xF8 then 4
    else 0
  }

  predicate IsContinuation(b: byte)
  {
    0x80 <= b < 0xC0
  }

  /** The scalar value one well-formed UTF-8 sequence stands for (no overlong
      forms, no surrogates, nothing above U+10FFFF). */
  function Utf8Decode(bytes: seq<byte>): Option<char>
  {
    if |bytes| == 1 && bytes[0] < 0x80 then Some(bytes[0] as char)
    else if |bytes| == 2 && 0xC0 <= bytes[0] < 0xE0 && IsContinuation(bytes[1]) then
      var n := (bytes[0] as int - 0xC0) * 64 + (bytes[1] as int - 0x80);
      if 0x80 <= n then Some(n as char) else None
    else if |bytes| == 3 && 0xE0 <= bytes[0] < 0xF0 && IsContinuation(bytes[1]) && IsContinuation(bytes[2]) then
      var n := ((bytes[0] as int - 0xE0) * 64 + (bytes[1] as int - 0x80)) * 64 + (bytes[2] as int - 0x80);
      if 0x800 <= n && !(0xD800 <= n < 0xE000) then Some(n as char) else None
    else if |bytes| == 4 && 0xF0 <= bytes[0] < 0xF8 && IsContinuation(bytes[1]) && IsContinuation(bytes[2]) && IsContinuation(bytes[3]) then
      var n := (((bytes[0] as int - 0xF0) * 64 + (bytes[1] as int - 0x80)) * 64 + (bytes[2] as int - 0x80)) * 64 + (bytes[3] as int - 0x80);
      if 0x10000 <= n < 0x110000 then Some(n as char) else None
    else None
  }

  function Prepend(c: char, r: Option<string>): Option<string>
  {
    match r
    case None => None
    case Some(t) => Some([c] + t)
  }

  /** Percent-decoding: `%XX` sequences are read as UTF-8; in the Form flavour
      `+` stands for a space. Malformed input yields `None`. */
  function Decode(flavor: Flavor, s: string): Option<string>
    decreases |s|
  {
    if s == [] then Some([])
    else if s[0] == '%' then
      match ReadByte(s)
      case None => None
      case Some(lead) =>
        var count := SequenceLength(lead);
        if count == 0 then None
        else match ReadBytes(s, count)
          case None => None
          case Some(bytes) =>
            match Utf8Decode(bytes)
            case None => None
            case Some(c) => Prepend(c, Decode(flavor, s[3 * count..]))
    else if flavor == Form && s[0] == '+' then Prepend(' ', Decode(flavor, s[1..]))
    else Prepend(s[0], Decode(flavor, s[1..]))
  }

  // ---------------------------------------------------------------------
  // Round trip.

  lemma Utf8RoundTrip(c: char)
    ensures SequenceLength(Utf8(c)[0]) == |Utf8(c)|
    ensures Utf8Decode(Utf8(c)) == Some(c)
  {
    var n := c as int;
    var q1 := n / 64;
    var q2 := q1 / 64;
    assert n == 64 * q1 + n % 64;
    assert q1 == 64 * q2 + q1 % 64;
    assert q2 == 64 * (q2 / 64) + q2 % 64;
  }

  lemma ReadPercentByte(b: byte, t: string)
    ensures ReadByte(PercentByte(b) + t) == Some(b)
  {
    var s := PercentByte(b) + t;
    assert s[0] == '%' && s[1] == HexDigit(b / 16) && s[2] == HexDigit(b % 16);
  }

  lemma {:induction false} ReadPercentBytes(bytes: seq<byte>, t: string)
    ensures ReadBytes(PercentBytes(bytes) + t, |bytes|) == Some(bytes)
    ensures (PercentBytes(bytes) + t)[3 * |bytes|..] == t
  {
    if bytes != [] {
      var s := PercentBytes(bytes) + t;
      assert s == PercentByte(bytes[0]) + (PercentBytes(bytes[1..]) + t);
      ReadPercentByte(bytes[0], PercentBytes(bytes[1..]) + t);
      assert s[3..] == PercentBytes(bytes[1..]) + t;
      ReadPercentBytes(bytes[1..], t);
      assert [bytes[0]] + bytes[1..] == bytes;
    }
  }

  /** A character written as `%XX` bytes decodes back from the front of the string. */
  lemma DecodePercentEncoded(flavor: Flavor, c: char, t: string)
    ensures Decode(flavor, PercentBytes(Utf8(c)) + t) == Prepend(c, Decode(flavor, t))
  {
    var bytes := Utf8(c);
    var s := PercentBytes(bytes) + t;
    assert s == PercentByte(bytes[0]) + (PercentBytes(bytes[1..]) + t);
    ReadPercentByte(bytes[0], PercentBytes(bytes[1..]) + t);
    Utf8RoundTrip(c);
    ReadPercentBytes(bytes, t);
    assert s[0] == '%';
  }

  /** Decoding the encoding of one character consumes exactly that encoding. */
  lemma DecodeEncodedChar(flavor: Flavor, c: char, t: string)
    ensures Decode(flavor, EncodeChar(flavor, c) + t) == Prepend(c, Decode(flavor, t))
  {
    var s := EncodeChar(flavor, c) + t;
    if Unescaped(flavor, c) {
      assert s[0] == c && s[1..] == t;
    } else if flavor == Form && c == ' ' {
      assert s[0] == '+' && s[1..] == t;
    } else {
      DecodePercentEncoded(flavor, c, t);
    }
  }

  /** Decoding an encoding gives the original string back, so the encoding is
      injective and loses nothing. */
  lemma {:induction false} DecodeEncode(flavor: Flavor, s: string)
    ensures Decode(flavor, Encode(flavor, s)) == Some(s)
  {
    if s != [] {
      DecodeEncodedChar(flavor, s[0], Encode(flavor, s[1..]));
      DecodeEncode(flavor, s[1..]);
      assert [s[0]] + s[1..] == s;
    }
  }

  /** Without a `+`, the two decoders agree. */
  lemma {:induction false} DecodeFlavorsAgree(s: string)
    requires '+' !in s
    ensures Decode(Form, s) == Decode(Component, s)
    decreases |s|
  {
    if s != [] {
      if s[0] == '%' {
        match ReadByte(s)
        case None =>
        case Some(lead) =>
          var count := SequenceLength(lead);
          if count != 0 && ReadBytes(s, count).Some? {
            assert '+' !in s[3 * count..] by {
              forall i | 0 <= i < |s| - 3 * count ensures s[3 * count..][i] != '+' {
                assert s[3 * count..][i] == s[3 * count + i];
              }
            }
            DecodeFlavorsAgree(s[3 * count..]);
          }
      } else {
        assert '+' !in s[1..] by {
          forall i | 0 <= i < |s| - 1 ensures s[1..][i] != '+' {
            assert s[1..][i] == s[1 + i];
          }
        }
        DecodeFlavorsAgree(s[1..]);
      }
    }
  }

  /** A standard form decoder reads an `encodeURIComponent` value back too. */
  lemma FormDecodesComponent(s: string)
    ensures Decode(Form, Encode(Component, s)) == Some(s)
  {
    DecodeEncode(Component, s);
    DecodeFlavorsAgree(Encode(Component, s));
  }
}
