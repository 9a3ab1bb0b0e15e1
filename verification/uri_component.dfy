/** `encodeURIComponent` and `decodeURIComponent` as ECMAScript defines them (section 19.2.6
    of ECMA-262): characters outside the kept set are written as the UTF-8 bytes of their code
    point, each byte as `%` and two upper-case hexadecimal digits (section 2.1 of RFC 3986). */
module UriComponent {
  import opened Wrappers

  type Byte = b: int | 0 <= b < 256

  /** The characters `encodeURIComponent` leaves as they are:
      `A-Z a-z 0-9 - _ . ! ~ * ' ( )`. */
  predicate IsUnreserved(c: char) {
    || 'A' <= c <= 'Z'
    || 'a' <= c <= 'z'
    || '0' <= c <= '9'
    || c in "-_.!~*'()"
  }

  /** The upper-case hexadecimal digits an encoder writes. */
  predicate IsUpperHex(c: char) {
    '0' <= c <= '9' || 'A' <= c <= 'F'
  }

  /** Every character an encoded component can contain. */
  predicate IsEncodedChar(c: char) {
    IsUnreserved(c) || c == '%' || IsUpperHex(c)
  }

  function HexDigit(v: nat): (c: char)
    requires v < 16
    ensures IsUpperHex(c)
  {
    if v < 10 then ('0' as int + v) as char else ('A' as int + v - 10) as char
  }

  /** The value of a hexadecimal digit of either case. */
  function HexValue(c: char): (v: Option<nat>)
    ensures v.Some? ==> v.value < 16
  {
    if '0' <= c <= '9' then Some(c as int - '0' as int)
    else if 'A' <= c <= 'F' then Some(c as int - 'A' as int + 10)
    else if 'a' <= c <= 'f' then Some(c as int - 'a' as int + 10)
    else None
  }

  predicate IsScalarValue(cp: int) {
    0 <= cp < 0xD800 || 0xE000 <= cp < 0x11_0000
  }

  /** The UTF-8 encoding of one code point (section 3 of RFC 3629). */
  function Utf8(c: char): (bs: seq<Byte>)
    ensures 1 <= |bs| <= 4
  {
    var cp := c as int;
    if cp < 0x80 then
      [cp]
    else if cp < 0x800 then
      [0xC0 + cp / 64, 0x80 + cp % 64]
    else if cp < 0x1_0000 then
      [0xE0 + cp / 4096, 0x80 + (cp / 64) % 64, 0x80 + cp % 64]
    else
      [0xF0 + cp / 262144, 0x80 + (cp / 4096) % 64, 0x80 + (cp / 64) % 64, 0x80 + cp % 64]
  }

  /** One byte written as `%` and two hexadecimal digits. */
  function PercentByte(b: Byte): (t: string)
    ensures |t| == 3 && t[0] == '%' && IsUpperHex(t[1]) && IsUpperHex(t[2])
  {
    ['%', HexDigit(b / 16), HexDigit(b % 16)]
  }

  function PercentBytes(bs: seq<Byte>): (t: string)
    ensures |t| == 3 * |bs|
    ensures forall i :: 0 <= i < |t| ==> t[i] == '%' || IsUpperHex(t[i])
    decreases |bs|
  {
    if bs == [] then [] else PercentByte(bs[0]) + PercentBytes(bs[1..])
  }

  /** The characters an encoding keeps as they are. `encodeURIComponent` keeps every
      unreserved character (`keepQuote`); the URL parser of an `http` or `https` URL
      afterwards percent-encodes the `'` of a query, so what survives both keeps the others. */
  predicate IsKept(c: char, keepQuote: bool) {
    IsUnreserved(c) && (keepQuote || c != '\'')
  }

  /** The encoding of one character. */
  function EncodeChar(c: char, keepQuote: bool): (t: string)
    ensures 1 <= |t|
    ensures forall i :: 0 <= i < |t| ==> IsEncodedChar(t[i]) && (keepQuote || t[i] != '\'')
  {
    if IsKept(c, keepQuote) then [c] else PercentBytes(Utf8(c))
  }

  /** Percent-encodes every character of `s` outside the kept set. */
  function EncodeWith(s: string, keepQuote: bool): (t: string)
    ensures |t| >= |s|
    ensures forall i :: 0 <= i < |t| ==> IsEncodedChar(t[i]) && (keepQuote || t[i] != '\'')
    decreases |s|
  {
    if s == [] then [] else EncodeChar(s[0], keepQuote) + EncodeWith(s[1..], keepQuote)
  }

  /** `encodeURIComponent(s)`. The result is built only from kept characters, `%` and
      upper-case hexadecimal digits, so it never holds a query delimiter. */
  function Encode(s: string): (t: string)
    ensures |t| >= |s|
    ensures forall i :: 0 <= i < |t| ==> IsEncodedChar(t[i])
  {
    EncodeWith(s, true)
  }

  /** The characters that separate or rewrite parts of a query string. */
  const QueryDelimiters := "&=?#+ "

  lemma EncodedCharIsNotDelimiter(c: char)
    requires IsEncodedChar(c)
    ensures c !in QueryDelimiters
  {
  }

  /** No encoded component contains `&`, `=`, `?`, `#`, `+` or a space, so an encoded value
      can neither end its query parameter nor start another one. */
  lemma EncodeHasNoDelimiters(s: string, keepQuote: bool)
    ensures var t := EncodeWith(s, keepQuote);
      '&' !in t && '=' !in t && '?' !in t && '#' !in t && '+' !in t && ' ' !in t
  {
    var t := EncodeWith(s, keepQuote);
    forall i | 0 <= i < |t|
      ensures t[i] !in QueryDelimiters
    {
      EncodedCharIsNotDelimiter(t[i]);
    }
  }

  /** A string of kept characters encodes to itself. */
  lemma {:induction false} EncodeUnreserved(s: string, keepQuote: bool)
    requires forall i :: 0 <= i < |s| ==> IsKept(s[i], keepQuote)
    ensures EncodeWith(s, keepQuote) == s
    decreases |s|
  {
    if s != [] {
      EncodeUnreserved(s[1..], keepQuote);
      assert s == [s[0]] + s[1..];
    }
  }

  /** The byte written at the start of `s` as `%HH`, hexadecimal digits of either case. */
  function PercentByteAt(s: string): Option<Byte> {
    if |s| >= 3 && s[0] == '%' && HexValue(s[1]).Some? && HexValue(s[2]).Some? then
      Some(16 * HexValue(s[1]).value + HexValue(s[2]).value)
    else
      None
  }

  /** Reads `n` consecutive `%HH` bytes from the start of `s`. */
  function ReadBytes(s: string, n: nat): (r: Option<seq<Byte>>)
    ensures r.Some? ==> |r.value| == n && 3 * n <= |s|
    decreases n
  {
    if n == 0 then
      Some([])
    else
      match PercentByteAt(s)
      case None => None
      case Some(b) =>
        match ReadBytes(s[3..], n - 1)
        case None => None
        case Some(rest) => Some([b] + rest)
  }

  /** How many bytes a UTF-8 sequence starting with `b` has; 0 when `b` cannot start one. */
  function LeadLength(b: Byte): nat {
    if b < 0x80 then 1
    else if 0xC0 <= b < 0xE0 then 2
    else if 0xE0 <= b < 0xF0 then 3
    else if 0xF0 <= b < 0xF8 then 4
    else 0
  }

  predicate IsContinuation(b: Byte) {
    0x80 <= b < 0xC0
  }

  /** Decodes one complete UTF-8 sequence, refusing overlong forms, surrogates and values
      beyond U+10FFFF. */
  function DecodeUtf8(bs: seq<Byte>): Option<char> {
    if |bs| == 0 || |bs| != LeadLength(bs[0]) then
      None
    else if |bs| == 1 then
      Some(bs[0] as char)
    else if !(forall i :: 1 <= i < |bs| ==> IsContinuation(bs[i])) then
      None
    else
      var cp: int :=
        if |bs| == 2 then (bs[0] as int - 0xC0) * 64 + (bs[1] as int - 0x80)
        else if |bs| == 3 then (bs[0] as int - 0xE0) * 4096 + (bs[1] as int - 0x80) * 64 + (bs[2] as int - 0x80)
        else (bs[0] as int - 0xF0) * 262144 + (bs[1] as int - 0x80) * 4096 + (bs[2] as int - 0x80) * 64 + (bs[3] as int - 0x80);
      var least: int := if |bs| == 2 then 0x80 else if |bs| == 3 then 0x800 else 0x1_0000;
      if least <= cp && IsScalarValue(cp) then Some(cp as char) else None
  }

  /** Decodes the first character of `s`, returning it with the number of characters read. */
  function DecodeOne(s: string): (r: Option<(char, nat)>)
    requires |s| > 0
    ensures r.Some? ==> 1 <= r.value.1 <= |s|
  {
    if s[0] != '%' then
      Some((s[0], 1))
    else
      match PercentByteAt(s)
      case None => None
      case Some(b0) =>
        var n := LeadLength(b0);
        if n == 0 then
          None
        else
          match ReadBytes(s, n)
          case None => None
          case Some(bs) =>
            match DecodeUtf8(bs)
            case None => None
            case Some(c) => Some((c, 3 * n))
  }

  /** `decodeURIComponent(s)`; `None` where ECMAScript throws `URIError`. */
  function Decode(s: string): Option<string>
    decreases |s|
  {
    if s == [] then
      Some([])
    else
      match DecodeOne(s)
      case None => None
      case Some((c, k)) =>
        match Decode(s[k..])
        case None => None
        case Some(rest) => Some([c] + rest)
  }

  lemma PercentByteAtEncoded(b: Byte, rest: string)
    ensures PercentByteAt(PercentByte(b) + rest) == Some(b)
  {
  }

  lemma {:induction false} ReadBytesEncoded(bs: seq<Byte>, rest: string)
    ensures ReadBytes(PercentBytes(bs) + rest, |bs|) == Some(bs)
    decreases |bs|
  {
    if bs != [] {
      var s := PercentBytes(bs) + rest;
      assert s == PercentByte(bs[0]) + (PercentBytes(bs[1..]) + rest);
      PercentByteAtEncoded(bs[0], PercentBytes(bs[1..]) + rest);
      assert s[3..] == PercentBytes(bs[1..]) + rest;
      ReadBytesEncoded(bs[1..], rest);
      assert bs == [bs[0]] + bs[1..];
    }
  }

  lemma DivMod64(x: int)
    requires x >= 0
    ensures x == 64 * (x / 64) + x % 64
    ensures 0 <= x % 64 < 64
  {
  }

  lemma Utf8RoundTrip2(c: char)
    requires 0x80 <= c as int < 0x800
    ensures LeadLength(Utf8(c)[0]) == 2 && DecodeUtf8(Utf8(c)) == Some(c)
  {
  }

  lemma Utf8RoundTrip3(c: char)
    requires 0x800 <= c as int < 0x1_0000
    ensures LeadLength(Utf8(c)[0]) == 3 && DecodeUtf8(Utf8(c)) == Some(c)
  {
    var cp := c as int;
    DivMod64(cp);
    DivMod64(cp / 64);
    assert cp / 4096 == (cp / 64) / 64;
  }

  lemma Utf8RoundTrip4(c: char)
    requires 0x1_0000 <= c as int
    ensures LeadLength(Utf8(c)[0]) == 4 && DecodeUtf8(Utf8(c)) == Some(c)
  {
    var cp := c as int;
    DivMod64(cp);
    DivMod64(cp / 64);
    DivMod64(cp / 4096);
    assert cp / 4096 == (cp / 64) / 64;
    assert cp / 262144 == (cp / 4096) / 64;
  }

  /** Decoding the UTF-8 bytes of a character gives back the character. */
  lemma Utf8RoundTrip(c: char)
    ensures LeadLength(Utf8(c)[0]) == |Utf8(c)|
    ensures DecodeUtf8(Utf8(c)) == Some(c)
  {
    var cp := c as int;
    if cp < 0x80 {
    } else if cp < 0x800 {
      Utf8RoundTrip2(c);
    } else if cp < 0x1_0000 {
      Utf8RoundTrip3(c);
    } else {
      Utf8RoundTrip4(c);
    }
  }

  /** Percent-encoded UTF-8 bytes of a character decode back to it. */
  lemma DecodeOnePercentEncoded(c: char, rest: string)
    ensures DecodeOne(PercentBytes(Utf8(c)) + rest) == Some((c, 3 * |Utf8(c)|))
  {
    var bs := Utf8(c);
    var s := PercentBytes(bs) + rest;
    assert s == PercentByte(bs[0]) + (PercentBytes(bs[1..]) + rest);
    PercentByteAtEncoded(bs[0], PercentBytes(bs[1..]) + rest);
    Utf8RoundTrip(c);
    ReadBytesEncoded(bs, rest);
  }

  /** Decoding reads exactly the encoding of the first character and gives it back. */
  lemma DecodeOneEncoded(c: char, keepQuote: bool, rest: string)
    ensures DecodeOne(EncodeChar(c, keepQuote) + rest) == Some((c, |EncodeChar(c, keepQuote)|))
  {
    if !IsKept(c, keepQuote) {
      DecodeOnePercentEncoded(c, rest);
    }
  }

  /** Decoding steps over one encoded character and carries on with the rest. */
  lemma DecodeAfterEncodedChar(c: char, keepQuote: bool, rest: string)
    ensures Decode(EncodeChar(c, keepQuote) + rest) ==
      match Decode(rest) case None => None case Some(r) => Some([c] + r)
  {
    var s := EncodeChar(c, keepQuote) + rest;
    DecodeOneEncoded(c, keepQuote, rest);
    assert s[|EncodeChar(c, keepQuote)|..] == rest;
  }

  /** Percent-decoding undoes the encoding, whichever kept set it used. */
  lemma {:induction false} DecodeEncodeWith(s: string, keepQuote: bool)
    ensures Decode(EncodeWith(s, keepQuote)) == Some(s)
    decreases |s|
  {
    if s != [] {
      assert EncodeWith(s, keepQuote) == EncodeChar(s[0], keepQuote) + EncodeWith(s[1..], keepQuote);
      DecodeAfterEncodedChar(s[0], keepQuote, EncodeWith(s[1..], keepQuote));
      DecodeEncodeWith(s[1..], keepQuote);
      assert s == [s[0]] + s[1..];
    }
  }

  /** `decodeURIComponent(encodeURIComponent(s)) == s`: the encoding loses nothing. */
  lemma DecodeEncode(s: string)
    ensures Decode(Encode(s)) == Some(s)
  {
    DecodeEncodeWith(s, true);
  }

  /** Distinct strings have distinct encodings. */
  lemma EncodeInjective(s: string, s': string)
    requires Encode(s) == Encode(s')
    ensures s == s'
  {
    DecodeEncode(s);
    DecodeEncode(s');
  }
}
