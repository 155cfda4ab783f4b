/** `encodeURIComponent` (ECMA-262, section 18.2.6.5) and its inverse
    `decodeURIComponent`, over Unicode scalar values. A character outside the
    unescaped set is written as the UTF-8 bytes of its code point, each as a
    percent-encoded triplet "%XY" with upper-case hexadecimal digits
    (section 2.1 of RFC 3986). */
module UriComponent {
  import opened Wrappers

  type Byte = b: int | 0 <= b < 256

  /** The characters `encodeURIComponent` leaves as they are:
      A-Z a-z 0-9 - _ . ! ~ * ' ( ) */
  predicate Unescaped(c: char) {
    ('A' <= c <= 'Z') || ('a' <= c <= 'z') || ('0' <= c <= '9') ||
    c == '-' || c == '_' || c == '.' || c == '!' || c == '~' ||
    c == '*' || c == '\'' || c == '(' || c == ')'
  }

  /** The UTF-8 encoding of one code point. */
  function Utf8(c: char): (bytes: seq<Byte>)
    ensures 1 <= |bytes| <= 4
  {
    var n := c as int;
    if n < 0x80 then [n]
    else if n < 0x800 then [0xC0 + n / 64, 0x80 + n % 64]
    else if n < 0x1_0000 then [0xE0 + n / 4096, 0x80 + (n / 64) % 64, 0x80 + n % 64]
    else [0xF0 + n / 262144, 0x80 + (n / 4096) % 64, 0x80 + (n / 64) % 64, 0x80 + n % 64]
  }

  /** The upper-case hexadecimal digit for `d`. */
  function HexDigit(d: nat): (c: char)
    requires d < 16
    ensures Unescaped(c)
    ensures d < 10 ==> '0' <= c <= '9' && c as int - '0' as int == d
    ensures 10 <= d ==> 'A' <= c <= 'F' && c as int - 'A' as int == d - 10
  {
    if d < 10 then (d + '0' as int) as char else (d - 10 + 'A' as int) as char
  }

  /** The triplet "%XY" for one byte. */
  function Triplet(b: Byte): string {
    ['%', HexDigit(b / 16), HexDigit(b % 16)]
  }

  function Triplets(bytes: seq<Byte>): (s: string)
    ensures |s| == 3 * |bytes|
  {
    if bytes == [] then [] else Triplet(bytes[0]) + Triplets(bytes[1..])
  }

  function EncodeChar(c: char): string {
    if Unescaped(c) then [c] else Triplets(Utf8(c))
  }

  /** `encodeURIComponent(s)`. Only unescaped characters and '%' appear in
      the result, so it holds none of the delimiters '?', '#', '&', '=' or
      '+' that structure a URL query; and a string made only of unescaped
      characters comes back unchanged. */
  function Encode(s: string): (r: string)
    ensures forall i :: 0 <= i < |r| ==> Unescaped(r[i]) || r[i] == '%'
    ensures (forall i :: 0 <= i < |s| ==> Unescaped(s[i])) ==> r == s
  {
    if s == [] then []
    else
      var r := EncodeChar(s[0]) + Encode(s[1..]);
      assert forall i :: 0 <= i < |EncodeChar(s[0])| ==> Unescaped(r[i]) || r[i] == '%' by {
        if !Unescaped(s[0]) { TripletsAlphabet(Utf8(s[0])); }
      }
      r
  }

  lemma {:induction false} TripletsAlphabet(bytes: seq<Byte>)
    ensures forall i :: 0 <= i < |Triplets(bytes)| ==> Unescaped(Triplets(bytes)[i]) || Triplets(bytes)[i] == '%'
  {
    if bytes != [] {
      TripletsAlphabet(bytes[1..]);
    }
  }

  /** An escaped ASCII character is one triplet: '%' and the two
      upper-case hexadecimal digits of its code. */
  lemma EncodeAscii(c: char)
    requires c as int < 0x80 && !Unescaped(c)
    ensures EncodeChar(c) == ['%', HexDigit(c as int / 16), HexDigit(c as int % 16)]
  {
    assert Utf8(c) == [c as int];
    assert Triplets([c as int]) == Triplet(c as int) + Triplets([]);
  }

  /** The URL delimiters and a space: ':' is "%3A", '/' is "%2F", '?' is
      "%3F", '&' is "%26", '=' is "%3D", '#' is "%23", ' ' is "%20". */
  lemma EncodeExamples()
    ensures EncodeChar(':') == "%3A" && EncodeChar('/') == "%2F" && EncodeChar('?') == "%3F"
    ensures EncodeChar('&') == "%26" && EncodeChar('=') == "%3D" && EncodeChar('#') == "%23"
    ensures EncodeChar(' ') == "%20"
  {
    EncodeAscii(':');
    EncodeAscii('/');
    EncodeAscii('?');
    EncodeAscii('&');
    EncodeAscii('=');
    EncodeAscii('#');
    EncodeAscii(' ');
  }

  // ---------------------------------------------------------------------
  // Decoding

  /** The value of a hexadecimal digit, either case. */
  function HexValue(c: char): (r: Option<nat>)
    ensures r.Some? ==> r.value < 16
  {
    if '0' <= c <= '9' then Some(c as int - '0' as int)
    else if 'a' <= c <= 'f' then Some(c as int - 'a' as int + 10)
    else if 'A' <= c <= 'F' then Some(c as int - 'A' as int + 10)
    else None
  }

  /** The byte written by the triplet at the start of `s`, if there is one. */
  function ReadByte(s: string): Option<Byte> {
    if |s| >= 3 && s[0] == '%' && HexValue(s[1]).Some? && HexValue(s[2]).Some? then
      Some(16 * HexValue(s[1]).value + HexValue(s[2]).value)
    else None
  }

  /** The six payload bits of the continuation byte written at index `i`. */
  function Continuation(s: string, i: nat): (r: Option<nat>)
    ensures r.Some? ==> r.value < 64
  {
    if i > |s| then None
    else match ReadByte(s[i..])
      case Some(b) => if 0x80 <= b < 0xC0 then Some(b - 0x80) else None
      case None => None
  }

  /** The character for code point `cp`, provided it is a scalar value not
      below `least` (the smallest code point that needs that many bytes, so
      that overlong forms are refused), paired with the number of characters
      of the encoded text it used. */
  function Scalar(cp: int, least: nat, used: nat): Option<(char, nat)> {
    if least <= cp < 0x11_0000 && !(0xD800 <= cp < 0xE000) then Some((cp as char, used))
    else None
  }

  /** Decodes the escape sequence that starts `s` (its first character is
      '%'): one triplet for a code point below 0x80, otherwise a lead byte
      and one to three continuation bytes. None where decodeURIComponent
      throws a URIError. */
  function DecodeEscape(s: string): (r: Option<(char, nat)>)
    ensures r.Some? ==> 3 <= r.value.1 <= |s|
  {
    match ReadByte(s)
    case None => None
    case Some(b0) =>
      if b0 < 0x80 then Some((b0 as char, 3))
      else if 0xC0 <= b0 < 0xE0 then
        var c1 := Continuation(s, 3);
        if c1.None? || |s| < 6 then None
        else Scalar((b0 - 0xC0) * 64 + c1.value, 0x80, 6)
      else if 0xE0 <= b0 < 0xF0 then
        var c1, c2 := Continuation(s, 3), Continuation(s, 6);
        if c1.None? || c2.None? || |s| < 9 then None
        else Scalar(((b0 - 0xE0) * 64 + c1.value) * 64 + c2.value, 0x800, 9)
      else if 0xF0 <= b0 < 0xF8 then
        var c1, c2, c3 := Continuation(s, 3), Continuation(s, 6), Continuation(s, 9);
        if c1.None? || c2.None? || c3.None? || |s| < 12 then None
        else Scalar((((b0 - 0xF0) * 64 + c1.value) * 64 + c2.value) * 64 + c3.value, 0x1_0000, 12)
      else None
  }

  function Prepend(c: char, r: Option<string>): Option<string> {
    match r
    case None => None
    case Some(t) => Some([c] + t)
  }

  /** `decodeURIComponent(s)`; None where it throws a URIError. */
  function Decode(s: string): Option<string>
    decreases |s|
  {
    if s == [] then Some([])
    else if s[0] != '%' then Prepend(s[0], Decode(s[1..]))
    else match DecodeEscape(s)
      case None => None
      case Some((c, used)) => Prepend(c, Decode(s[used..]))
  }

  // ---------------------------------------------------------------------
  // Round trip

  lemma ReadTriplet(b: Byte, rest: string)
    ensures ReadByte(Triplet(b) + rest) == Some(b)
  {
    var s := Triplet(b) + rest;
    assert s[0] == '%' && s[1] == HexDigit(b / 16) && s[2] == HexDigit(b % 16);
    HexRoundTrip(b / 16);
    HexRoundTrip(b % 16);
  }

  lemma HexRoundTrip(d: nat)
    requires d < 16
    ensures HexValue(HexDigit(d)) == Some(d)
  {
  }

  /** The continuation byte written at index 3 * k of a run of triplets. */
  lemma ReadContinuation(bytes: seq<Byte>, rest: string, k: nat)
    requires 0 < k < |bytes| && 0x80 <= bytes[k] < 0xC0
    ensures Continuation(Triplets(bytes) + rest, 3 * k) == Some(bytes[k] - 0x80)
  {
    var s := Triplets(bytes) + rest;
    TripletsSuffix(bytes, rest, k);
    ReadTriplet(bytes[k], Triplets(bytes[k + 1..]) + rest);
  }

  /** Dropping the first k triplets leaves the triplets of the rest. */
  lemma {:induction false} TripletsSuffix(bytes: seq<Byte>, rest: string, k: nat)
    requires k < |bytes|
    ensures (Triplets(bytes) + rest)[3 * k..] == Triplet(bytes[k]) + (Triplets(bytes[k + 1..]) + rest)
  {
    var tail := Triplets(bytes[1..]) + rest;
    assert Triplets(bytes) + rest == Triplet(bytes[0]) + tail;
    if k == 0 {
      assert bytes[1..] == bytes[k + 1..];
    } else {
      TripletsSuffix(bytes[1..], rest, k - 1);
      assert bytes[1..][k - 1] == bytes[k] && bytes[1..][k..] == bytes[k + 1..];
      DropFront(Triplet(bytes[0]), tail, 3 * k);
    }
  }

  /** Dropping more than a prefix drops into what follows it. */
  lemma DropFront(front: string, back: string, j: nat)
    requires |front| <= j <= |front| + |back|
    ensures (front + back)[j..] == back[j - |front|..]
  {
  }

  /** The first byte of a run of triplets. */
  lemma ReadLead(bytes: seq<Byte>, rest: string)
    requires |bytes| > 0
    ensures ReadByte(Triplets(bytes) + rest) == Some(bytes[0])
  {
    TripletsSuffix(bytes, rest, 0);
    ReadTriplet(bytes[0], Triplets(bytes[1..]) + rest);
  }

  /** The escape sequence for an escaped character decodes back to it. */
  lemma DecodeEscapeOf(c: char, rest: string)
    requires !Unescaped(c)
    ensures DecodeEscape(Triplets(Utf8(c)) + rest) == Some((c, |Triplets(Utf8(c))|))
  {
    var n := c as int;
    if n < 0x80 {
      ReadLead(Utf8(c), rest);
    } else if n < 0x800 {
      DecodeTwo(c, rest);
    } else if n < 0x1_0000 {
      DecodeThree(c, rest);
    } else {
      DecodeFour(c, rest);
    }
  }

  lemma DecodeTwo(c: char, rest: string)
    requires 0x80 <= c as int < 0x800
    ensures DecodeEscape(Triplets(Utf8(c)) + rest) == Some((c, 6))
  {
    var n := c as int;
    var bytes := Utf8(c);
    ReadLead(bytes, rest);
    ReadContinuation(bytes, rest, 1);
    assert (n / 64) * 64 + n % 64 == n;
  }

  lemma DecodeThree(c: char, rest: string)
    requires 0x800 <= c as int < 0x1_0000
    ensures DecodeEscape(Triplets(Utf8(c)) + rest) == Some((c, 9))
  {
    var n := c as int;
    var bytes := Utf8(c);
    ReadLead(bytes, rest);
    ReadContinuation(bytes, rest, 1);
    ReadContinuation(bytes, rest, 2);
    Recompose3(n);
  }

  lemma DecodeFour(c: char, rest: string)
    requires 0x1_0000 <= c as int
    ensures DecodeEscape(Triplets(Utf8(c)) + rest) == Some((c, 12))
  {
    var n := c as int;
    var bytes := Utf8(c);
    var s := Triplets(bytes) + rest;
    ReadLead(bytes, rest);
    ReadContinuation(bytes, rest, 1);
    ReadContinuation(bytes, rest, 2);
    ReadContinuation(bytes, rest, 3);
    assert ReadByte(s) == Some(0xF0 + n / 262144);
    assert Continuation(s, 3) == Some((n / 4096) % 64);
    assert Continuation(s, 6) == Some((n / 64) % 64);
    assert Continuation(s, 9) == Some(n % 64);
    Recompose4(n);
    assert DecodeEscape(s) == Scalar(n, 0x1_0000, 12);
  }

  lemma Recompose3(n: nat)
    requires n < 0x1_0000
    ensures ((n / 4096) * 64 + (n / 64) % 64) * 64 + n % 64 == n
  {
    assert n / 4096 == (n / 64) / 64;
  }

  lemma Recompose4(n: nat)
    requires n < 0x11_0000
    ensures (((n / 262144) * 64 + (n / 4096) % 64) * 64 + (n / 64) % 64) * 64 + n % 64 == n
  {
    assert n / 262144 == (n / 4096) / 64;
    assert n / 4096 == (n / 64) / 64;
  }

  /** Decoding the encoding of one character followed by anything decodes
      that character, then the rest. */
  lemma DecodeEncodeChar(c: char, rest: string)
    ensures Decode(EncodeChar(c) + rest) == Prepend(c, Decode(rest))
  {
    var s := EncodeChar(c) + rest;
    if Unescaped(c) {
      assert s[0] == c && s[1..] == rest;
    } else {
      var t := Triplets(Utf8(c));
      DecodeEscapeOf(c, rest);
      assert s[0] == '%';
      assert s[|t|..] == rest;
    }
  }

  /** `decodeURIComponent(encodeURIComponent(s)) == s` for every string. */
  lemma {:induction false} DecodeEncode(s: string)
    ensures Decode(Encode(s)) == Some(s)
    decreases |s|
  {
    if s != [] {
      DecodeEncodeChar(s[0], Encode(s[1..]));
      DecodeEncode(s[1..]);
      assert [s[0]] + s[1..] == s;
    }
  }
}
