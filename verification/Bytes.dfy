/** UTF-8 as Node's `Buffer` reads and writes it: encoding is exact, decoding replaces each ill-formed run with U+FFFD. */
module Utf8 {
  newtype byte = x: int | 0 <= x < 256

  const REPLACEMENT: char := '\U{FFFD}'

  function EncodeChar(c: char): (bytes: seq<byte>)
    ensures 1 <= |bytes| <= 4
    ensures c as int < 0x80 ==> |bytes| == 1
  {
    var v := c as int;
    if v < 0x80 then [v as byte]
    else if v < 0x800 then [(0xC0 + v / 0x40) as byte, (0x80 + v % 0x40) as byte]
    else if v < 0x1_0000 then [(0xE0 + v / 0x1000) as byte, (0x80 + v / 0x40 % 0x40) as byte, (0x80 + v % 0x40) as byte]
    else [(0xF0 + v / 0x4_0000) as byte, (0x80 + v / 0x1000 % 0x40) as byte, (0x80 + v / 0x40 % 0x40) as byte, (0x80 + v % 0x40) as byte]
  }

  function Encode(s: string): (bytes: seq<byte>) {
    if s == [] then [] else EncodeChar(s[0]) + Encode(s[1..])
  }

  predicate IsContinuation(b: byte) {
    0x80 <= b as int < 0xC0
  }

  /** Whether `second` may follow `lead` in a well-formed sequence. */
  predicate SecondFits(lead: byte, second: byte) {
    && IsContinuation(second)
    && (lead == 0xE0 ==> second >= 0xA0)
    && (lead == 0xED ==> second < 0xA0)
    && (lead == 0xF0 ==> second >= 0x90)
    && (lead == 0xF4 ==> second < 0x90)
  }

  datatype Decoded = Decoded(c: char, used: nat)

  function Low6(b: byte): int {
    b as int % 0x40
  }

  /** The first character of `bytes`, or a replacement for its longest ill-formed start. */
  function DecodeFirst(bytes: seq<byte>): (first: Decoded)
    requires bytes != []
    ensures 1 <= first.used <= |bytes|
  {
    var lead := bytes[0];
    if lead < 0x80 then Decoded(lead as char, 1)
    else if lead < 0xC2 || lead > 0xF4 || |bytes| < 2 || !SecondFits(lead, bytes[1]) then Decoded(REPLACEMENT, 1)
    else if lead < 0xE0 then Decoded(((lead as int - 0xC0) * 0x40 + Low6(bytes[1])) as char, 2)
    else if |bytes| < 3 || !IsContinuation(bytes[2]) then Decoded(REPLACEMENT, 2)
    else if lead < 0xF0 then
      Decoded(((lead as int - 0xE0) * 0x1000 + Low6(bytes[1]) * 0x40 + Low6(bytes[2])) as char, 3)
    else if |bytes| < 4 || !IsContinuation(bytes[3]) then Decoded(REPLACEMENT, 3)
    else Decoded(((lead as int - 0xF0) * 0x4_0000 + Low6(bytes[1]) * 0x1000 + Low6(bytes[2]) * 0x40 + Low6(bytes[3])) as char, 4)
  }

  function Decode(bytes: seq<byte>): (s: string)
    decreases |bytes|
  {
    if bytes == [] then []
    else
      var first := DecodeFirst(bytes);
      [first.c] + Decode(bytes[first.used..])
  }

  lemma SixBitDigits(v: nat)
    ensures v / 0x1000 == v / 0x40 / 0x40 && v / 0x4_0000 == v / 0x1000 / 0x40
    ensures v == v / 0x40 * 0x40 + v % 0x40
    ensures v == v / 0x1000 * 0x1000 + v / 0x40 % 0x40 * 0x40 + v % 0x40
    ensures v == v / 0x4_0000 * 0x4_0000 + v / 0x1000 % 0x40 * 0x1000 + v / 0x40 % 0x40 * 0x40 + v % 0x40
  {
  }

  lemma DecodeFirstOfChar(c: char, rest: seq<byte>)
    ensures DecodeFirst(EncodeChar(c) + rest) == Decoded(c, |EncodeChar(c)|)
  {
    SixBitDigits(c as int);
    if c as int < 0x800 {
    } else if c as int < 0x1_0000 {
      ThreeByteChar(c, rest);
    } else {
      FourByteChar(c, rest);
    }
  }

  lemma ThreeByteChar(c: char, rest: seq<byte>)
    requires 0x800 <= c as int < 0x1_0000
    ensures DecodeFirst(EncodeChar(c) + rest) == Decoded(c, 3)
  {
    SixBitDigits(c as int);
    var bytes := EncodeChar(c);
    assert IsContinuation(bytes[1]) && IsContinuation(bytes[2]);
    assert SecondFits(bytes[0], bytes[1]);
  }

  lemma FourByteChar(c: char, rest: seq<byte>)
    requires c as int >= 0x1_0000
    ensures DecodeFirst(EncodeChar(c) + rest) == Decoded(c, 4)
  {
    SixBitDigits(c as int);
    var bytes := EncodeChar(c);
    assert IsContinuation(bytes[1]) && IsContinuation(bytes[2]) && IsContinuation(bytes[3]);
    assert SecondFits(bytes[0], bytes[1]);
    assert (bytes + rest)[..4] == bytes;
  }

  /** Every string survives the trip through its UTF-8 bytes. */
  lemma {:induction false} RoundTrip(s: string)
    ensures Decode(Encode(s)) == s
  {
    if s != [] {
      var head, tail := EncodeChar(s[0]), Encode(s[1..]);
      DecodeFirstOfChar(s[0], tail);
      assert (head + tail)[|head|..] == tail;
      RoundTrip(s[1..]);
    }
  }

  lemma {:induction false} AsciiLength(s: string)
    requires forall i :: 0 <= i < |s| ==> s[i] as int < 0x80
    ensures |Encode(s)| == |s|
  {
    if s != [] {
      AsciiLength(s[1..]);
    }
  }
}

/** Base64url without padding (section 5 of RFC 4648): the padded standard encoding, made URL-safe and stripped of its padding. */
module Base64Url {
  import opened Utf8

  newtype sextet = x: int | 0 <= x < 64

  function StandardChar(v: sextet): char {
    if v < 26 then 'A' + v as char
    else if v < 52 then 'a' + (v - 26) as char
    else if v < 62 then '0' + (v - 52) as char
    else if v == 62 then '+' else '/'
  }

  /** Node's decoder reads both alphabets and skips anything else. */
  predicate InAlphabet(c: char) {
    'A' <= c <= 'Z' || 'a' <= c <= 'z' || '0' <= c <= '9' || c == '+' || c == '/' || c == '-' || c == '_'
  }

  function CharValue(c: char): sextet
    requires InAlphabet(c)
  {
    if 'A' <= c <= 'Z' then (c as int - 'A' as int) as sextet
    else if 'a' <= c <= 'z' then (c as int - 'a' as int + 26) as sextet
    else if '0' <= c <= '9' then (c as int - '0' as int + 52) as sextet
    else if c == '+' || c == '-' then 62 else 63
  }

  function ToSextets(bytes: seq<byte>): (v: seq<sextet>)
    ensures |v| == (4 * |bytes| + 2) / 3
  {
    if |bytes| == 0 then []
    else
      var b0 := bytes[0] as int;
      if |bytes| == 1 then [(b0 / 4) as sextet, (b0 % 4 * 16) as sextet]
      else
        var b1 := bytes[1] as int;
        if |bytes| == 2 then [(b0 / 4) as sextet, (b0 % 4 * 16 + b1 / 16) as sextet, (b1 % 16 * 4) as sextet]
        else
          var b2 := bytes[2] as int;
          [(b0 / 4) as sextet, (b0 % 4 * 16 + b1 / 16) as sextet, (b1 % 16 * 4 + b2 / 64) as sextet, (b2 % 64) as sextet] + ToSextets(bytes[3..])
  }

  /** Leftover bits of an incomplete last group are dropped. */
  function FromSextets(v: seq<sextet>): (bytes: seq<byte>) {
    if |v| < 2 then []
    else
      var b0 := (v[0] as int * 4 + v[1] as int / 16) as byte;
      if |v| == 2 then [b0]
      else
        var b1 := (v[1] as int % 16 * 16 + v[2] as int / 4) as byte;
        if |v| == 3 then [b0, b1]
        else [b0, b1, (v[2] as int % 4 * 64 + v[3] as int) as byte] + FromSextets(v[4..])
  }

  function Standard(v: seq<sextet>): (s: string)
    ensures |s| == |v|
  {
    if v == [] then [] else [StandardChar(v[0])] + Standard(v[1..])
  }

  function Padding(n: nat): string {
    if n % 3 == 1 then "==" else if n % 3 == 2 then "=" else ""
  }

  /** Padded standard base64 (section 4 of RFC 4648). */
  function ToBase64(bytes: seq<byte>): string {
    Standard(ToSextets(bytes)) + Padding(|bytes|)
  }

  function StripPadding(s: string): string {
    if s != [] && s[|s| - 1] == '=' then StripPadding(s[..|s| - 1]) else s
  }

  function ReplaceChar(s: string, from: char, to: char): (r: string)
    ensures |r| == |s|
    ensures forall i :: 0 <= i < |s| ==> r[i] == if s[i] == from then to else s[i]
  {
    seq(|s|, i requires 0 <= i < |s| => if s[i] == from then to else s[i])
  }

  function Encode(bytes: seq<byte>): string {
    ReplaceChar(ReplaceChar(StripPadding(ToBase64(bytes)), '+', '-'), '/', '_')
  }

  /** The alphabet characters before the first padding character, as values. */
  function Values(s: string): (v: seq<sextet>) {
    if s == [] || s[0] == '=' then []
    else (if InAlphabet(s[0]) then [CharValue(s[0])] else []) + Values(s[1..])
  }

  function FromBase64(s: string): seq<byte> {
    FromSextets(Values(s))
  }

  function Decode(s: string): seq<byte> {
    var pad := if |s| % 4 == 0 then "" else seq(4 - |s| % 4, _ => '=');
    FromBase64(ReplaceChar(ReplaceChar(s, '-', '+'), '_', '/') + pad)
  }

  // --- round trip ---

  predicate IsUrlSafe(c: char) {
    'A' <= c <= 'Z' || 'a' <= c <= 'z' || '0' <= c <= '9' || c == '-' || c == '_'
  }

  lemma {:induction false} SextetRoundTrip(bytes: seq<byte>)
    ensures FromSextets(ToSextets(bytes)) == bytes
  {
    if |bytes| >= 3 {
      SextetRoundTrip(bytes[3..]);
      GroupRoundTrip(bytes[0] as int, bytes[1] as int, bytes[2] as int);
      var v := ToSextets(bytes);
      assert v[4..] == ToSextets(bytes[3..]);
      assert bytes == [bytes[0], bytes[1], bytes[2]] + bytes[3..];
    }
  }

  lemma GroupRoundTrip(b0: int, b1: int, b2: int)
    requires 0 <= b0 < 256 && 0 <= b1 < 256 && 0 <= b2 < 256
    ensures b0 / 4 * 4 + (b0 % 4 * 16 + b1 / 16) / 16 == b0
    ensures (b0 % 4 * 16 + b1 / 16) % 16 * 16 + (b1 % 16 * 4 + b2 / 64) / 4 == b1
    ensures (b1 % 16 * 4 + b2 / 64) % 4 * 64 + b2 % 64 == b2
  {
  }

  lemma StandardCharRoundTrip(v: sextet)
    ensures InAlphabet(StandardChar(v)) && CharValue(StandardChar(v)) == v
    ensures StandardChar(v) != '=' && StandardChar(v) != '-' && StandardChar(v) != '_'
  {
  }

  lemma ValuesCons(c: char, rest: string)
    requires InAlphabet(c) && c != '='
    ensures Values([c] + rest) == [CharValue(c)] + Values(rest)
  {
    assert ([c] + rest)[1..] == rest;
  }

  lemma {:induction false} ValuesOfStandard(v: seq<sextet>, pad: string)
    requires pad == [] || pad[0] == '='
    ensures Values(Standard(v) + pad) == v
  {
    if v == [] {
      assert Standard(v) + pad == pad;
    } else {
      hide CharValue, StandardChar, Values, InAlphabet;
      ValuesOfStandard(v[1..], pad);
      StandardCharRoundTrip(v[0]);
      ValuesCons(StandardChar(v[0]), Standard(v[1..]) + pad);
      assert Standard(v) + pad == [StandardChar(v[0])] + (Standard(v[1..]) + pad);
    }
  }

  lemma {:induction false} StandardAt(v: seq<sextet>, i: nat)
    requires i < |v|
    ensures Standard(v)[i] == StandardChar(v[i])
  {
    hide StandardChar;
    if i > 0 {
      StandardAt(v[1..], i - 1);
    }
  }

  lemma StripsExactlyPadding(v: seq<sextet>, n: nat)
    ensures StripPadding(Standard(v) + Padding(n)) == Standard(v)
  {
    var s, pad := Standard(v), Padding(n);
    if v != [] {
      StandardAt(v, |v| - 1);
      StandardCharRoundTrip(v[|v| - 1]);
    }
    assert StripPadding(s) == s;
    assert s + [] == s;
    if |pad| == 1 {
      assert (s + pad)[..|s|] == s;
    } else if |pad| == 2 {
      assert (s + pad)[..|s| + 1] == s + "=" && (s + "=")[..|s|] == s;
    }
  }

  lemma ReplaceBack(s: string)
    requires forall i :: 0 <= i < |s| ==> s[i] != '-' && s[i] != '_'
    ensures ReplaceChar(ReplaceChar(ReplaceChar(ReplaceChar(s, '+', '-'), '/', '_'), '-', '+'), '_', '/') == s
  {
  }

  /** Every byte string survives; the text is URL-safe, unpadded, and four characters per three bytes, rounded up. */
  lemma RoundTrip(bytes: seq<byte>)
    ensures Decode(Encode(bytes)) == bytes
    ensures |Encode(bytes)| == (4 * |bytes| + 2) / 3
    ensures forall i :: 0 <= i < |Encode(bytes)| ==> IsUrlSafe(Encode(bytes)[i])
  {
    hide ToSextets, FromSextets, Values, Standard;
    var v := ToSextets(bytes);
    var text := Standard(v);
    StripsExactlyPadding(v, |bytes|);
    forall i | 0 <= i < |text|
      ensures text[i] != '=' && text[i] != '-' && text[i] != '_' && InAlphabet(text[i])
    {
      StandardAt(v, i);
      StandardCharRoundTrip(v[i]);
    }
    ReplaceBack(text);
    var pad := if |text| % 4 == 0 then "" else seq(4 - |text| % 4, _ => '=');
    ValuesOfStandard(v, pad);
    SextetRoundTrip(bytes);
  }
}
