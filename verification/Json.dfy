/** JSON text as `JSON.stringify` writes it and `JSON.parse` reads it (RFC 8259), over exact numbers. */
module Json {
  import opened Wrappers
  import opened Decimals

  datatype Json =
    | Null
    | Bool(b: bool)
    | Num(value: real)
    | Str(s: string)
    | Arr(items: seq<Json>)
    | Obj(members: seq<Member>)

  datatype Member = Member(key: string, value: Json)

  datatype Parsed<+T> = Fail | Done(value: T, rest: string)

  // --- writing ---

  /** The values the writer is used on: every number in them is an integer. */
  predicate Printable(v: Json) {
    match v
    case Num(value) => value == value.Floor as real
    case Arr(items) => forall i :: 0 <= i < |items| ==> Printable(items[i])
    case Obj(members) => forall i :: 0 <= i < |members| ==> Printable(members[i].value)
    case _ => true
  }

  function HexDigit(d: nat): char
    requires d < 16
  {
    if d < 10 then '0' + d as char else 'a' + (d - 10) as char
  }

  function EscapeChar(c: char): string {
    if c == '"' then "\\\""
    else if c == '\\' then "\\\\"
    else if c == 8 as char then "\\b"
    else if c == 12 as char then "\\f"
    else if c == '\n' then "\\n"
    else if c == '\r' then "\\r"
    else if c == '\t' then "\\t"
    else if c as int < 0x20 then "\\u00" + [HexDigit(c as int / 16), HexDigit(c as int % 16)]
    else [c]
  }

  function Escape(s: string): string {
    if s == [] then [] else EscapeChar(s[0]) + Escape(s[1..])
  }

  function Quote(s: string): string {
    "\"" + Escape(s) + "\""
  }

  function Print(v: Json): (text: string)
    requires Printable(v)
    ensures text != []
    decreases v, 1
  {
    match v
    case Null => "null"
    case Bool(b) => if b then "true" else "false"
    case Num(value) => FromInt(value.Floor)
    case Str(s) => Quote(s)
    case Arr(items) => "[" + PrintItems(items) + "]"
    case Obj(members) => "{" + PrintMembers(members) + "}"
  }

  function PrintItems(items: seq<Json>): string
    requires forall i :: 0 <= i < |items| ==> Printable(items[i])
    decreases items, 0
  {
    if items == [] then []
    else Print(items[0]) + (if |items| == 1 then [] else "," + PrintItems(items[1..]))
  }

  function PrintMembers(members: seq<Member>): string
    requires forall i :: 0 <= i < |members| ==> Printable(members[i].value)
    decreases members, 0
  {
    if members == [] then []
    else Quote(members[0].key) + ":" + Print(members[0].value) + (if |members| == 1 then [] else "," + PrintMembers(members[1..]))
  }

  // --- reading ---

  predicate IsWhitespace(c: char) {
    c == ' ' || c == '\t' || c == '\n' || c == '\r'
  }

  function SkipWhitespace(s: string): (rest: string)
    ensures |rest| <= |s|
  {
    if s != [] && IsWhitespace(s[0]) then SkipWhitespace(s[1..]) else s
  }

  function HexValue(c: char): Option<nat> {
    if '0' <= c <= '9' then Some(c as int - '0' as int)
    else if 'a' <= c <= 'f' then Some(c as int - 'a' as int + 10)
    else if 'A' <= c <= 'F' then Some(c as int - 'A' as int + 10)
    else None
  }

  function ParseHex4(s: string): (code: Option<nat>)
    ensures code.Some? ==> |s| >= 4 && code.value < 0x1_0000
  {
    if |s| < 4 || HexValue(s[0]).None? || HexValue(s[1]).None? || HexValue(s[2]).None? || HexValue(s[3]).None? then None
    else Some(HexValue(s[0]).value % 16 * 0x1000 + HexValue(s[1]).value % 16 * 0x100 + HexValue(s[2]).value % 16 * 0x10 + HexValue(s[3]).value % 16)
  }

  /** The character of a `\u` escape, whose four digits start `s`; a surrogate pair takes two escapes. */
  function ParseUnicodeEscape(s: string): (r: Parsed<char>)
    ensures r.Done? ==> |r.rest| < |s|
  {
    var code := ParseHex4(s);
    if code.None? then Fail
    else if code.value < 0xD800 || code.value >= 0xE000 then Done(code.value as char, s[4..])
    else
      var low := if |s| >= 10 && s[4] == '\\' && s[5] == 'u' then ParseHex4(s[6..]) else None;
      if code.value < 0xDC00 && low.Some? && 0xDC00 <= low.value < 0xE000 then
        Done((0x1_0000 + (code.value - 0xD800) * 0x400 + (low.value - 0xDC00)) as char, s[10..])
      else Done('\U{FFFD}', s[4..])
  }

  function ParseEscape(s: string): (r: Parsed<char>)
    ensures r.Done? ==> |r.rest| < |s|
  {
    if s == [] then Fail
    else if s[0] == '"' || s[0] == '\\' || s[0] == '/' then Done(s[0], s[1..])
    else if s[0] == 'b' then Done(8 as char, s[1..])
    else if s[0] == 'f' then Done(12 as char, s[1..])
    else if s[0] == 'n' then Done('\n', s[1..])
    else if s[0] == 'r' then Done('\r', s[1..])
    else if s[0] == 't' then Done('\t', s[1..])
    else if s[0] == 'u' then ParseUnicodeEscape(s[1..])
    else Fail
  }

  /** The body of a string, after its opening quote. */
  function ParseString(s: string): (r: Parsed<string>)
    ensures r.Done? ==> |r.rest| < |s|
    decreases |s|
  {
    if s == [] || s[0] as int < 0x20 then Fail
    else if s[0] == '"' then Done([], s[1..])
    else if s[0] == '\\' then
      var escaped := ParseEscape(s[1..]);
      if escaped.Fail? then Fail else PrependChar(escaped.value, ParseString(escaped.rest))
    else PrependChar(s[0], ParseString(s[1..]))
  }

  function PrependChar(c: char, r: Parsed<string>): Parsed<string> {
    if r.Fail? then Fail else Done([c] + r.value, r.rest)
  }

  function DigitsLength(s: string): (n: nat)
    ensures n <= |s| && AllDigits(s[..n]) && (n < |s| ==> !IsDigit(s[n]))
  {
    if s == [] || !IsDigit(s[0]) then 0
    else
      var n := DigitsLength(s[1..]);
      assert s[..n + 1] == [s[0]] + s[1..][..n];
      n + 1
  }

  /** The optional exponent at the start of `s`, as a signed power of ten. */
  function ParseExponent(s: string): (r: Parsed<int>)
    ensures r.Done? ==> |r.rest| <= |s|
  {
    if s == [] || (s[0] != 'e' && s[0] != 'E') then Done(0, s)
    else
      var signed := |s| > 1 && (s[1] == '+' || s[1] == '-');
      var digits := if signed then s[2..] else s[1..];
      var n := DigitsLength(digits);
      if n == 0 then Fail
      else
        var power: int := NatValue(digits[..n]);
        Done(if signed && s[1] == '-' then -power else power, digits[n..])
  }

  function Scale(mantissa: real, exponent: int): real {
    if exponent >= 0 then mantissa * Pow10(exponent) as real else mantissa / Pow10(-exponent) as real
  }

  /** A number without its sign. */
  function ParseMagnitude(s: string): (r: Parsed<real>)
    ensures r.Done? ==> |r.rest| < |s|
  {
    var n := DigitsLength(s);
    if n == 0 || (n > 1 && s[0] == '0') then Fail
    else
      var fraction := if n < |s| && s[n] == '.' then DigitsLength(s[n + 1..]) else 0;
      if n < |s| && s[n] == '.' && fraction == 0 then Fail
      else
        var afterFraction := if n < |s| && s[n] == '.' then s[n + 1 + fraction..] else s[n..];
        var whole := NatValue(s[..n]) as real;
        var part := if fraction == 0 then 0.0 else NatValue(s[n + 1..][..fraction]) as real / Pow10(fraction) as real;
        var exponent := ParseExponent(afterFraction);
        if exponent.Fail? then Fail else Done(Scale(whole + part, exponent.value), exponent.rest)
  }

  function ParseNumber(s: string): (r: Parsed<real>)
    ensures r.Done? ==> |r.rest| < |s|
  {
    if s != [] && s[0] == '-' then
      var magnitude := ParseMagnitude(s[1..]);
      if magnitude.Fail? then Fail else Done(-magnitude.value, magnitude.rest)
    else ParseMagnitude(s)
  }

  /** A value, after any whitespace. */
  function ParseValue(s: string): (r: Parsed<Json>)
    ensures r.Done? ==> |r.rest| < |s|
    decreases |s|, 1
  {
    var t := SkipWhitespace(s);
    if t == [] then Fail
    else if "null" <= t then Done(Null, t[4..])
    else if "true" <= t then Done(Bool(true), t[4..])
    else if "false" <= t then Done(Bool(false), t[5..])
    else if t[0] == '"' then
      var text := ParseString(t[1..]);
      if text.Fail? then Fail else Done(Str(text.value), text.rest)
    else if t[0] == '[' then
      var inner := SkipWhitespace(t[1..]);
      if inner != [] && inner[0] == ']' then Done(Arr([]), inner[1..])
      else
        var items := ParseItems(t[1..]);
        if items.Fail? then Fail else Done(Arr(items.value), items.rest)
    else if t[0] == '{' then
      var inner := SkipWhitespace(t[1..]);
      if inner != [] && inner[0] == '}' then Done(Obj([]), inner[1..])
      else
        var members := ParseMembers(t[1..]);
        if members.Fail? then Fail else Done(Obj(members.value), members.rest)
    else
      var number := ParseNumber(t);
      if number.Fail? then Fail else Done(Num(number.value), number.rest)
  }

  function ParseItems(s: string): (r: Parsed<seq<Json>>)
    ensures r.Done? ==> |r.rest| < |s|
    decreases |s|, 2
  {
    var item := ParseValue(s);
    if item.Fail? then Fail
    else
      var t := SkipWhitespace(item.rest);
      if t == [] then Fail
      else if t[0] == ']' then Done([item.value], t[1..])
      else if t[0] != ',' then Fail
      else
        var items := ParseItems(t[1..]);
        if items.Fail? then Fail else Done([item.value] + items.value, items.rest)
  }

  function ParseMembers(s: string): (r: Parsed<seq<Member>>)
    ensures r.Done? ==> |r.rest| < |s|
    decreases |s|, 2
  {
    var k := SkipWhitespace(s);
    if k == [] || k[0] != '"' then Fail
    else
      var key := ParseString(k[1..]);
      if key.Fail? then Fail
      else
        var colon := SkipWhitespace(key.rest);
        if colon == [] || colon[0] != ':' then Fail
        else
          var member := ParseValue(colon[1..]);
          if member.Fail? then Fail
          else
            var t := SkipWhitespace(member.rest);
            if t == [] then Fail
            else if t[0] == '}' then Done([Member(key.value, member.value)], t[1..])
            else if t[0] != ',' then Fail
            else
              var members := ParseMembers(t[1..]);
              if members.Fail? then Fail else Done([Member(key.value, member.value)] + members.value, members.rest)
  }

  /** A whole text: one value and nothing else but whitespace. */
  function Parse(s: string): Option<Json> {
    var value := ParseValue(s);
    if value.Done? && SkipWhitespace(value.rest) == [] then Some(value.value) else None
  }

  /** Property access on a parsed object: the last member of that name wins; other values have no members. */
  function Get(v: Json, key: string): Option<Json> {
    if v.Obj? then GetMember(v.members, key) else None
  }

  function GetMember(members: seq<Member>, key: string): Option<Json> {
    if members == [] then None
    else if members[|members| - 1].key == key then Some(members[|members| - 1].value)
    else GetMember(members[..|members| - 1], key)
  }

  // --- reading back what was written ---

  /** What may follow a value without changing how it is read. */
  predicate Delimited(rest: string) {
    rest == [] || (!IsDigit(rest[0]) && rest[0] != '.' && rest[0] != 'e' && rest[0] != 'E')
  }

  lemma {:induction false} DigitsLengthOf(digits: string, rest: string)
    requires AllDigits(digits) && (rest == [] || !IsDigit(rest[0]))
    ensures DigitsLength(digits + rest) == |digits|
  {
    if digits == [] {
      assert digits + rest == rest;
    } else {
      assert (digits + rest)[1..] == digits[1..] + rest;
      DigitsLengthOf(digits[1..], rest);
    }
  }

  lemma MagnitudeRoundTrip(n: nat, rest: string)
    requires Delimited(rest)
    ensures ParseMagnitude(FromNat(n) + rest) == Done(n as real, rest)
  {
    hide DigitsLength, NatValue, FromNat;
    var digits := FromNat(n);
    DigitsLengthOf(digits, rest);
    NatRoundTrip(n);
    assert (digits + rest)[..|digits|] == digits && (digits + rest)[|digits|..] == rest;
    assert (digits + rest)[0] == digits[0];
  }

  lemma NumberRoundTrip(n: int, rest: string)
    requires Delimited(rest)
    ensures ParseNumber(FromInt(n) + rest) == Done(n as real, rest)
    ensures IsDigit((FromInt(n) + rest)[0]) || (FromInt(n) + rest)[0] == '-'
  {
    hide ParseMagnitude, FromNat;
    if n < 0 {
      MagnitudeRoundTrip(-n, rest);
      assert (FromInt(n) + rest)[1..] == FromNat(-n) + rest;
    } else {
      MagnitudeRoundTrip(n, rest);
      assert (FromNat(n) + rest)[0] == FromNat(n)[0];
    }
  }

  lemma EscapeCharRoundTrip(c: char, rest: string)
    ensures ParseString(EscapeChar(c) + rest) == PrependChar(c, ParseString(rest))
  {
    var s := EscapeChar(c) + rest;
    if |EscapeChar(c)| == 1 {
      assert s[1..] == rest;
    } else if |EscapeChar(c)| == 2 {
      assert s[1..][1..] == rest;
    } else {
      ControlEscape(c, rest);
    }
  }

  lemma ControlEscape(c: char, rest: string)
    requires |EscapeChar(c)| > 2
    ensures ParseString(EscapeChar(c) + rest) == PrependChar(c, ParseString(rest))
  {
    var s := EscapeChar(c) + rest;
    var tail := s[2..];
    assert s[1..][1..] == tail;
    assert tail[0] == '0' && tail[1] == '0' && tail[2] == HexDigit(c as int / 16) && tail[3] == HexDigit(c as int % 16);
    assert tail[4..] == rest;
    assert ParseHex4(tail) == Some(c as int);
    assert ParseEscape(s[1..]) == Done(c, rest);
  }

  lemma {:induction false} StringRoundTrip(s: string, rest: string)
    ensures ParseString(Escape(s) + "\"" + rest) == Done(s, rest)
  {
    if s == [] {
      assert Escape(s) + "\"" + rest == "\"" + rest;
    } else {
      var tail := Escape(s[1..]) + "\"" + rest;
      assert Escape(s) + "\"" + rest == EscapeChar(s[0]) + tail;
      StringRoundTrip(s[1..], rest);
      EscapeCharRoundTrip(s[0], tail);
      assert [s[0]] + s[1..] == s;
    }
  }

  /** A written value starts with a character no whitespace, bracket or delimiter test stops at. */
  lemma PrintStart(v: Json)
    requires Printable(v)
    ensures !IsWhitespace(Print(v)[0]) && Print(v)[0] != ']' && Print(v)[0] != '}'
  {
    if v.Num? {
      NumberRoundTrip(v.value.Floor, []);
      assert (FromInt(v.value.Floor) + [])[0] == FromInt(v.value.Floor)[0];
    }
  }

  lemma NumberValueRoundTrip(n: int, rest: string)
    requires Delimited(rest)
    ensures ParseValue(FromInt(n) + rest) == Done(Num(n as real), rest)
  {
    hide ParseNumber, FromInt;
    NumberRoundTrip(n, rest);
    var s := FromInt(n) + rest;
    assert SkipWhitespace(s) == s;
    assert s[0] != 'n' && s[0] != 't' && s[0] != 'f';
  }

  lemma StringValueRoundTrip(text: string, rest: string)
    ensures ParseValue(Quote(text) + rest) == Done(Str(text), rest)
  {
    hide ParseString, Escape;
    var s := Quote(text) + rest;
    assert s[1..] == Escape(text) + "\"" + rest;
    assert SkipWhitespace(s) == s;
    StringRoundTrip(text, rest);
  }

  /** Reading back what was written gives the same value and leaves what follows it. */
  lemma {:induction false} ValueRoundTrip(v: Json, rest: string)
    requires Printable(v) && Delimited(rest)
    ensures ParseValue(Print(v) + rest) == Done(v, rest)
    decreases v, 1
  {
    hide ParseValue, ParseItems, ParseMembers;
    match v
    case Null => LiteralRoundTrip(rest);
    case Bool(b) => LiteralRoundTrip(rest);
    case Num(value) => NumberValueRoundTrip(value.Floor, rest);
    case Str(s) => StringValueRoundTrip(s, rest);
    case Arr(items) =>
      if items == [] {
        EmptyContainer(rest);
        assert Print(v) == "[]";
      } else {
        ItemsRoundTrip(items, rest);
        PrintStart(items[0]);
        ArrayFromItems(items, rest);
      }
    case Obj(members) =>
      if members == [] {
        EmptyContainer(rest);
        assert Print(v) == "{}";
      } else {
        MembersRoundTrip(members, rest);
        ObjectFromMembers(members, rest);
      }
  }

  lemma LiteralRoundTrip(rest: string)
    ensures ParseValue("null" + rest) == Done(Null, rest)
    ensures ParseValue("true" + rest) == Done(Bool(true), rest)
    ensures ParseValue("false" + rest) == Done(Bool(false), rest)
  {
    assert ("null" + rest)[4..] == rest && ("true" + rest)[4..] == rest && ("false" + rest)[5..] == rest;
    assert SkipWhitespace("null" + rest) == "null" + rest;
    assert SkipWhitespace("true" + rest) == "true" + rest;
    assert SkipWhitespace("false" + rest) == "false" + rest;
  }

  lemma EmptyContainer(rest: string)
    ensures ParseValue("[]" + rest) == Done(Arr([]), rest)
    ensures ParseValue("{}" + rest) == Done(Obj([]), rest)
  {
    var a, o := "[]" + rest, "{}" + rest;
    assert a[1..] == "]" + rest && o[1..] == "}" + rest;
    assert SkipWhitespace(a) == a && SkipWhitespace(o) == o;
    assert SkipWhitespace(a[1..]) == a[1..] && SkipWhitespace(o[1..]) == o[1..];
  }

  lemma ArrayFromItems(items: seq<Json>, rest: string)
    requires items != [] && Printable(Arr(items))
    requires !IsWhitespace(Print(items[0])[0]) && Print(items[0])[0] != ']'
    requires ParseItems(PrintItems(items) + "]" + rest) == Done(items, rest)
    ensures ParseValue("[" + PrintItems(items) + "]" + rest) == Done(Arr(items), rest)
  {
    hide ParseItems, Print;
    var s := "[" + PrintItems(items) + "]" + rest;
    assert s[1..] == PrintItems(items) + "]" + rest;
    assert s[1..][0] == Print(items[0])[0];
    assert SkipWhitespace(s) == s && SkipWhitespace(s[1..]) == s[1..];
  }

  lemma ObjectFromMembers(members: seq<Member>, rest: string)
    requires members != [] && Printable(Obj(members))
    requires ParseMembers(PrintMembers(members) + "}" + rest) == Done(members, rest)
    ensures ParseValue("{" + PrintMembers(members) + "}" + rest) == Done(Obj(members), rest)
  {
    hide ParseMembers, Print, Escape;
    var s := "{" + PrintMembers(members) + "}" + rest;
    assert s[1..] == PrintMembers(members) + "}" + rest;
    assert s[1..][0] == '"';
    assert SkipWhitespace(s) == s && SkipWhitespace(s[1..]) == s[1..];
  }

  lemma FirstItem(item: Json, text: string, after: string)
    requires ParseValue(text + after) == Done(item, after)
    requires after != [] && SkipWhitespace(after) == after
    ensures ParseItems(text + after)
            == if after[0] == ']' then Done([item], after[1..])
               else if after[0] != ',' || ParseItems(after[1..]).Fail? then Fail
               else Done([item] + ParseItems(after[1..]).value, ParseItems(after[1..]).rest)
  {
    hide ParseValue;
  }

  lemma {:induction false} ItemsRoundTrip(items: seq<Json>, rest: string)
    requires items != [] && forall i :: 0 <= i < |items| ==> Printable(items[i])
    ensures ParseItems(PrintItems(items) + "]" + rest) == Done(items, rest)
    decreases items, 0
  {
    hide Print, ParseValue, ParseItems, Printable;
    var text := Print(items[0]);
    var after := (if |items| == 1 then [] else "," + PrintItems(items[1..])) + "]" + rest;
    assert PrintItems(items) + "]" + rest == text + after;
    hide PrintItems;
    ValueRoundTrip(items[0], after);
    FirstItem(items[0], text, after);
    if |items| == 1 {
      assert after[1..] == rest && items == [items[0]];
    } else {
      ItemsRoundTrip(items[1..], rest);
      assert after[1..] == PrintItems(items[1..]) + "]" + rest;
      assert items == [items[0]] + items[1..];
    }
  }

  lemma KeyRoundTrip(key: string, after: string)
    ensures var s := Quote(key) + ":" + after;
            s != [] && SkipWhitespace(s) == s && s[0] == '"' && ParseString(s[1..]) == Done(key, ":" + after)
  {
    hide ParseString, Escape;
    var s := Quote(key) + ":" + after;
    assert s[1..] == Escape(key) + "\"" + (":" + after);
    StringRoundTrip(key, ":" + after);
  }

  lemma FirstMember(member: Member, text: string, after: string)
    requires ParseValue(text + after) == Done(member.value, after)
    requires after != [] && SkipWhitespace(after) == after
    ensures ParseMembers(Quote(member.key) + ":" + (text + after))
            == if after[0] == '}' then Done([member], after[1..])
               else if after[0] != ',' || ParseMembers(after[1..]).Fail? then Fail
               else Done([member] + ParseMembers(after[1..]).value, ParseMembers(after[1..]).rest)
  {
    hide ParseValue, ParseString, Quote;
    KeyRoundTrip(member.key, text + after);
    var colon := ":" + (text + after);
    assert colon[1..] == text + after && SkipWhitespace(colon) == colon;
  }

  lemma {:induction false} MembersRoundTrip(members: seq<Member>, rest: string)
    requires members != [] && forall i :: 0 <= i < |members| ==> Printable(members[i].value)
    ensures ParseMembers(PrintMembers(members) + "}" + rest) == Done(members, rest)
    decreases members, 0
  {
    hide Print, ParseValue, ParseMembers, Quote, Printable;
    var text := Print(members[0].value);
    var after := (if |members| == 1 then [] else "," + PrintMembers(members[1..])) + "}" + rest;
    assert PrintMembers(members) + "}" + rest == Quote(members[0].key) + ":" + (text + after);
    hide PrintMembers;
    ValueRoundTrip(members[0].value, after);
    FirstMember(members[0], text, after);
    if |members| == 1 {
      assert after[1..] == rest && members == [members[0]];
    } else {
      MembersRoundTrip(members[1..], rest);
      assert after[1..] == PrintMembers(members[1..]) + "}" + rest;
      assert members == [members[0]] + members[1..];
    }
  }

  /** `JSON.parse(JSON.stringify(v))` is `v`. */
  lemma ParsePrint(v: Json)
    requires Printable(v)
    ensures Parse(Print(v)) == Some(v)
  {
    ValueRoundTrip(v, []);
    assert Print(v) + [] == Print(v);
  }

  /** After a whole value only whitespace is let through; anything else makes the text unreadable. */
  lemma TrailingText(v: Json, rest: string)
    requires Printable(v) && Delimited(rest)
    ensures Parse(Print(v) + rest) == if forall i :: 0 <= i < |rest| ==> IsWhitespace(rest[i]) then Some(v) else None
  {
    hide ParseValue, Print;
    ValueRoundTrip(v, rest);
    SkipsAll(rest);
  }

  lemma {:induction false} SkipsAll(s: string)
    ensures SkipWhitespace(s) == [] <==> forall i :: 0 <= i < |s| ==> IsWhitespace(s[i])
  {
    if s != [] && IsWhitespace(s[0]) {
      SkipsAll(s[1..]);
      assert forall i :: 0 < i < |s| ==> s[i] == s[1..][i - 1];
    }
  }
}
