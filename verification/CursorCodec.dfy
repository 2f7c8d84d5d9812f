/** The opaque page cursor: base64url over a small JSON object, decoded forgivingly. */
module CursorCodec {
  import opened Wrappers
  import opened Decimals
  import Utf8
  import Base64Url
  import opened Json

  const MAX_RAW_LENGTH := 256
  const MAX_ID_STRING_LENGTH := 64
  const MAX_FILTER_HASH_LENGTH := 64

  datatype CursorId = NumberId(n: int) | StringId(s: string)

  datatype CursorPayload = CursorPayload(id: CursorId, createdAtMs: int, filterHash: Option<string>)

  /** Length as JavaScript counts it, in UTF-16 code units. */
  function Utf16Length(s: string): (n: nat)
    ensures n >= |s|
  {
    if s == [] then 0 else (if s[0] as int > 0xFFFF then 2 else 1) + Utf16Length(s[1..])
  }

  function IdJson(id: CursorId): Json {
    if id.NumberId? then Num(id.n as real) else Str(id.s)
  }

  function Members(payload: CursorPayload): seq<Member> {
    [Member("id", IdJson(payload.id)), Member("createdAtMs", Num(payload.createdAtMs as real))]
    + if payload.filterHash.Some? then [Member("filterHash", Str(payload.filterHash.value))] else []
  }

  function Text(payload: CursorPayload): string {
    Print(Obj(Members(payload)))
  }

  function EncodeCursor(payload: CursorPayload): string {
    Base64Url.Encode(Utf8.Encode(Text(payload)))
  }

  function DecodeId(id: Option<Json>): Option<CursorId> {
    if id.None? then None
    else match id.value
      case Num(value) => if value == value.Floor as real && value >= 0.0 then Some(NumberId(value.Floor)) else None
      case Str(s) => if s == [] || Utf16Length(s) > MAX_ID_STRING_LENGTH || !AllDigits(s) then None else Some(StringId(s))
      case _ => None
  }

  function DecodeCursor(raw: Option<string>): Option<CursorPayload> {
    if raw.None? || raw.value == [] || Utf16Length(raw.value) > MAX_RAW_LENGTH then None
    else
      var parsed := Parse(Utf8.Decode(Base64Url.Decode(raw.value)));
      if parsed.None? then None else DecodeRecord(parsed.value)
  }

  /** The checks on the parsed value; a value that is no object has no properties and fails the first of them. */
  function DecodeRecord(record: Json): Option<CursorPayload> {
    var id, createdAtMs, filterHash := DecodeId(Get(record, "id")), Get(record, "createdAtMs"), Get(record, "filterHash");
    if id.None? then None
    else if createdAtMs.None? || !createdAtMs.value.Num? || createdAtMs.value.value != createdAtMs.value.value.Floor as real then None
    else if filterHash.None? then Some(CursorPayload(id.value, createdAtMs.value.value.Floor, None))
    else if !filterHash.value.Str? || filterHash.value.s == [] || Utf16Length(filterHash.value.s) > MAX_FILTER_HASH_LENGTH then None
    else Some(CursorPayload(id.value, createdAtMs.value.value.Floor, Some(filterHash.value.s)))
  }

  /** What a decoded cursor always is, and what an encoded one must be to come back. */
  predicate WellFormed(payload: CursorPayload) {
    && (match payload.id
        case NumberId(n) => n >= 0
        case StringId(s) => s != [] && Utf16Length(s) <= MAX_ID_STRING_LENGTH && AllDigits(s))
    && (payload.filterHash.Some? ==> payload.filterHash.value != [] && Utf16Length(payload.filterHash.value) <= MAX_FILTER_HASH_LENGTH)
  }

  lemma {:induction false} AsciiUtf16(s: string)
    requires forall i :: 0 <= i < |s| ==> s[i] as int < 0x80
    ensures Utf16Length(s) == |s|
  {
    if s != [] {
      AsciiUtf16(s[1..]);
    }
  }

  lemma GetMemberSnoc(members: seq<Member>, last: Member, key: string)
    ensures GetMember(members + [last], key) == if last.key == key then Some(last.value) else GetMember(members, key)
  {
    assert (members + [last])[..|members|] == members;
  }

  lemma RecordRoundTrip(payload: CursorPayload)
    ensures DecodeRecord(Obj(Members(payload))) == if WellFormed(payload) then Some(payload) else None
  {
    var id, at := Member("id", IdJson(payload.id)), Member("createdAtMs", Num(payload.createdAtMs as real));
    var record := Obj(Members(payload));
    assert "id" != "createdAtMs" && "id" != "filterHash" && "createdAtMs" != "filterHash";
    forall key: string
      ensures Get(record, key) == if payload.filterHash.Some? && key == "filterHash" then Some(Str(payload.filterHash.value))
                                  else if key == "createdAtMs" then Some(at.value) else if key == "id" then Some(id.value) else None
    {
      GetMemberSnoc([], id, key);
      GetMemberSnoc([id], at, key);
      assert [] + [id] == [id] && [id] + [at] == [id, at];
      if payload.filterHash.Some? {
        GetMemberSnoc([id, at], Member("filterHash", Str(payload.filterHash.value)), key);
      } else {
        assert [id, at] + [] == [id, at];
      }
    }
  }

  /** Decoding an encoded cursor gives it back exactly when it is well formed and its text is within the length cap, and otherwise nothing. */
  lemma CursorRoundTrip(payload: CursorPayload)
    ensures DecodeCursor(Some(EncodeCursor(payload)))
            == if WellFormed(payload) && |EncodeCursor(payload)| <= MAX_RAW_LENGTH then Some(payload) else None
  {
    hide Base64Url.Encode, Base64Url.Decode, Utf8.Encode, Utf8.Decode, Print, Parse, DecodeRecord, WellFormed;
    var text, raw := Text(payload), EncodeCursor(payload);
    Base64Url.RoundTrip(Utf8.Encode(text));
    Utf8.RoundTrip(text);
    ParsePrint(Obj(Members(payload)));
    RecordRoundTrip(payload);
    AsciiUtf16(raw);
    NonEmptyEncoding(text);
  }

  lemma NonEmptyEncoding(text: string)
    requires text != []
    ensures Utf8.Encode(text) != []
  {
  }

  /** Nothing malformed is ever decoded, whatever the input. */
  lemma DecodedIsWellFormed(raw: Option<string>)
    requires DecodeCursor(raw).Some?
    ensures WellFormed(DecodeCursor(raw).value)
  {
    hide Parse, Base64Url.Decode, Utf8.Decode, Get;
  }

  /** What can come out of the decoder: a number id that is a natural number, or one to 64 digits; a fingerprint, if any, of one to 64 units; from at most 256 units of text. */
  lemma DecodedInNumbers(raw: Option<string>)
    requires DecodeCursor(raw).Some?
    ensures raw.Some? && 0 < Utf16Length(raw.value) <= 256
    ensures match DecodeCursor(raw).value.id
            case NumberId(n) => n >= 0
            case StringId(s) => 1 <= |s| <= 64 && forall i :: 0 <= i < |s| ==> '0' <= s[i] <= '9'
    ensures var filterHash := DecodeCursor(raw).value.filterHash; filterHash.Some? ==> 1 <= Utf16Length(filterHash.value) <= 64
  {
    hide DecodeCursor;
    DecodedIsWellFormed(raw);
    DecodedIsShort(raw);
    match DecodeCursor(raw).value.id
    case NumberId(_) =>
    case StringId(s) => AsciiUtf16(s);
  }

  lemma DecodedIsShort(raw: Option<string>)
    requires DecodeCursor(raw).Some?
    ensures raw.Some? && raw.value != [] && Utf16Length(raw.value) <= 256
  {
    hide Parse, Base64Url.Decode, Utf8.Decode, Get;
  }

  // --- the size of what is encoded ---

  /** Printable ASCII that JSON writes as itself. */
  predicate Plain(s: string) {
    forall i :: 0 <= i < |s| ==> 0x20 <= s[i] as int < 0x80 && s[i] != '"' && s[i] != '\\'
  }

  predicate Ascii(s: string) {
    forall i :: 0 <= i < |s| ==> s[i] as int < 0x80
  }

  lemma {:induction false} PlainEscape(s: string)
    requires Plain(s)
    ensures Escape(s) == s
  {
    if s != [] {
      PlainEscape(s[1..]);
      assert [s[0]] + s[1..] == s;
    }
  }

  lemma PlainQuote(s: string)
    requires Plain(s)
    ensures |Quote(s)| == |s| + 2 && Ascii(Quote(s))
  {
    PlainEscape(s);
  }

  lemma PrintedPayload(payload: CursorPayload)
    ensures Text(payload) == "{" + Quote("id") + ":" + Print(IdJson(payload.id)) + "," + Quote("createdAtMs") + ":" + FromInt(payload.createdAtMs)
                             + (if payload.filterHash.Some? then "," + Quote("filterHash") + ":" + Quote(payload.filterHash.value) else []) + "}"
  {
    hide Quote, Escape, FromInt;
    var members := Members(payload);
    assert Print(members[1].value) == FromInt(payload.createdAtMs);
    if payload.filterHash.Some? {
      assert members[1..][1..] == [members[2]];
      assert PrintMembers([members[2]]) == Quote("filterHash") + ":" + Quote(payload.filterHash.value);
      assert PrintMembers(members[1..]) == Quote("createdAtMs") + ":" + FromInt(payload.createdAtMs) + ("," + PrintMembers([members[2]]));
    } else {
      assert members[1..] == [members[1]];
      assert PrintMembers(members[1..]) == Quote("createdAtMs") + ":" + FromInt(payload.createdAtMs);
    }
    assert PrintMembers(members) == Quote("id") + ":" + Print(IdJson(payload.id)) + ("," + PrintMembers(members[1..]));
  }

  lemma SafeIntegerLength(n: int)
    requires -0x20_0000_0000_0000 < n < 0x20_0000_0000_0000
    ensures |FromInt(n)| <= 17 && Ascii(FromInt(n))
  {
    assert Pow10(4) == 10_000;
    assert Pow10(8) == 10 * (10 * (10 * (10 * Pow10(4))));
    assert Pow10(12) == 10 * (10 * (10 * (10 * Pow10(8))));
    assert Pow10(16) == 10 * (10 * (10 * (10 * Pow10(12))));
    DigitCount(if n < 0 then -n else n, 16);
  }

  /** A digit id and a plain hash of up to 64 characters each, with a safe-integer time, always fit the decode cap. */
  lemma EncodingFits(payload: CursorPayload)
    requires payload.id.StringId? && AllDigits(payload.id.s) && |payload.id.s| <= MAX_ID_STRING_LENGTH
    requires -0x20_0000_0000_0000 < payload.createdAtMs < 0x20_0000_0000_0000
    requires payload.filterHash.Some? ==> Plain(payload.filterHash.value) && |payload.filterHash.value| <= MAX_FILTER_HASH_LENGTH
    ensures |EncodeCursor(payload)| <= MAX_RAW_LENGTH
  {
    hide Quote, Escape, FromInt, Utf8.Encode, Base64Url.Encode, Text;
    PrintedPayload(payload);
    PlainQuote("id");
    PlainQuote("createdAtMs");
    PlainQuote("filterHash");
    PlainQuote(payload.id.s);
    if payload.filterHash.Some? {
      PlainQuote(payload.filterHash.value);
    }
    SafeIntegerLength(payload.createdAtMs);
    assert Print(IdJson(payload.id)) == Quote(payload.id.s);
    assert |Text(payload)| <= 185 && Ascii(Text(payload));
    Utf8.AsciiLength(Text(payload));
    Base64Url.RoundTrip(Utf8.Encode(Text(payload)));
  }
}
