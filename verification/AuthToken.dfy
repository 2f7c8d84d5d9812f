/** Issuing a bearer token, and the two services that verify it. The signature is an arbitrary function of the signed text. */
module AuthToken {
  import opened Wrappers
  import Utf8
  import Base64Url
  import opened Json

  /** base64url of `{"alg":"HS256","typ":"JWT"}`. */
  const AUTH_HS256_HEADER_B64URL := "eyJhbGciOiJIUzI1NiIsInR5cCI6IkpXVCJ9"
  const AUTH_TOKEN_DEFAULT_TTL_SEC := 15 * 60
  const AUTH_TOKEN_DEFAULT_AUDIENCE := "engine"
  const MCP_AUTH_REQUIRED_AUDIENCE := "mcp"

  type Signer = string -> seq<Utf8.byte>

  datatype AuthScope = READ | HALT | ADMIN

  datatype FailureReason = EXPIRED | REVOKED | MALFORMED | MISSING | BAD_SIGNATURE | BAD_AUDIENCE

  datatype Claims = Claims(sub: string, jti: string, scopes: seq<AuthScope>, iat: int, exp: int, aud: string)

  datatype IssuedToken = IssuedToken(token: string, jti: string, exp: int)

  datatype Subject = Subject(sub: string, jti: string, scopes: seq<AuthScope>, iat: real, exp: real)

  datatype VerifiedBearer = VerifiedBearer(sub: string, aud: string, jti: string, exp: real)

  function ScopeName(scope: AuthScope): string {
    match scope case READ => "read" case HALT => "halt" case ADMIN => "admin"
  }

  function ScopeOf(v: Json): Option<AuthScope> {
    if v == Str("read") then Some(READ)
    else if v == Str("halt") then Some(HALT)
    else if v == Str("admin") then Some(ADMIN)
    else None
  }

  function ScopeItems(scopes: seq<AuthScope>): (items: seq<Json>)
    ensures |items| == |scopes|
  {
    if scopes == [] then [] else [Str(ScopeName(scopes[0]))] + ScopeItems(scopes[1..])
  }

  /** Every item a known scope name, or nothing. */
  function ScopesOf(items: seq<Json>): Option<seq<AuthScope>> {
    if items == [] then Some([])
    else if ScopeOf(items[0]).None? || ScopesOf(items[1..]).None? then None
    else Some([ScopeOf(items[0]).value] + ScopesOf(items[1..]).value)
  }

  function Payload(claims: Claims): Json {
    Obj([Member("sub", Str(claims.sub)), Member("jti", Str(claims.jti)), Member("scopes", Arr(ScopeItems(claims.scopes))),
         Member("iat", Num(claims.iat as real)), Member("exp", Num(claims.exp as real)), Member("aud", Str(claims.aud))])
  }

  function Signature(text: string, sign: Signer): string {
    Base64Url.Encode(sign(text))
  }

  function ClaimsFor(sub: string, scopes: seq<AuthScope>, ttlSec: int, nowMs: int, aud: Option<string>, jti: string): Claims {
    var iat := nowMs / 1000;
    Claims(sub, jti, scopes, iat, iat + (if ttlSec > 0 then ttlSec else AUTH_TOKEN_DEFAULT_TTL_SEC),
           if aud.None? || aud.value == [] then AUTH_TOKEN_DEFAULT_AUDIENCE else aud.value)
  }

  lemma PayloadPrintable(claims: Claims)
    ensures Printable(Payload(claims))
  {
    ScopeItemsPrintable(claims.scopes);
  }

  lemma {:induction false} ScopeItemsPrintable(scopes: seq<AuthScope>)
    ensures forall i :: 0 <= i < |scopes| ==> ScopeItems(scopes)[i].Str?
  {
    if scopes != [] {
      ScopeItemsPrintable(scopes[1..]);
    }
  }

  function SignedText(claims: Claims): string {
    PayloadPrintable(claims);
    AUTH_HS256_HEADER_B64URL + "." + Base64Url.Encode(Utf8.Encode(Print(Payload(claims))))
  }

  /** The freshly drawn token id is an input. */
  function Issue(sub: string, scopes: seq<AuthScope>, ttlSec: int, nowMs: int, aud: Option<string>, jti: string, sign: Signer): IssuedToken {
    var claims := ClaimsFor(sub, scopes, ttlSec, nowMs, aud, jti);
    IssuedToken(SignedText(claims) + "." + Signature(SignedText(claims), sign), jti, claims.exp)
  }

  function Split(s: string): (parts: seq<string>)
    ensures |parts| >= 1
  {
    if s == [] then [[]]
    else
      var rest := Split(s[1..]);
      if s[0] == '.' then [[]] + rest else [[s[0]] + rest[0]] + rest[1..]
  }

  /** The shared front half of both verifiers: three segments, the fixed header, the signature, then the payload's JSON. */
  function OpenToken(token: string, sign: Signer): Result<Json, FailureReason> {
    var parts := Split(token);
    if |parts| != 3 || parts[0] != AUTH_HS256_HEADER_B64URL then Err(MALFORMED)
    else if Signature(parts[0] + "." + parts[1], sign) != parts[2] then Err(BAD_SIGNATURE)
    else
      var parsed := Parse(Utf8.Decode(Base64Url.Decode(parts[1])));
      if parsed.None? then Err(MALFORMED) else Ok(parsed.value)
  }

  predicate HasString(v: Json, key: string) {
    Get(v, key).Some? && Get(v, key).value.Str?
  }

  predicate HasNumber(v: Json, key: string) {
    Get(v, key).Some? && Get(v, key).value.Num?
  }

  predicate HasScopes(v: Json) {
    Get(v, "scopes").Some? && Get(v, "scopes").value.Arr? && ScopesOf(Get(v, "scopes").value.items).Some?
  }

  /** The engine's payload check: an audience is optional. */
  predicate EngineWellFormed(v: Json) {
    && HasString(v, "sub") && HasString(v, "jti") && HasNumber(v, "iat") && HasNumber(v, "exp")
    && HasScopes(v) && (Get(v, "aud").Some? ==> HasString(v, "aud"))
  }

  function EngineVerify(token: string, nowMs: int, sign: Signer): Result<Subject, FailureReason> {
    var payload := OpenToken(token, sign);
    if payload.Err? then Err(payload.error)
    else if !EngineWellFormed(payload.value) then Err(MALFORMED)
    else if Get(payload.value, "exp").value.value <= (nowMs / 1000) as real then Err(EXPIRED)
    else Ok(Subject(Get(payload.value, "sub").value.s, Get(payload.value, "jti").value.s, ScopesOf(Get(payload.value, "scopes").value.items).value,
                    Get(payload.value, "iat").value.value, Get(payload.value, "exp").value.value))
  }

  /** The MCP's payload check: an audience is required, scopes and issue time are not looked at. */
  predicate McpWellFormed(v: Json) {
    HasString(v, "sub") && HasString(v, "jti") && HasString(v, "aud") && HasNumber(v, "exp")
  }

  function McpVerify(token: string, nowMs: int, sign: Signer, revoked: set<string>): Result<VerifiedBearer, FailureReason> {
    if token == [] then Err(MISSING)
    else
      var payload := OpenToken(token, sign);
      if payload.Err? then Err(payload.error)
      else if !McpWellFormed(payload.value) then Err(MALFORMED)
      else
        var jti := Get(payload.value, "jti").value.s;
        if Get(payload.value, "exp").value.value <= (nowMs / 1000) as real then Err(EXPIRED)
        else if Get(payload.value, "aud").value.s != MCP_AUTH_REQUIRED_AUDIENCE then Err(BAD_AUDIENCE)
        else if jti in revoked then Err(REVOKED)
        else Ok(VerifiedBearer(Get(payload.value, "sub").value.s, Get(payload.value, "aud").value.s, jti, Get(payload.value, "exp").value.value))
  }

  // --- issued tokens ---

  lemma {:induction false} SplitFirst(segment: string, rest: string)
    requires forall i :: 0 <= i < |segment| ==> segment[i] != '.'
    ensures Split(segment + "." + rest) == [segment] + Split(rest)
    ensures Split(segment) == [segment]
  {
    if segment == [] {
      assert (segment + "." + rest)[1..] == rest;
    } else {
      SplitFirst(segment[1..], rest);
      assert (segment + "." + rest)[1..] == segment[1..] + "." + rest;
      assert [segment[0]] + segment[1..] == segment;
    }
  }

  lemma EncodedHasNoDot(bytes: seq<Utf8.byte>)
    ensures forall i :: 0 <= i < |Base64Url.Encode(bytes)| ==> Base64Url.Encode(bytes)[i] != '.'
  {
    hide Base64Url.Encode;
    Base64Url.RoundTrip(bytes);
  }

  lemma HeaderHasNoDot()
    ensures forall i :: 0 <= i < |AUTH_HS256_HEADER_B64URL| ==> AUTH_HS256_HEADER_B64URL[i] != '.'
  {
  }

  /** An issued token splits into its three segments and opens to the payload it was issued with. */
  lemma IssuedOpens(claims: Claims, sign: Signer)
    ensures var token := SignedText(claims) + "." + Signature(SignedText(claims), sign);
            token != [] && |Split(token)| == 3 && OpenToken(token, sign) == Ok(Payload(claims))
  {
    hide Base64Url.Encode, Base64Url.Decode, Utf8.Encode, Utf8.Decode, Print, Parse, Split, Payload, Printable;
    PayloadPrintable(claims);
    var bytes := Utf8.Encode(Print(Payload(claims)));
    var text := SignedText(claims);
    var body, signature := Base64Url.Encode(bytes), Signature(text, sign);
    HeaderHasNoDot();
    EncodedHasNoDot(bytes);
    EncodedHasNoDot(sign(text));
    assert text + "." + signature == AUTH_HS256_HEADER_B64URL + "." + (body + "." + signature);
    SplitFirst(AUTH_HS256_HEADER_B64URL, body + "." + signature);
    SplitFirst(body, signature);
    SplitFirst(signature, "");
    Base64Url.RoundTrip(bytes);
    Utf8.RoundTrip(Print(Payload(claims)));
    ParsePrint(Payload(claims));
  }

  lemma {:induction false} ScopesRoundTrip(scopes: seq<AuthScope>)
    ensures ScopesOf(ScopeItems(scopes)) == Some(scopes)
  {
    if scopes != [] {
      ScopesRoundTrip(scopes[1..]);
      assert ScopeOf(Str(ScopeName(scopes[0]))) == Some(scopes[0]);
      assert [scopes[0]] + scopes[1..] == scopes;
    }
  }

  lemma GetAt(members: seq<Member>, i: nat, key: string)
    requires i < |members| && members[i].key == key
    requires forall j :: i < j < |members| ==> members[j].key != key
    ensures GetMember(members, key) == Some(members[i].value)
    decreases |members|
  {
    if i < |members| - 1 {
      GetAt(members[..|members| - 1], i, key);
    }
  }

  lemma PayloadClaims(claims: Claims)
    ensures var v := Payload(claims);
            && Get(v, "sub") == Some(Str(claims.sub)) && Get(v, "jti") == Some(Str(claims.jti))
            && Get(v, "scopes") == Some(Arr(ScopeItems(claims.scopes)))
            && Get(v, "iat") == Some(Num(claims.iat as real)) && Get(v, "exp") == Some(Num(claims.exp as real))
            && Get(v, "aud") == Some(Str(claims.aud))
  {
    hide GetMember, ScopeItems;
    var members := Payload(claims).members;
    GetAt(members, 0, "sub");
    GetAt(members, 1, "jti");
    GetAt(members, 2, "scopes");
    GetAt(members, 3, "iat");
    GetAt(members, 4, "exp");
    GetAt(members, 5, "aud");
  }

  lemma PayloadWellFormed(claims: Claims)
    ensures EngineWellFormed(Payload(claims)) && McpWellFormed(Payload(claims))
  {
    hide Payload, Get, ScopesOf, ScopeItems;
    PayloadClaims(claims);
    ScopesRoundTrip(claims.scopes);
  }

  lemma ExpiresWithItsSecond(exp: int, laterMs: int)
    ensures exp as real <= (laterMs / 1000) as real <==> laterMs >= exp * 1000
  {
    assert exp as real <= (laterMs / 1000) as real <==> exp <= laterMs / 1000;
  }

  /**
   * The engine returns exactly the issued claims at every instant before their expiry second, and EXPIRED from then on:
   * no scope, identity or time is lost or altered on the way.
   */
  lemma EngineVerifiesIssued(sub: string, scopes: seq<AuthScope>, ttlSec: int, nowMs: int, aud: Option<string>, jti: string, laterMs: int, sign: Signer)
    ensures var issued := Issue(sub, scopes, ttlSec, nowMs, aud, jti, sign);
            EngineVerify(issued.token, laterMs, sign)
            == if laterMs >= issued.exp * 1000 then Err(EXPIRED)
               else Ok(Subject(sub, issued.jti, scopes, (nowMs / 1000) as real, issued.exp as real))
  {
    hide OpenToken, Payload, Get, ScopesOf, ScopeItems, SignedText, Signature, Split, EngineWellFormed;
    var claims := ClaimsFor(sub, scopes, ttlSec, nowMs, aud, jti);
    IssuedOpens(claims, sign);
    PayloadClaims(claims);
    PayloadWellFormed(claims);
    ScopesRoundTrip(scopes);
    ExpiresWithItsSecond(claims.exp, laterMs);
  }

  /** The MCP's whole verdict on an issued token. */
  lemma McpVerifiesIssued(sub: string, scopes: seq<AuthScope>, ttlSec: int, nowMs: int, aud: Option<string>, jti: string, laterMs: int, sign: Signer, revoked: set<string>)
    ensures var issued := Issue(sub, scopes, ttlSec, nowMs, aud, jti, sign);
            McpVerify(issued.token, laterMs, sign, revoked)
            == if laterMs >= issued.exp * 1000 then Err(EXPIRED)
               else if aud != Some(MCP_AUTH_REQUIRED_AUDIENCE) then Err(BAD_AUDIENCE)
               else if jti in revoked then Err(REVOKED)
               else Ok(VerifiedBearer(sub, MCP_AUTH_REQUIRED_AUDIENCE, jti, issued.exp as real))
  {
    hide OpenToken, Payload, Get, ScopeItems, SignedText, Signature, Split, McpWellFormed;
    var claims := ClaimsFor(sub, scopes, ttlSec, nowMs, aud, jti);
    IssuedOpens(claims, sign);
    PayloadClaims(claims);
    PayloadWellFormed(claims);
    ExpiresWithItsSecond(claims.exp, laterMs);
  }

  /** On issued tokens the MCP accepts exactly what the engine accepts, for its own audience and an unrevoked id. */
  lemma VerifiersAgreeOnIssued(sub: string, scopes: seq<AuthScope>, ttlSec: int, nowMs: int, aud: Option<string>, jti: string, laterMs: int, sign: Signer, revoked: set<string>)
    ensures var token := Issue(sub, scopes, ttlSec, nowMs, aud, jti, sign).token;
            McpVerify(token, laterMs, sign, revoked).Ok?
            <==> EngineVerify(token, laterMs, sign).Ok? && aud == Some(MCP_AUTH_REQUIRED_AUDIENCE) && jti !in revoked
  {
    hide Issue, EngineVerify, McpVerify;
    EngineVerifiesIssued(sub, scopes, ttlSec, nowMs, aud, jti, laterMs, sign);
    McpVerifiesIssued(sub, scopes, ttlSec, nowMs, aud, jti, laterMs, sign, revoked);
  }

  /**
   * On arbitrary tokens the two differ by exactly their payload checks: what the engine accepts, the MCP accepts for its
   * audience and an unrevoked id; what the MCP accepts, the engine accepts when issue time and scopes are there as well.
   */
  lemma VerifiersOnAnyToken(token: string, nowMs: int, sign: Signer, revoked: set<string>)
    ensures EngineVerify(token, nowMs, sign).Ok? ==>
              var payload := OpenToken(token, sign).value;
              McpVerify(token, nowMs, sign, revoked).Ok?
              <==> Get(payload, "aud") == Some(Str(MCP_AUTH_REQUIRED_AUDIENCE)) && EngineVerify(token, nowMs, sign).value.jti !in revoked
    ensures McpVerify(token, nowMs, sign, revoked).Ok? ==>
              var payload := OpenToken(token, sign).value;
              EngineVerify(token, nowMs, sign).Ok? <==> HasNumber(payload, "iat") && HasScopes(payload)
  {
    hide Signature, Parse, Get, ScopesOf, Base64Url.Decode, Utf8.Decode;
    assert Split("") == [""];
  }

  // --- every token ---

  predicate DotFree(s: string) {
    forall i :: 0 <= i < |s| ==> s[i] != '.'
  }

  /** A text that a signer's three-segment token starts with: the fixed header, a dot, and a segment. */
  function SignedPart(segment: string): string {
    "eyJhbGciOiJIUzI1NiIsInR5cCI6IkpXVCJ9" + "." + segment
  }

  function JoinDots(parts: seq<string>): string
    requires parts != []
  {
    if |parts| == 1 then parts[0] else parts[0] + "." + JoinDots(parts[1..])
  }

  lemma {:induction false} SplitJoined(s: string)
    ensures forall i :: 0 <= i < |Split(s)| ==> DotFree(Split(s)[i])
    ensures JoinDots(Split(s)) == s
  {
    if s != [] {
      var rest := Split(s[1..]);
      SplitJoined(s[1..]);
      assert s == [s[0]] + s[1..];
      if s[0] == '.' {
        assert Split(s)[1..] == rest;
        assert [] + "." + s[1..] == s;
      } else {
        FirstGrows(s[0], rest);
      }
    }
  }

  lemma FirstGrows(c: char, rest: seq<string>)
    requires rest != []
    ensures JoinDots([[c] + rest[0]] + rest[1..]) == [c] + JoinDots(rest)
  {
    var grown := [[c] + rest[0]] + rest[1..];
    assert grown[1..] == rest[1..];
  }

  lemma SplitJoins(s: string)
    ensures forall i :: 0 <= i < |Split(s)| ==> DotFree(Split(s)[i])
    ensures |Split(s)| == 3 ==> s == Split(s)[0] + "." + Split(s)[1] + "." + Split(s)[2]
  {
    hide Split, DotFree;
    SplitJoined(s);
    var parts := Split(s);
    if |parts| == 3 {
      assert parts[1..][1..] == [parts[2]];
      assert JoinDots(parts[1..]) == parts[1] + "." + parts[2];
      assert parts[0] + "." + (parts[1] + "." + parts[2]) == parts[0] + "." + parts[1] + "." + parts[2];
    }
  }

  /** A three-segment token under the fixed header splits into its segments. */
  lemma SplitSigned(segment: string, signature: string)
    requires DotFree(segment) && DotFree(signature)
    ensures Split(SignedPart(segment) + "." + signature) == [AUTH_HS256_HEADER_B64URL, segment, signature]
  {
    hide Split;
    HeaderHasNoDot();
    assert SignedPart(segment) + "." + signature == AUTH_HS256_HEADER_B64URL + "." + (segment + "." + signature);
    SplitFirst(AUTH_HS256_HEADER_B64URL, segment + "." + signature);
    SplitFirst(segment, signature);
    SplitFirst(signature, "");
  }

  /** Whatever a verifier accepts is signed: it is the fixed header, one segment, and the signature of these two. */
  lemma AcceptedIsSigned(token: string, nowMs: int, sign: Signer, revoked: set<string>)
    requires EngineVerify(token, nowMs, sign).Ok? || McpVerify(token, nowMs, sign, revoked).Ok?
    ensures exists segment :: DotFree(segment) && token == SignedPart(segment) + "." + Base64Url.Encode(sign(SignedPart(segment)))
  {
    hide Split, Parse, Base64Url.Encode, Base64Url.Decode, Utf8.Decode, Get, ScopesOf;
    SplitJoins(token);
    var segment := Split(token)[1];
    assert token == SignedPart(segment) + "." + Split(token)[2];
  }

  /** A token of the right shape with any other signature is answered BAD_SIGNATURE by both, whatever its payload says and whenever it is shown. */
  lemma ForgedSignatureIsRefused(segment: string, signature: string, nowMs: int, sign: Signer, revoked: set<string>)
    requires DotFree(segment) && DotFree(signature) && signature != Base64Url.Encode(sign(SignedPart(segment)))
    ensures var token := SignedPart(segment) + "." + signature;
            EngineVerify(token, nowMs, sign) == Err(BAD_SIGNATURE) && McpVerify(token, nowMs, sign, revoked) == Err(BAD_SIGNATURE)
  {
    hide Split, Parse, Base64Url.Encode, Base64Url.Decode, Utf8.Decode;
    SplitSigned(segment, signature);
  }

  /** So is an issued token with another third segment. */
  lemma TamperedIssueIsRefused(sub: string, scopes: seq<AuthScope>, ttlSec: int, nowMs: int, aud: Option<string>, jti: string, signature: string, laterMs: int, sign: Signer, revoked: set<string>)
    requires DotFree(signature)
    ensures var issued, text := Issue(sub, scopes, ttlSec, nowMs, aud, jti, sign), SignedText(ClaimsFor(sub, scopes, ttlSec, nowMs, aud, jti));
            && text + "." <= issued.token
            && (text + "." + signature != issued.token ==>
                  EngineVerify(text + "." + signature, laterMs, sign) == Err(BAD_SIGNATURE)
                  && McpVerify(text + "." + signature, laterMs, sign, revoked) == Err(BAD_SIGNATURE))
  {
    hide EngineVerify, McpVerify, Base64Url.Encode, Utf8.Encode, Print, Payload, Printable;
    var claims := ClaimsFor(sub, scopes, ttlSec, nowMs, aud, jti);
    PayloadPrintable(claims);
    var segment := Base64Url.Encode(Utf8.Encode(Print(Payload(claims))));
    EncodedHasNoDot(Utf8.Encode(Print(Payload(claims))));
    if signature != Base64Url.Encode(sign(SignedPart(segment))) {
      ForgedSignatureIsRefused(segment, signature, laterMs, sign, revoked);
    }
  }

  /** A token of any other shape is malformed, and for the MCP an empty one is missing. */
  lemma OtherShapesAreMalformed(token: string, nowMs: int, sign: Signer, revoked: set<string>)
    requires forall segment, signature :: DotFree(segment) && DotFree(signature) ==> token != SignedPart(segment) + "." + signature
    ensures EngineVerify(token, nowMs, sign) == Err(MALFORMED)
    ensures McpVerify(token, nowMs, sign, revoked) == Err(if token == "" then MISSING else MALFORMED)
  {
    hide Split, Parse, Base64Url.Encode, Base64Url.Decode, Utf8.Decode;
    ThreeSegments(token);
  }

  lemma ThreeSegments(token: string)
    ensures |Split(token)| == 3 && Split(token)[0] == AUTH_HS256_HEADER_B64URL ==>
              exists segment, signature :: DotFree(segment) && DotFree(signature) && token == SignedPart(segment) + "." + signature
  {
    SplitJoins(token);
    if |Split(token)| == 3 && Split(token)[0] == AUTH_HS256_HEADER_B64URL {
      assert token == SignedPart(Split(token)[1]) + "." + Split(token)[2];
    }
  }

  /** Well-signed tokens over an arbitrary JSON payload. */
  function SignedToken(payload: Json, sign: Signer): string
    requires Printable(payload)
  {
    var text := SignedPart(Base64Url.Encode(Utf8.Encode(Print(payload))));
    text + "." + Base64Url.Encode(sign(text))
  }

  lemma SignedTokenOpens(payload: Json, sign: Signer)
    requires Printable(payload)
    ensures SignedToken(payload, sign) != "" && OpenToken(SignedToken(payload, sign), sign) == Ok(payload)
  {
    hide Split, Print, Parse, Base64Url.Encode, Base64Url.Decode, Utf8.Encode, Utf8.Decode, Printable;
    var bytes := Utf8.Encode(Print(payload));
    var segment := Base64Url.Encode(bytes);
    EncodedHasNoDot(bytes);
    EncodedHasNoDot(sign(SignedPart(segment)));
    SplitSigned(segment, Base64Url.Encode(sign(SignedPart(segment))));
    Base64Url.RoundTrip(bytes);
    Utf8.RoundTrip(Print(payload));
    ParsePrint(payload);
  }

  predicate KnownScopes(items: seq<Json>) {
    forall i :: 0 <= i < |items| ==> items[i] == Str("read") || items[i] == Str("halt") || items[i] == Str("admin")
  }

  /** The items are the scopes' names, one for one. */
  predicate NamesOf(scopes: seq<AuthScope>, items: seq<Json>) {
    && |scopes| == |items|
    && forall i :: 0 <= i < |items| ==> items[i] == Str(match scopes[i] case READ => "read" case HALT => "halt" case ADMIN => "admin")
  }

  lemma {:induction false} ScopesExact(items: seq<Json>)
    ensures ScopesOf(items).Some? <==> KnownScopes(items)
    ensures ScopesOf(items).Some? ==> NamesOf(ScopesOf(items).value, items)
  {
    if items != [] {
      ScopesExact(items[1..]);
      assert items == [items[0]] + items[1..];
    }
  }

  /** A payload's text, number and scope properties, as a verifier needs them. */
  predicate IsText(v: Option<Json>) {
    v.Some? && v.value.Str?
  }

  predicate IsNumber(v: Option<Json>) {
    v.Some? && v.value.Num?
  }

  /** What each verifier makes of a well-signed payload of any content: malformed, expired, refused, or its own properties. */
  lemma SignedPayloadVerdicts(payload: Json, nowMs: int, sign: Signer, revoked: set<string>)
    requires Printable(payload)
    ensures var token, sub, jti, iat, exp, aud, scopes :=
              SignedToken(payload, sign), Get(payload, "sub"), Get(payload, "jti"), Get(payload, "iat"), Get(payload, "exp"), Get(payload, "aud"), Get(payload, "scopes");
            var expired := exp.Some? && exp.value.Num? && exp.value.value <= (nowMs / 1000) as real;
            var engine, mcp := EngineVerify(token, nowMs, sign), McpVerify(token, nowMs, sign, revoked);
            var engineReads := IsText(sub) && IsText(jti) && IsNumber(iat) && IsNumber(exp) && (aud.None? || IsText(aud))
                               && scopes.Some? && scopes.value.Arr? && KnownScopes(scopes.value.items);
            var mcpReads := IsText(sub) && IsText(jti) && IsText(aud) && IsNumber(exp);
            && (!engineReads ==> engine == Err(MALFORMED))
            && (engineReads && expired ==> engine == Err(EXPIRED))
            && (engineReads && !expired ==>
                  && engine.Ok? && engine.value.sub == sub.value.s && engine.value.jti == jti.value.s
                  && NamesOf(engine.value.scopes, scopes.value.items)
                  && engine.value.iat == iat.value.value && engine.value.exp == exp.value.value)
            && (!mcpReads ==> mcp == Err(MALFORMED))
            && (mcpReads && expired ==> mcp == Err(EXPIRED))
            && (mcpReads && !expired && aud.value.s != "mcp" ==> mcp == Err(BAD_AUDIENCE))
            && (mcpReads && !expired && aud.value.s == "mcp" && jti.value.s in revoked ==> mcp == Err(REVOKED))
            && (mcpReads && !expired && aud.value.s == "mcp" && jti.value.s !in revoked ==>
                  mcp == Ok(VerifiedBearer(sub.value.s, "mcp", jti.value.s, exp.value.value)))
  {
    hide OpenToken, SignedToken, Get, ScopesOf, KnownScopes, NamesOf, Printable;
    SignedTokenOpens(payload, sign);
    var scopes := Get(payload, "scopes");
    if scopes.Some? && scopes.value.Arr? {
      ScopesExact(scopes.value.items);
    }
  }

  /** When an issued token expires, and for whom it is: fifteen minutes and the engine by default. */
  lemma IssuedTerms(sub: string, scopes: seq<AuthScope>, ttlSec: int, nowMs: int, aud: Option<string>, jti: string, sign: Signer)
    ensures var issued := Issue(sub, scopes, ttlSec, nowMs, aud, jti, sign);
            && issued.jti == jti && issued.exp == nowMs / 1000 + (if ttlSec > 0 then ttlSec else 900)
            && ClaimsFor(sub, scopes, ttlSec, nowMs, aud, jti).aud == (if aud.None? || aud.value == "" then "engine" else aud.value)
  {
  }
}
