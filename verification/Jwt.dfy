/** gcpjwt.c: the JWT that authenticates the device. */
module Jwt {
  import opened CTypes
  import opened Base64Url
  import opened Base64UrlLaws
  import opened Json
  import opened Text

  const HEADER: string := "{\"alg\":\"RS256\",\"typ\":\"JWT\"}"
  const GCPIOT_PROJECT_ID: string := "ridolfi-401111"

  /** The claims text; %d prints the unsigned 32-bit times as signed ones. */
  function Claims(iat: int, exp: int): string {
    Field("{\"iat\":", Signed32(iat),
    Field(",\"exp\":", Signed32(exp),
    TextField(",\"aud\":\"", GCPIOT_PROJECT_ID, "\"}")))
  }

  /** The claims as JSON. */
  function ClaimSet(iat: int, exp: int, aud: string): Json {
    Object(Member("iat", Number(iat), Member("exp", Number(exp), Member("aud", String(aud), NoMembers))))
  }

  /** The claims' format, around any values. */
  lemma ClaimsText(iat: int, exp: int, aud: string)
    ensures Field("{\"iat\":", iat, Field(",\"exp\":", exp, TextField(",\"aud\":\"", aud, "\"}"))) ==
            Write(ClaimSet(iat, exp, aud), "", "")
  {
    var m3 := Member("aud", String(aud), NoMembers);
    MemberText("{", "{\"iat\":", "iat", Number(iat), Member("exp", Number(exp), m3), "", "");
    MemberText(",", ",\"exp\":", "exp", Number(exp), m3, "", "");
    MemberText(",", ",\"aud\":", "aud", String(aud), NoMembers, "", "");
    QuoteText(",\"aud\":", ",\"aud\":\"", aud, "}" + "", "\"}");
  }

  lemma ClaimsPlain(iat: int, exp: int, aud: string)
    requires PlainText(aud)
    ensures Plain(ClaimSet(iat, exp, aud))
  {
    var m3 := Member("aud", String(aud), NoMembers);
    PlainMember("aud", String(aud), NoMembers);
    PlainMember("exp", Number(exp), m3);
    PlainMember("iat", Number(iat), Member("exp", Number(exp), m3));
  }

  /** The printed claims are JSON: both times, as signed 32-bit numbers, and the project. */
  lemma ClaimsRoundTrip(iat: int, exp: int)
    ensures ReadJson(Claims(iat, exp)) ==
            Some(Object(Member("iat", Number(Signed32(iat)),
                        Member("exp", Number(Signed32(exp)),
                        Member("aud", String(GCPIOT_PROJECT_ID), NoMembers)))))
  {
    ClaimsText(Signed32(iat), Signed32(exp), GCPIOT_PROJECT_ID);
    ClaimsPlain(Signed32(iat), Signed32(exp), GCPIOT_PROJECT_ID);
    JsonRoundTrip(ClaimSet(Signed32(iat), Signed32(exp), GCPIOT_PROJECT_ID), "");
  }

  function HeaderOf(alg: string, typ: string): Json {
    Object(Member("alg", String(alg), Member("typ", String(typ), NoMembers)))
  }

  lemma HeaderText(alg: string, typ: string)
    requires PlainText(alg) && PlainText(typ)
    ensures ReadJson(TextField("{\"alg\":\"", alg, TextField("\",\"typ\":\"", typ, "\"}"))) == Some(HeaderOf(alg, typ))
  {
    var m2 := Member("typ", String(typ), NoMembers);
    MemberText("{", "{\"alg\":", "alg", String(alg), m2, "", "");
    MemberText(",", ",\"typ\":", "typ", String(typ), NoMembers, "", "");
    QuoteText(",\"typ\":", ",\"typ\":\"", typ, "}" + "", "\"}");
    QuoteText("{\"alg\":", "{\"alg\":\"", alg, "," + WriteMembers(m2, "", ""), TextField("\",\"typ\":\"", typ, "\"}"));
    PlainMember("typ", String(typ), NoMembers);
    PlainMember("alg", String(alg), m2);
    JsonRoundTrip(HeaderOf(alg, typ), "");
  }

  lemma HeaderLiteral()
    ensures HEADER == TextField("{\"alg\":\"", "RS256", TextField("\",\"typ\":\"", "JWT", "\"}"))
  {
    assert "JWT" + "\"}" == "JWT\"}";
    assert "\",\"typ\":\"" + "JWT\"}" == "\",\"typ\":\"JWT\"}";
    assert "RS256" + "\",\"typ\":\"JWT\"}" == "RS256\",\"typ\":\"JWT\"}";
  }

  /** And so is the header, of RSA with SHA-256: section 4.1.1 of RFC 7515 and section 5.1 of RFC 7519. */
  lemma HeaderRoundTrip()
    ensures ReadJson(HEADER) == Some(Object(Member("alg", String("RS256"), Member("typ", String("JWT"), NoMembers))))
  {
    HeaderLiteral();
    HeaderText("RS256", "JWT");
  }

  /** Adding a 32-bit expiry to a 31-bit time is exact as a signed number while the sum stays below 2^31. */
  lemma ExpiryExact(now: int, expTime: int)
    requires 0 <= now < 0x8000_0000 && 0 <= expTime < TWO_TO_THE_32
    ensures Signed32(Wrap32(now)) == now
    ensures Signed32(Wrap32(Wrap32(now) + expTime)) == now + expTime <==> now + expTime < 0x8000_0000
  {
  }

  /** The times the issuer reads from a 31-bit clock come back exactly when the expiry is before 2^31 seconds. */
  lemma ClaimsTimesExact(now: int, expTime: int, iat: int, exp: int)
    requires 0 <= now < 0x8000_0000 && 0 <= expTime < TWO_TO_THE_32
    requires iat == Wrap32(now) && exp == Wrap32(iat + expTime)
    ensures ReadJson(Claims(iat, exp)) == Some(ClaimSet(now, now + expTime, GCPIOT_PROJECT_ID))
            <==> now + expTime < 0x8000_0000
  {
    ExpiryExact(now, expTime);
    ClaimsRoundTrip(iat, exp);
  }

  /** On a clock that does not step back, the saved expiry is no later than the printed one. */
  lemma SavedExpiryNotLater(first: int, second: int, expTime: int, iat: int, exp: int)
    requires 0 <= first <= second && 0 <= expTime && second + expTime < 0x8000_0000
    requires iat == Wrap32(second) && exp == Wrap32(iat + expTime)
    ensures ReadJson(Claims(iat, exp)) == Some(ClaimSet(second, second + expTime, GCPIOT_PROJECT_ID))
    ensures Signed32(first + expTime) <= second + expTime
  {
    ClaimsTimesExact(second, expTime, iat, exp);
  }

  lemma ClaimsLength(iat: int, exp: int)
    ensures 1 <= |Claims(iat, exp)| <= 60
  {
    Decimal32Length(Signed32(iat));
    Decimal32Length(Signed32(exp));
  }

  lemma ClaimsAscii(iat: int, exp: int)
    ensures Ascii(Claims(iat, exp))
  {
    var aud := TextField(",\"aud\":\"", GCPIOT_PROJECT_ID, "\"}");
    assert Ascii(aud);
    FieldAscii(",\"exp\":", Signed32(exp), aud);
    FieldAscii("{\"iat\":", Signed32(iat), Field(",\"exp\":", Signed32(exp), aud));
  }

  // ---------- the compact serialization ----------

  function SigningInput(header: string, claims: string): string {
    Encode(BytesOf(header)) + "." + Encode(BytesOf(claims))
  }

  function Token(header: string, claims: string, signature: seq<byte>): string {
    SigningInput(header, claims) + "." + Encode(signature)
  }

  /** The segments of s between separators. */
  function Split(s: string, separator: char): seq<string>
    decreases |s|
  {
    var p := Before(s, separator);
    if p == |s| then [s] else [s[..p]] + Split(s[p + 1..], separator)
  }

  lemma {:induction false} BeforeAll(s: string, stop: char)
    requires stop !in s
    ensures Before(s, stop) == |s|
  {
    if s != [] { BeforeAll(s[1..], stop); }
  }

  lemma SplitFirst(segment: string, separator: char, rest: string)
    requires separator !in segment
    ensures Split(segment + [separator] + rest, separator) == [segment] + Split(rest, separator)
  {
    var s := segment + ([separator] + rest);
    ReadUntilStop(segment, separator, [separator] + rest);
    assert s == segment + [separator] + rest;
    assert Before(s, separator) == |segment|;
    assert s[|segment| + 1..] == rest;
  }

  lemma EncodeExcludes(x: seq<byte>)
    ensures '.' !in Encode(x) && '\0' !in Encode(x)
  {
  }

  /** What a verifier does with a segment: change the alphabet back, decode, keep the whole bytes. */
  function DecodeSegment(segment: string): Option<seq<byte>> {
    var s := ToStandard(segment);
    if DecodeStatus(s) == BASE64_OK && |DecodedCells(s)| >= DecodedLength(|s|)
    then Some(DecodedCells(s)[..DecodedLength(|s|)]) else None
  }

  lemma DecodeSegmentOfEncode(x: seq<byte>)
    ensures DecodeSegment(Encode(x)) == Some(x)
  {
    RoundTripMapped(x);
    LengthsAgree(|x|);
    assert Decoded(x)[..|x|] == x;
  }

  lemma SplitTwo(a: string, b: string, separator: char)
    requires separator !in a && separator !in b
    ensures Split(a + [separator] + b, separator) == [a, b]
  {
    BeforeAll(b, separator);
    SplitFirst(a, separator, b);
  }

  lemma Associates(a: string, b: string, c: string, d: string)
    ensures a + b + c + b + d == a + b + (c + b + d)
  {
  }

  lemma SplitThree(a: string, b: string, c: string, separator: char)
    requires separator !in a && separator !in b && separator !in c
    ensures Split(a + [separator] + b + [separator] + c, separator) == [a, b, c]
  {
    Associates(a, [separator], b, c);
    SplitTwo(b, c, separator);
    SplitFirst(a, separator, b + [separator] + c);
  }

  /** RFC 7515, section 7.1: the token has exactly two dots, between the three encoded parts. */
  lemma TokenParts(header: string, claims: string, signature: seq<byte>)
    ensures Split(Token(header, claims, signature), '.') ==
            [Encode(BytesOf(header)), Encode(BytesOf(claims)), Encode(signature)]
  {
    EncodeExcludes(BytesOf(header));
    EncodeExcludes(BytesOf(claims));
    EncodeExcludes(signature);
    SplitThree(Encode(BytesOf(header)), Encode(BytesOf(claims)), Encode(signature), '.');
  }

  datatype Jws = Jws(header: Json, claims: Json, signed: string, signature: seq<byte>)

  /** A verifier's reading of the three segments of a token. */
  function ParseParts(parts: seq<string>): Option<Jws> {
    if |parts| != 3 then None else
      var protectedHeader :- DecodeSegment(parts[0]);
      var payload :- DecodeSegment(parts[1]);
      var signature :- DecodeSegment(parts[2]);
      var header :- ReadJson(TextOf(protectedHeader));
      var claims :- ReadJson(TextOf(payload));
      Some(Jws(header, claims, parts[0] + "." + parts[1], signature))
  }

  function ParseToken(token: string): Option<Jws> {
    ParseParts(Split(token, '.'))
  }

  lemma PartsRoundTrip(header: string, claims: string, signature: seq<byte>)
    requires Ascii(header) && Ascii(claims) && ReadJson(header).Some? && ReadJson(claims).Some?
    ensures ParseParts([Encode(BytesOf(header)), Encode(BytesOf(claims)), Encode(signature)]) ==
            Some(Jws(ReadJson(header).value, ReadJson(claims).value, SigningInput(header, claims), signature))
  {
    DecodeSegmentOfEncode(BytesOf(header));
    DecodeSegmentOfEncode(BytesOf(claims));
    DecodeSegmentOfEncode(signature);
    CastRoundTrip(claims);
    CastRoundTrip(header);
  }

  /** Reading a token gives back the header, the claims, the signed text and the signature. */
  lemma TokenCarries(header: string, claims: string, signature: seq<byte>)
    requires Ascii(header) && Ascii(claims) && ReadJson(header).Some? && ReadJson(claims).Some?
    ensures ParseToken(Token(header, claims, signature)) ==
            Some(Jws(ReadJson(header).value, ReadJson(claims).value, SigningInput(header, claims), signature))
  {
    TokenParts(header, claims, signature);
    PartsRoundTrip(header, claims, signature);
  }

  /** What the firmware's token says: its fixed header, both times as signed numbers, its project, and what it signs. */
  lemma TokenRoundTrip(iat: int, exp: int, signature: seq<byte>)
    ensures ParseToken(Token(HEADER, Claims(iat, exp), signature)) ==
            Some(Jws(HeaderOf("RS256", "JWT"), ClaimSet(Signed32(iat), Signed32(exp), GCPIOT_PROJECT_ID),
                     SigningInput(HEADER, Claims(iat, exp)), signature))
  {
    assert Ascii(HEADER);
    ClaimsAscii(iat, exp);
    HeaderRoundTrip();
    ClaimsRoundTrip(iat, exp);
    TokenCarries(HEADER, Claims(iat, exp), signature);
  }

  // ---------- issuing ----------

  /** The foreign calls: whether the key parses, the digest of a text, and the signature of a digest. */
  datatype Crypto = Crypto(keyParses: bool, sha256: string -> Option<seq<byte>>, sign: seq<byte> -> Option<seq<byte>>)

  /** The token made by signing a text, if every foreign call succeeds and its length check passes. */
  function Sign(crypto: Crypto, mallocOk: bool, text: string, len: int): Option<string> {
    if !crypto.keyParses || !mallocOk then None else
      var digest :- crypto.sha256(text);
      var signature :- crypto.sign(digest);
      var token := text + "." + Encode(signature);
      if |token| + 1 < len then Some(token) else None
  }

  /** The token a call issues at time `now`, if it issues one. */
  function Issue(crypto: Crypto, mallocOk: bool, now: int, expTime: int, len: int): Option<string> {
    var iat := Wrap32(now);
    Sign(crypto, mallocOk, SigningInput(HEADER, Claims(iat, Wrap32(iat + expTime))), len)
  }

  lemma SignedWraps(now: int, expTime: int)
    ensures Signed32(Wrap32(now)) == Signed32(now)
    ensures Signed32(Wrap32(Wrap32(now) + expTime)) == Signed32(now + expTime)
  {
  }

  /** Whoever reads an issued token finds the claims, and the signature of exactly the text before the second dot. */
  lemma IssuedTokenVerifies(crypto: Crypto, mallocOk: bool, now: int, expTime: int, len: int, token: string)
    requires Issue(crypto, mallocOk, now, expTime, len) == Some(token)
    ensures var jws := ParseToken(token);
            && |token| + 1 < len && crypto.keyParses && mallocOk
            && jws.Some? && jws.value.header == HeaderOf("RS256", "JWT")
            && jws.value.claims == ClaimSet(Signed32(now), Signed32(now + expTime), GCPIOT_PROJECT_ID)
            && jws.value.signed + "." <= token
            && crypto.sha256(jws.value.signed).Some?
            && crypto.sign(crypto.sha256(jws.value.signed).value) == Some(jws.value.signature)
  {
    var iat := Wrap32(now);
    var exp := Wrap32(iat + expTime);
    SignedWraps(now, expTime);
    var signature := crypto.sign(crypto.sha256(SigningInput(HEADER, Claims(iat, exp))).value).value;
    assert token == Token(HEADER, Claims(iat, exp), signature);
    TokenRoundTrip(iat, exp, signature);
  }

  /** A token whose parts can be made is issued exactly when it, its NUL and one more cell fit the caller's length. */
  lemma LengthCheckExact(crypto: Crypto, now: int, expTime: int, len: int, digest: seq<byte>, signature: seq<byte>)
    requires var iat := Wrap32(now);
             crypto.sha256(SigningInput(HEADER, Claims(iat, Wrap32(iat + expTime)))) == Some(digest)
    requires crypto.keyParses && crypto.sign(digest) == Some(signature)
    ensures var claims := |Claims(Wrap32(now), Wrap32(Wrap32(now) + expTime))|;
            Issue(crypto, true, now, expTime, len).Some? <==>
            36 + 1 + EncodedLength(claims) + 1 + EncodedLength(|signature|) + 1 < len
  {
  }

  lemma SigningInputLength(iat: int, exp: int)
    ensures 1 <= |SigningInput(HEADER, Claims(iat, exp))| <= 117
  {
    ClaimsLength(iat, exp);
  }

  /** The key does not parse, or the allocation, the digest or the signature fails. */
  predicate ForeignFails(crypto: Crypto, mallocOk: bool, now: int, expTime: int) {
    var iat := Wrap32(now);
    var digest := crypto.sha256(SigningInput(HEADER, Claims(iat, Wrap32(iat + expTime))));
    !crypto.keyParses || !mallocOk || digest.None? || crypto.sign(digest.value).None?
  }

  /** With a buffer of the documented 1200 bytes, only a foreign call can make issuing fail. */
  lemma DocumentedLengthSuffices(crypto: Crypto, mallocOk: bool, now: int, expTime: int, len: int)
    requires len >= 1200
    requires forall digest :: crypto.sign(digest).Some? ==> EncodedLength(|crypto.sign(digest).value|) < 600
    ensures Issue(crypto, mallocOk, now, expTime, len).None? <==> ForeignFails(crypto, mallocOk, now, expTime)
  {
    var iat := Wrap32(now);
    SigningInputLength(iat, Wrap32(iat + expTime));
  }

  lemma SigningInputHasNoNul(header: string, claims: string)
    ensures '\0' !in SigningInput(header, claims)
  {
  }

  lemma IssuedHasNoNul(crypto: Crypto, mallocOk: bool, now: int, expTime: int, len: int, token: string)
    requires Issue(crypto, mallocOk, now, expTime, len) == Some(token)
    ensures '\0' !in token
  {
    var iat := Wrap32(now);
    var text := SigningInput(HEADER, Claims(iat, Wrap32(iat + expTime)));
    SigningInputHasNoNul(HEADER, Claims(iat, Wrap32(iat + expTime)));
    EncodeExcludes(crypto.sign(crypto.sha256(text).value).value);
  }
}
