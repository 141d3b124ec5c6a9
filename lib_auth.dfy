/** Bearer-token identity extraction used by the API handlers
    (api/_lib/auth.ts and its JavaScript copy api/_lib/auth.js, which differ
    only in logging). The token is decoded, never verified: the numeric
    `sub` claim of the payload segment is taken as the caller's fid. */
module LibAuth {
  import opened Wrappers
  import opened JsValues
  import opened JsStrings
  import Bearer

  const INVALID_SEGMENT_LENGTH: string := "Invalid base64url segment length"

  /** Number of '=' characters that bring a length up to a multiple of 4. */
  function PadLength(n: nat): (p: nat)
    ensures p < 4 && (n + p) % 4 == 0
    ensures n % 4 == 0 ==> p == 0
  {
    (4 - n % 4) % 4
  }

  /** Translate a base64url segment to standard base64 and pad it; a
      segment whose length is 1 more than a multiple of 4 cannot be the
      encoding of anything and throws. */
  function Base64UrlToBase64(segment: string): (r: Result<string, string>)
    ensures r.Failure? <==> |segment| % 4 == 1
    ensures r.Failure? ==> r.error == INVALID_SEGMENT_LENGTH
    ensures r.Success? ==> |r.value| % 4 == 0 && |r.value| < |segment| + 3
    ensures r.Success? ==> r.value == UrlToStdAlphabet(segment) + Repeat('=', PadLength(|segment|))
    ensures r.Success? ==> '-' !in r.value && '_' !in r.value
  {
    var s := UrlToStdAlphabet(segment);
    var pad := |s| % 4;
    if pad == 2 then Success(s + "==")
    else if pad == 3 then Success(s + "=")
    else if pad == 1 then Failure(INVALID_SEGMENT_LENGTH)
    else Success(s)
  }

  /** The base64url alphabet of section 5 of RFC 4648: a segment as a
      compact JWS carries it, without padding. */
  predicate IsBase64UrlText(s: string) {
    forall i :: 0 <= i < |s| ==> s[i] != '+' && s[i] != '/' && s[i] != '='
  }

  /** The reverse translation: drop trailing padding and map '+' and '/'
      back to '-' and '_'. */
  function Base64ToBase64Url(s: string): string {
    if s != [] && s[|s| - 1] == '=' then Base64ToBase64Url(s[..|s| - 1])
    else ReplaceAll(ReplaceAll(s, '+', '-'), '/', '_')
  }

  lemma {:induction false} StripPadding(body: string, n: nat)
    requires body == [] || body[|body| - 1] != '='
    ensures Base64ToBase64Url(body + Repeat('=', n)) == Base64ToBase64Url(body)
  {
    if n > 0 {
      var s := body + Repeat('=', n);
      assert s[..|s| - 1] == body + Repeat('=', n - 1);
      StripPadding(body, n - 1);
    } else {
      assert body + Repeat('=', 0) == body;
    }
  }

  /** Padding a base64url segment and translating it back gives the segment:
      the translation loses nothing (section 5 of RFC 4648). */
  lemma Base64UrlRoundTrip(segment: string)
    requires IsBase64UrlText(segment) && |segment| % 4 != 1
    ensures Base64UrlToBase64(segment).Success?
    ensures Base64ToBase64Url(Base64UrlToBase64(segment).value) == segment
  {
    var body := UrlToStdAlphabet(segment);
    StripPadding(body, PadLength(|segment|));
    var back := ReplaceAll(ReplaceAll(body, '+', '-'), '/', '_');
    assert forall i :: 0 <= i < |segment| ==> back[i] == segment[i];
  }

  /** `decodeBase64ToString`: `atob` and a UTF-8 decode when `atob` works,
      otherwise the lenient Buffer decoder. */
  function DecodeBase64ToString(host: Host, b64: string): (text: string)
    ensures host.atob(b64).Some? ==> text == host.utf8FromBinary(host.atob(b64).value)
    ensures host.atob(b64).None? ==> text == host.bufferBase64ToUtf8(b64)
  {
    match host.atob(b64)
    case Some(bin) => host.utf8FromBinary(bin)
    case None => host.bufferBase64ToUtf8(b64)
  }

  /** `decodeQuickAuthJwt`: the parsed payload segment of a three-segment
      token (section 7.1 of RFC 7515), or null. Being a function it is
      total: every failure inside the `try` becomes null. */
  function DecodeQuickAuthJwt(host: Host, jwt: string): (r: JsValue)
    ensures Count(jwt, '.') != 2 ==> r == JNull
    ensures |Split(jwt, '.')| == 3 && |Split(jwt, '.')[1]| % 4 == 1 ==> r == JNull
    ensures r != JNull ==>
      && |Split(jwt, '.')| == 3
      && var b64 := Base64UrlToBase64(Split(jwt, '.')[1]);
      && b64.Success?
      && host.jsonParse(DecodeBase64ToString(host, b64.value)) == Some(r)
    // conversely, a payload that translates and parses is returned as parsed
    ensures |Split(jwt, '.')| == 3 && Base64UrlToBase64(Split(jwt, '.')[1]).Success? ==>
      var parsed := host.jsonParse(DecodeBase64ToString(host, Base64UrlToBase64(Split(jwt, '.')[1]).value));
      r == if parsed.Some? then parsed.value else JNull
  {
    SplitCount(jwt, '.');
    var parts := Split(jwt, '.');
    if |parts| != 3 then JNull
    else
      match Base64UrlToBase64(parts[1])
      case Failure(_) => JNull
      case Success(b64) =>
        match host.jsonParse(DecodeBase64ToString(host, b64))
        case None => JNull
        case Some(v) => v
  }

  /** `decoded?.sub && typeof decoded.sub === 'number' ? decoded.sub : null`
      (section 4.1.2 of RFC 7519 names `sub`; this code demands a number). */
  function SubAsFid(decoded: JsValue): (fid: Option<JsNumber>)
    ensures fid.Some? <==> Get(decoded, "sub").JNum? && NumberTruthy(Get(decoded, "sub").n)
    ensures fid.Some? ==> Get(decoded, "sub") == JNum(fid.value)
  {
    var sub := Get(decoded, "sub");
    if Truthy(sub) && sub.JNum? then Some(sub.n) else None
  }

  /** A string `sub`, a zero `sub`, a missing `sub` and a payload that is not
      an object all give no identity. */
  lemma SubAsFidRejects(fields: map<string, JsValue>, s: string, other: JsValue)
    requires !other.JObject?
    ensures SubAsFid(JObject(fields["sub" := JStr(s)])).None?
    ensures SubAsFid(JObject(fields["sub" := JNum(Finite(0))])).None?
    ensures SubAsFid(JObject(fields - {"sub"})).None?
    ensures SubAsFid(other).None?
  {
  }

  /** `req.headers?.authorization || ''` */
  function AuthorizationOrEmpty(authorization: Option<string>): (h: string)
    ensures h == "" <==> !StringTruthy(authorization)
    ensures h != "" ==> authorization == Some(h)
  {
    if StringTruthy(authorization) then authorization.value else ""
  }

  /** `extractFidFromAuthHeader`: the fid of a `Bearer` header, or null. */
  function ExtractFidFromAuthHeader(host: Host, authorization: Option<string>): (fid: Option<JsNumber>)
    ensures Bearer.MatchBearer(AuthorizationOrEmpty(authorization)).None? ==> fid.None?
    ensures authorization.None? ==> fid.None?
    ensures fid.Some? ==> NumberTruthy(fid.value)
    ensures fid.Some? ==>
      && var m := Bearer.MatchBearer(AuthorizationOrEmpty(authorization));
      && m.Some?
      && Get(DecodeQuickAuthJwt(host, m.value), "sub") == JNum(fid.value)
  {
    match Bearer.MatchBearer(AuthorizationOrEmpty(authorization))
    case None => None
    case Some(token) => SubAsFid(DecodeQuickAuthJwt(host, token))
  }

  /** End to end: a `Bearer` header carrying a compact token whose payload
      decodes to an object with a non-zero integer `sub` yields that fid. */
  lemma ExtractFidOfToken(host: Host, header: string, payload: string, sig: string,
                          fields: map<string, JsValue>, sub: int)
    requires '.' !in header && '.' !in payload && '.' !in sig
    requires |payload| % 4 != 1
    requires |header| >= 1 && !Bearer.IsWhitespace(header[0])
    requires Bearer.NoLineTerminator(header + "." + payload + "." + sig)
    requires sub != 0 && "sub" in fields && fields["sub"] == JNum(Finite(sub))
    requires host.jsonParse(DecodeBase64ToString(host, Base64UrlToBase64(payload).value)) == Some(JObject(fields))
    ensures ExtractFidFromAuthHeader(host, Some("Bearer " + header + "." + payload + "." + sig)) == Some(Finite(sub))
  {
    var token := header + "." + payload + "." + sig;
    CompactParts(header, payload, sig);
    Bearer.MatchBearerOfHeader(" ", token);
    assert Bearer.SCHEME + " " + token == "Bearer " + header + "." + payload + "." + sig;
    assert Bearer.MatchBearer(AuthorizationOrEmpty(Some("Bearer " + token))) == Some(token);
    assert DecodeQuickAuthJwt(host, token) == JObject(fields);
  }

  /** A token written in the compact form splits back into its three
      segments (section 7.1 of RFC 7515). */
  lemma CompactParts(header: string, payload: string, sig: string)
    requires '.' !in header && '.' !in payload && '.' !in sig
    ensures Split(header + "." + payload + "." + sig, '.') == [header, payload, sig]
  {
    assert header + "." + payload + "." + sig == header + ['.'] + (payload + ['.'] + sig);
    SplitAtFirst(header, payload + ['.'] + sig, '.');
    SplitAtFirst(payload, sig, '.');
    SplitNoSep(sig, '.');
  }
}
