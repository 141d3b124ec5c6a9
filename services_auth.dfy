/** The older identity extractor in services/auth.ts, used by the
    api/submit-turns.ts handler. It decodes the payload with the lenient
    `base64url` Buffer decoder instead of translating and padding it. */
module ServicesAuth {
  import opened Wrappers
  import opened JsValues
  import opened JsStrings
  import Bearer
  import LibAuth

  /** `decodeQuickAuthJwt`: the parsed payload of a three-segment token, or
      null when the segment count is wrong or parsing throws. */
  function DecodeQuickAuthJwt(host: Host, jwt: string): (r: JsValue)
    ensures Count(jwt, '.') != 2 ==> r == JNull
    ensures r != JNull ==>
      && |Split(jwt, '.')| == 3
      && host.jsonParse(host.bufferBase64UrlToUtf8(Split(jwt, '.')[1])) == Some(r)
    // conversely, a three-segment token whose payload parses yields the parse
    ensures |Split(jwt, '.')| == 3 ==>
      var parsed := host.jsonParse(host.bufferBase64UrlToUtf8(Split(jwt, '.')[1]));
      r == if parsed.Some? then parsed.value else JNull
  {
    SplitCount(jwt, '.');
    var parts := Split(jwt, '.');
    if |parts| != 3 then JNull
    else
      match host.jsonParse(host.bufferBase64UrlToUtf8(parts[1]))
      case None => JNull
      case Some(v) => v
  }

  /** `extractFidFromAuthHeader`: a missing header reads as "", a `sub`
      that is not a truthy number gives null. */
  function ExtractFidFromAuthHeader(host: Host, authorization: Option<string>): (fid: Option<JsNumber>)
    ensures authorization.None? ==> fid.None?
    ensures Bearer.MatchBearer(LibAuth.AuthorizationOrEmpty(authorization)).None? ==> fid.None?
    ensures fid.Some? ==> NumberTruthy(fid.value)
    ensures fid.Some? ==>
      && var m := Bearer.MatchBearer(LibAuth.AuthorizationOrEmpty(authorization));
      && m.Some?
      && Get(DecodeQuickAuthJwt(host, m.value), "sub") == JNum(fid.value)
  {
    match Bearer.MatchBearer(LibAuth.AuthorizationOrEmpty(authorization))
    case None => None
    case Some(token) => LibAuth.SubAsFid(DecodeQuickAuthJwt(host, token))
  }

  /** Where the two extractors part ways: a payload segment whose length is
      1 more than a multiple of 4 is refused by api/_lib/auth.ts but still
      handed to the lenient decoder here. */
  lemma SegmentLengthOneMod4(host: Host, header: string, payload: string, sig: string)
    requires '.' !in header && '.' !in payload && '.' !in sig
    requires |payload| % 4 == 1
    ensures LibAuth.DecodeQuickAuthJwt(host, header + "." + payload + "." + sig) == JNull
    ensures DecodeQuickAuthJwt(host, header + "." + payload + "." + sig)
         == (match host.jsonParse(host.bufferBase64UrlToUtf8(payload))
             case None => JNull
             case Some(v) => v)
  {
    LibAuth.CompactParts(header, payload, sig);
  }

  /** A compact token whose payload segment decodes and parses yields
      that parse. */
  lemma DecodeOfToken(host: Host, header: string, payload: string, sig: string, v: JsValue)
    requires '.' !in header && '.' !in payload && '.' !in sig
    requires host.jsonParse(host.bufferBase64UrlToUtf8(payload)) == Some(v)
    ensures DecodeQuickAuthJwt(host, header + "." + payload + "." + sig) == v
  {
    LibAuth.CompactParts(header, payload, sig);
  }

  /** End to end: a `Bearer` header carrying a compact token whose payload
      decodes to an object with a non-zero integer `sub` yields that fid. */
  lemma ExtractFidOfToken(host: Host, header: string, payload: string, sig: string,
                          fields: map<string, JsValue>, sub: int)
    requires '.' !in header && '.' !in payload && '.' !in sig
    requires |header| >= 1 && !Bearer.IsWhitespace(header[0])
    requires Bearer.NoLineTerminator(header + "." + payload + "." + sig)
    requires sub != 0 && "sub" in fields && fields["sub"] == JNum(Finite(sub))
    requires host.jsonParse(host.bufferBase64UrlToUtf8(payload)) == Some(JObject(fields))
    ensures ExtractFidFromAuthHeader(host, Some("Bearer " + header + "." + payload + "." + sig)) == Some(Finite(sub))
  {
    var token := header + "." + payload + "." + sig;
    Bearer.MatchBearerOfHeader(" ", token);
    assert Bearer.SCHEME + " " + token == "Bearer " + header + "." + payload + "." + sig;
    assert Bearer.MatchBearer(LibAuth.AuthorizationOrEmpty(Some("Bearer " + token))) == Some(token);
    DecodeOfToken(host, header, payload, sig, JObject(fields));
  }
}
