/** The payload decoder in services/jwt.ts: translate the base64url
    alphabet without adding padding, `atob`, parse, and turn a numeric
    string `sub` into a number. */
module Jwt {
  import opened Wrappers
  import opened JsValues
  import opened JsStrings
  import LibAuth

  /** `if (typeof obj.sub === 'string') { n = Number(obj.sub); if
      (!Number.isNaN(n)) obj.sub = n }`, as a record update. Reading
      `obj.sub` of a null payload throws; that is the `None`. */
  function CoerceSub(host: Host, obj: JsValue): (r: Option<JsValue>)
    ensures r.None? <==> obj.JNull? || obj.JUndefined?
    ensures r.Some? && !obj.JObject? ==> r.value == obj
    ensures r.Some? && obj.JObject? ==>
      && r.value.JObject?
      && r.value.fields.Keys == obj.fields.Keys
      && (forall k :: k in obj.fields && k != "sub" ==> r.value.fields[k] == obj.fields[k])
    ensures obj.JObject? && "sub" in obj.fields && obj.fields["sub"].JStr? ==>
      var n := host.stringToNumber(obj.fields["sub"].s);
      r.value.fields["sub"] == if IsNaN(n) then obj.fields["sub"] else JNum(n)
    ensures obj.JObject? && !("sub" in obj.fields && obj.fields["sub"].JStr?) ==> r == Some(obj)
  {
    match GetStrict(obj, "sub")
    case None => None
    case Some(sub) =>
      if sub.JStr? then
        var n := host.stringToNumber(sub.s);
        if !IsNaN(n) then Some(obj.(fields := obj.fields["sub" := JNum(n)])) else Some(obj)
      else Some(obj)
  }

  /** `decodeJwt`: the payload claims, or null on a wrong segment count or
      any thrown error. */
  function DecodeJwt(host: Host, token: string): (r: JsValue)
    ensures Count(token, '.') != 2 ==> r == JNull
    ensures r != JNull ==>
      && |Split(token, '.')| == 3
      && var bin := host.atob(UrlToStdAlphabet(Split(token, '.')[1]));
      && bin.Some?
      && var parsed := host.jsonParse(bin.value);
      && parsed.Some?
      && CoerceSub(host, parsed.value) == Some(r)
    // conversely, a payload that decodes, parses and coerces is returned
    ensures |Split(token, '.')| == 3 ==>
      var bin := host.atob(UrlToStdAlphabet(Split(token, '.')[1]));
      bin.Some? ==>
        var parsed := host.jsonParse(bin.value);
        parsed.Some? ==>
          var coerced := CoerceSub(host, parsed.value);
          r == if coerced.Some? then coerced.value else JNull
  {
    SplitCount(token, '.');
    var parts := Split(token, '.');
    if |parts| != 3 then JNull
    else
      match host.atob(UrlToStdAlphabet(parts[1]))
      case None => JNull
      case Some(json) =>
        match host.jsonParse(json)
        case None => JNull
        case Some(obj) =>
          match CoerceSub(host, obj)
          case None => JNull
          case Some(v) => v
  }

  /** No padding is added: `atob` sees exactly as many characters as the
      segment has, only the two alphabet characters replaced. */
  lemma AtobInputUnpadded(segment: string)
    ensures |UrlToStdAlphabet(segment)| == |segment|
    ensures '=' in segment <==> '=' in UrlToStdAlphabet(segment)
  {
    var t := UrlToStdAlphabet(segment);
    if '=' in segment {
      var i :| 0 <= i < |segment| && segment[i] == '=';
      assert t[i] == '=';
    }
    if '=' in t {
      var i :| 0 <= i < |t| && t[i] == '=';
      assert segment[i] == '=';
    }
  }

  /** A compact token whose payload segment decodes, parses and coerces
      yields the coerced payload. */
  lemma DecodeOfToken(host: Host, header: string, payload: string, sig: string, o: JsValue, v: JsValue)
    requires '.' !in header && '.' !in payload && '.' !in sig
    requires host.atob(UrlToStdAlphabet(payload)).Some?
    requires host.jsonParse(host.atob(UrlToStdAlphabet(payload)).value) == Some(o)
    requires CoerceSub(host, o) == Some(v)
    ensures DecodeJwt(host, header + "." + payload + "." + sig) == v
  {
    LibAuth.CompactParts(header, payload, sig);
  }
}
