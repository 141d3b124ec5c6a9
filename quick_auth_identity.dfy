/** The client-side identity hook in hooks/useQuickAuthIdentity.ts: a pure
    `sub` decoder, and the hook's state, which the asynchronous initialiser
    fills in unless the effect has been cleaned up meanwhile. */
module QuickAuthIdentity {
  import opened Wrappers
  import opened JsValues
  import opened JsStrings
  import LibAuth

  /** The payload segment as `decodeJwtSub` hands it to `atob`: alphabet
      translated, then `padEnd` to the next multiple of 4. */
  function PaddedPayload(segment: string): (p: string)
    ensures |p| == |segment| + (4 - |segment| % 4) % 4
    ensures |p| % 4 == 0
    ensures '-' !in p && '_' !in p
    ensures p == UrlToStdAlphabet(segment) + Repeat('=', LibAuth.PadLength(|segment|))
  {
    var p := PadEnd(UrlToStdAlphabet(segment), |segment| + (4 - |segment| % 4) % 4, '=');
    assert p == UrlToStdAlphabet(segment) + Repeat('=', LibAuth.PadLength(|segment|));
    p
  }

  /** Where this padding and api/_lib/auth.ts agree and differ: the same
      string for every length except 1 more than a multiple of 4, for which
      the hook appends three '=' and the server throws. */
  lemma PaddingAgainstServer(segment: string)
    ensures |segment| % 4 != 1 ==> LibAuth.Base64UrlToBase64(segment) == Success(PaddedPayload(segment))
    ensures |segment| % 4 == 1 ==>
      LibAuth.Base64UrlToBase64(segment).Failure? && PaddedPayload(segment) == UrlToStdAlphabet(segment) + "==="
  {
    if |segment| % 4 == 1 {
      assert Repeat('=', 3) == "===";
    }
  }

  /** How `decodeJwtSub` reads the `sub` of a parsed payload. */
  function SubOfPayload(host: Host, data: JsValue): (r: Option<JsNumber>)
    ensures data.JNull? || data.JUndefined? ==> r.None?
    ensures Get(data, "sub").JNum? && !data.JNull? ==> r == Some(Get(data, "sub").n)
    ensures Get(data, "sub").JStr? ==>
      var n := host.stringToNumber(Get(data, "sub").s);
      r == if IsFinite(n) then Some(n) else None
    ensures !Get(data, "sub").JNum? && !Get(data, "sub").JStr? ==> r.None?
  {
    match GetStrict(data, "sub")
    case None => None
    case Some(sub) =>
      match sub
      case JNum(n) => Some(n)
      case JStr(s) =>
        var n := host.stringToNumber(s);
        if IsFinite(n) then Some(n) else None
      case _ => None
  }

  /** `decodeJwtSub`: the subject as a number, or null. */
  function DecodeJwtSub(host: Host, jwt: string): (r: Option<JsNumber>)
    ensures Count(jwt, '.') != 2 ==> r.None?
    ensures r.Some? ==>
      && |Split(jwt, '.')| == 3
      && var bin := host.atob(PaddedPayload(Split(jwt, '.')[1]));
      && bin.Some?
      && var data := host.jsonParse(bin.value);
      && data.Some?
      && SubOfPayload(host, data.value) == r
    // conversely, a payload that decodes and parses yields its `sub`
    ensures |Split(jwt, '.')| == 3 ==>
      var bin := host.atob(PaddedPayload(Split(jwt, '.')[1]));
      bin.Some? ==>
        var data := host.jsonParse(bin.value);
        data.Some? ==> r == SubOfPayload(host, data.value)
  {
    SplitCount(jwt, '.');
    var parts := Split(jwt, '.');
    if |parts| != 3 then None
    else
      match host.atob(PaddedPayload(parts[1]))
      case None => None
      case Some(json) =>
        match host.jsonParse(json)
        case None => None
        case Some(data) => SubOfPayload(host, data)
  }

  /** `!sub` for the decoder's result: null, 0 and NaN are rejected. */
  predicate SubAccepted(sub: Option<JsNumber>) {
    sub.Some? && NumberTruthy(sub.value)
  }

  /** `if (!sub) throw`: null, 0 and NaN are turned away; any other integer
      and either infinity get through. */
  lemma SubAcceptedCases(n: int, positive: bool)
    ensures !SubAccepted(None) && !SubAccepted(Some(Finite(0))) && !SubAccepted(Some(NaN))
    ensures SubAccepted(Some(Finite(n))) <==> n != 0
    ensures SubAccepted(Some(Infinity(positive)))
  {
  }

  const FETCH_FAILED: string := "Failed to get quickauth token"
  const INVALID_SUB: string := "Invalid JWT sub"
  const INIT_FAILED: string := "QuickAuth init failed"

  /** What the token request in `init` produced: a thrown error with its
      message (a failed or non-ok response, an unreadable body), or the
      token string. */
  datatype TokenFetch = FetchFailed(message: string) | TokenReceived(jwt: string)

  /** `e.message || 'QuickAuth init failed'` */
  function ErrorText(message: string): (t: string)
    ensures t != ""
    ensures message != "" ==> t == message
    ensures message == "" ==> t == INIT_FAILED
  {
    if message != "" then message else INIT_FAILED
  }

  /** The hook's state: its three `useState` cells, the effect's `cancelled`
      flag and the two window globals plus the count of 'quickauth-ready'
      events dispatched. */
  class IdentityHook {
    var fid: Option<JsNumber>
    var token: Option<string>
    var error: Option<string>
    var cancelled: bool
    var windowToken: Option<string>
    var windowFid: Option<JsNumber>
    var readyEvents: nat

    /** The hook's first render and the effect's start. */
    constructor ()
      ensures fid.None? && token.None? && error.None? && !cancelled
      ensures windowToken.None? && windowFid.None? && readyEvents == 0
    {
      fid, token, error, cancelled := None, None, None, false;
      windowToken, windowFid, readyEvents := None, None, 0;
    }

    /** The effect's cleanup: `cancelled = true`. */
    method Cleanup()
      modifies this
      ensures cancelled
      ensures fid == old(fid) && token == old(token) && error == old(error)
      ensures windowToken == old(windowToken) && windowFid == old(windowFid)
      ensures readyEvents == old(readyEvents)
    {
      cancelled := true;
    }

    /** The rest of `init` once the token request has settled. */
    method CompleteInit(host: Host, fetched: TokenFetch)
      modifies this
      ensures cancelled == old(cancelled)
      // after cleanup nothing is written at all
      ensures old(cancelled) ==>
        && fid == old(fid) && token == old(token) && error == old(error)
        && windowToken == old(windowToken) && windowFid == old(windowFid)
        && readyEvents == old(readyEvents)
      ensures !old(cancelled) && fetched.FetchFailed? ==>
        && error == Some(ErrorText(fetched.message))
        && fid == old(fid) && token == old(token)
        && windowToken == old(windowToken) && windowFid == old(windowFid)
        && readyEvents == old(readyEvents)
      ensures !old(cancelled) && fetched.TokenReceived? ==>
        var sub := DecodeJwtSub(host, fetched.jwt);
        if SubAccepted(sub) then
          && fid == Some(sub.value) && token == Some(fetched.jwt) && error == old(error)
          && windowFid == Some(sub.value) && windowToken == Some(fetched.jwt)
          && readyEvents == old(readyEvents) + 1
        else
          && error == Some(INVALID_SUB)
          && fid == old(fid) && token == old(token)
          && windowToken == old(windowToken) && windowFid == old(windowFid)
          && readyEvents == old(readyEvents)
      // a fid is only ever set to a truthy number
      ensures fid != old(fid) ==> fid.Some? && NumberTruthy(fid.value)
    {
      match fetched
      case FetchFailed(message) =>
        if !cancelled {
          error := Some(ErrorText(message));
        }
      case TokenReceived(jwt) =>
        var sub := DecodeJwtSub(host, jwt);
        if !SubAccepted(sub) {
          // `throw new Error('Invalid JWT sub')`, caught below
          if !cancelled {
            error := Some(INVALID_SUB);
          }
          return;
        }
        if cancelled {
          return;
        }
        token := Some(jwt);
        fid := Some(sub.value);
        windowToken := Some(jwt);
        windowFid := Some(sub.value);
        readyEvents := readyEvents + 1;
    }
  }

  /** A compact token whose padded payload decodes and parses yields the
      `sub` of that payload. */
  lemma DecodeJwtSubOfToken(host: Host, header: string, payload: string, sig: string, d: JsValue)
    requires '.' !in header && '.' !in payload && '.' !in sig
    requires host.atob(PaddedPayload(payload)).Some?
    requires host.jsonParse(host.atob(PaddedPayload(payload)).value) == Some(d)
    ensures DecodeJwtSub(host, header + "." + payload + "." + sig) == SubOfPayload(host, d)
  {
    LibAuth.CompactParts(header, payload, sig);
  }
}
