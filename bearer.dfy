/** The header test `auth.match(/^Bearer\s+(.+)$/i)` shared by every
    identity extractor, written out as a function and proved against the
    regular expression's meaning. */
module Bearer {
  import opened Wrappers

  /** ECMAScript LineTerminator: the characters `.` does not match. */
  predicate IsLineTerminator(c: char) {
    c == '\n' || c == '\r' || c == '\U{2028}' || c == '\U{2029}'
  }

  /** ECMAScript `\s`: WhiteSpace or LineTerminator. */
  predicate IsWhitespace(c: char) {
    || IsLineTerminator(c)
    || c == '\t' || c == '\U{B}' || c == '\U{C}' || c == ' ' || c == '\U{A0}'
    || c == '\U{1680}' || ('\U{2000}' <= c <= '\U{200A}')
    || c == '\U{202F}' || c == '\U{205F}' || c == '\U{3000}' || c == '\U{FEFF}'
  }

  /** Case folding as the `i` flag applies it to the letters of "Bearer". */
  function Upper(c: char): char {
    if 'a' <= c <= 'z' then (c as int - 32) as char else c
  }

  predicate SameIgnoringCase(a: string, b: string) {
    |a| == |b| && forall i :: 0 <= i < |a| ==> Upper(a[i]) == Upper(b[i])
  }

  const SCHEME: string := "Bearer"

  predicate AllWhitespace(s: string) {
    forall i :: 0 <= i < |s| ==> IsWhitespace(s[i])
  }

  predicate NoLineTerminator(s: string) {
    forall i :: 0 <= i < |s| ==> !IsLineTerminator(s[i])
  }

  /** Length of the longest whitespace prefix of `s`. */
  function WhitespaceRun(s: string): (n: nat)
    ensures n <= |s|
    ensures AllWhitespace(s[..n])
    ensures n < |s| ==> !IsWhitespace(s[n])
  {
    if s == [] || !IsWhitespace(s[0]) then 0
    else
      var n := 1 + WhitespaceRun(s[1..]);
      assert s[..n] == [s[0]] + s[1..][..n - 1];
      n
  }

  /** The regular expression matches `h` with `\s+` taking exactly `k`
      characters: "Bearer" in any case, `k >= 1` whitespace characters,
      then at least one character, none of them a line terminator, up to
      the end. */
  ghost predicate MatchesWith(h: string, k: int) {
    && 1 <= k
    && 6 + k < |h|
    && SameIgnoringCase(h[..6], SCHEME)
    && AllWhitespace(h[6..6 + k])
    && NoLineTerminator(h[6 + k..])
  }

  /** The captured token, or None when the header does not match. `\s+`
      is greedy, so the capture starts after the longest whitespace run that
      still leaves a character for `(.+)`. */
  function MatchBearer(h: string): (r: Option<string>)
    ensures (|h| < 6 || !SameIgnoringCase(h[..6], SCHEME)) ==> r.None?
    // a capture is a non-empty, single-line tail of the header, after the
    // scheme and at least one whitespace character
    ensures r.Some? ==>
      && 1 <= |r.value| <= |h| - 7
      && r.value == h[|h| - |r.value|..]
      && IsWhitespace(h[6])
      && NoLineTerminator(r.value)
  {
    if |h| < 6 || !SameIgnoringCase(h[..6], SCHEME) then None
    else
      var rest := h[6..];
      var w := WhitespaceRun(rest);
      if w == 0 then None
      else if w < |rest| then
        (if NoLineTerminator(rest[w..]) then Some(rest[w..]) else None)
      else if w >= 2 && !IsLineTerminator(rest[w - 1]) then Some([rest[w - 1]])
      else None
  }

  /** A whitespace prefix of length `k` is covered by the longest run. */
  lemma {:induction false} RunCoversPrefix(s: string, k: nat)
    requires k <= |s| && AllWhitespace(s[..k])
    ensures WhitespaceRun(s) >= k
  {
    if k > 0 {
      assert IsWhitespace(s[..k][0]);
      assert s[1..][..k - 1] == s[..k][1..];
      RunCoversPrefix(s[1..], k - 1);
    }
  }

  /** Every capture is a regex match, and it is the one with the longest
      `\s+`, as backtracking from a greedy `\s+` finds first. */
  lemma MatchBearerSound(h: string)
    requires MatchBearer(h).Some?
    ensures exists k :: MatchesWith(h, k) && MatchBearer(h).value == h[6 + k..]
    ensures forall k :: MatchesWith(h, k) ==> |MatchBearer(h).value| <= |h| - 6 - k
  {
    var rest := h[6..];
    var w := WhitespaceRun(rest);
    var k := if w < |rest| then w else w - 1;
    assert h[6..6 + k] == rest[..w][..k];
    assert h[6 + k..] == rest[k..];
    assert MatchesWith(h, k);
    forall k' | MatchesWith(h, k')
      ensures |MatchBearer(h).value| <= |h| - 6 - k'
    {
      assert rest[..k'] == h[6..6 + k'];
      RunCoversPrefix(rest, k');
    }
  }

  /** Whenever the regex matches in some way, `MatchBearer` captures. */
  lemma MatchBearerComplete(h: string, k: int)
    requires MatchesWith(h, k)
    ensures MatchBearer(h).Some?
  {
    var rest := h[6..];
    assert rest[..k] == h[6..6 + k];
    RunCoversPrefix(rest, k);
    var w := WhitespaceRun(rest);
    if w < |rest| {
      assert forall i :: 0 <= i < |rest[w..]| ==> rest[w..][i] == h[6 + k..][w - k + i];
    } else {
      assert rest[w - 1] == h[6 + k..][w - 1 - k];
    }
  }

  /** A header built as "Bearer", whitespace and a token that does not
      start with whitespace yields that token (the shape clients send). */
  lemma MatchBearerOfHeader(ws: string, token: string)
    requires |ws| >= 1 && AllWhitespace(ws)
    requires |token| >= 1 && !IsWhitespace(token[0]) && NoLineTerminator(token)
    ensures MatchBearer(SCHEME + ws + token) == Some(token)
  {
    var h := SCHEME + ws + token;
    var rest := h[6..];
    assert h[..6] == SCHEME;
    assert rest == ws + token;
    assert rest[..|ws|] == ws;
    RunCoversPrefix(rest, |ws|);
    var w := WhitespaceRun(rest);
    assert rest[|ws|] == token[0];
    assert w == |ws|;
    assert rest[w..] == token;
  }

  /** Concrete cases: any letter case is accepted; "Basic" and a missing
      token are not. */
  lemma MatchBearerExamples()
    ensures MatchBearer("Bearer abc") == Some("abc")
    ensures MatchBearer("bEARER \tx.y.z") == Some("x.y.z")
    ensures MatchBearer("Basic abc") == None
    ensures MatchBearer("Bearer") == None
    ensures MatchBearer("Bearer ") == None
    ensures MatchBearer("Bearerabc") == None
  {
    MatchBearerOfHeader(" ", "abc");
    assert SCHEME + " " + "abc" == "Bearer abc";
    assert "bEARER \tx.y.z"[6..] == " \tx.y.z";
    assert WhitespaceRun(" \tx.y.z") == 2;
    assert "Bearer "[6..] == " ";
    assert "Bearerabc"[6..] == "abc";
    assert WhitespaceRun("abc") == 0;
  }
}
