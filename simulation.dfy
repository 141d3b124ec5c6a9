/** The prototype's countdown and starting state from
    services/simulation.ts: integer millisecond arithmetic over `now`,
    which is passed in instead of read from the clock. */
module Simulation {
  import opened Wrappers
  import opened JsStrings

  const TURN_WINDOW_MS: int := 30 * 60 * 1000
  const MS_PER_MINUTE: int := 60000
  const MS_PER_SECOND: int := 1000

  const OPEN_TO_ALL: string := "Open to All"
  const EXPIRED_OPEN_ROUND: string := "Expired (Open Round)"

  /** What `formatTimeLeft` shows, before it is rendered to text. */
  datatype Countdown = OpenToAll | ExpiredOpenRound | Remaining(minutes: nat, seconds: nat)

  /** The countdown for a deadline: none (or 0) is open to all, a deadline
      not after `now` has expired, otherwise whole minutes and the whole
      seconds left over. */
  function CountdownOf(deadline: Option<int>, now: int): (c: Countdown)
    ensures deadline.None? || deadline == Some(0) <==> c == OpenToAll
    ensures c == ExpiredOpenRound <==> deadline.Some? && deadline.value != 0 && deadline.value - now <= 0
    ensures c.Remaining? ==>
      var diff := deadline.value - now;
      && diff > 0
      && c.seconds <= 59
      && c.minutes * MS_PER_MINUTE + c.seconds * MS_PER_SECOND <= diff
      && diff < c.minutes * MS_PER_MINUTE + c.seconds * MS_PER_SECOND + MS_PER_SECOND
  {
    if deadline.None? || deadline.value == 0 then OpenToAll
    else
      var diff := deadline.value - now;
      if diff <= 0 then ExpiredOpenRound
      else
        // `Math.floor` of a positive quotient is Euclidean division here
        Remaining(diff / MS_PER_MINUTE, (diff % MS_PER_MINUTE) / MS_PER_SECOND)
  }

  /** The displayed text: the two fixed labels or `${m}m ${s}s`. */
  function Render(c: Countdown): (r: string)
    ensures |r| >= 1
    // only a running countdown starts with a digit and ends in "s"
    ensures c.Remaining? <==> IsDigit(r[0])
    ensures c.Remaining? ==> r[|r| - 1] == 's'
  {
    match c
    case OpenToAll => OPEN_TO_ALL
    case ExpiredOpenRound => EXPIRED_OPEN_ROUND
    case Remaining(m, s) => NatToString(m) + "m " + NatToString(s) + "s"
  }

  /** `formatTimeLeft(deadline)` at time `now`. */
  function FormatTimeLeft(deadline: Option<int>, now: int): (r: string)
    ensures |r| >= 1
    ensures r == OPEN_TO_ALL <==> deadline.None? || deadline.value == 0
    ensures r == EXPIRED_OPEN_ROUND <==> deadline.Some? && deadline.value != 0 && deadline.value <= now
    ensures IsDigit(r[0]) <==> deadline.Some? && deadline.value != 0 && deadline.value > now
  {
    Render(CountdownOf(deadline, now))
  }

  /** The countdown is the unique decomposition of the remaining time into
      minutes and seconds below 60: any other (m, s) with the same bounds
      is the same pair. */
  lemma CountdownUnique(deadline: int, now: int, m: nat, s: nat)
    requires deadline != 0 && deadline - now > 0
    requires s <= 59
    requires m * MS_PER_MINUTE + s * MS_PER_SECOND <= deadline - now < m * MS_PER_MINUTE + s * MS_PER_SECOND + MS_PER_SECOND
    ensures CountdownOf(Some(deadline), now) == Remaining(m, s)
  {
    var c := CountdownOf(Some(deadline), now);
    var diff := deadline - now;
    var t := m * 60 + s;
    var u := c.minutes * 60 + c.seconds;
    assert t * 1000 <= diff < t * 1000 + 1000;
    assert u * 1000 <= diff < u * 1000 + 1000;
    assert t == u;
    assert m == t / 60 && s == t % 60;
  }

  /** A rendered countdown of the form `${m}m ${s}s` starts with the
      digits of `m`, which read back as `m`. */
  lemma RenderedMinutes(m: nat, s: nat)
    ensures var r := Render(Remaining(m, s));
      && var k := |NatToString(m)|;
      && k < |r| && r[..k] == NatToString(m) && r[k] == 'm'
      && ParseDecimal(r[..k]) == m
  {
    ParseNatToString(m);
  }

  /** A rendered countdown ends with the digits of `s` and the unit "s",
      and those digits read back as `s`. */
  lemma RenderedSeconds(m: nat, s: nat)
    ensures var r := Render(Remaining(m, s));
      && var k := |NatToString(s)|;
      && k + 1 < |r| && r[|r| - 1 - k..|r| - 1] == NatToString(s) && r[|r| - 2 - k] == ' '
      && ParseDecimal(r[|r| - 1 - k..|r| - 1]) == s
  {
    ParseNatToString(s);
  }

  /** Two digit strings each followed by a non-digit cannot overlap
      unevenly: if the texts agree, so do the digit strings. */
  lemma DigitPrefixUnique(a: string, b: string, x: string, y: string)
    requires forall i :: 0 <= i < |a| ==> IsDigit(a[i])
    requires forall i :: 0 <= i < |b| ==> IsDigit(b[i])
    requires |x| >= 1 && !IsDigit(x[0]) && |y| >= 1 && !IsDigit(y[0])
    requires a + x == b + y
    ensures a == b && x == y
  {
    assert a == (a + x)[..|a|] && b == (b + y)[..|b|];
    assert x == (a + x)[|a|..] && y == (b + y)[|b|..];
  }

  /** The display is unambiguous: different countdowns render differently. */
  lemma RenderInjective(c1: Countdown, c2: Countdown)
    requires Render(c1) == Render(c2)
    ensures c1 == c2
  {
    if c1.Remaining? && c2.Remaining? {
      var m1, s1, m2, s2 := c1.minutes, c1.seconds, c2.minutes, c2.seconds;
      var t1, t2 := NatToString(s1) + "s", NatToString(s2) + "s";
      assert Render(c1) == NatToString(m1) + ("m " + t1);
      assert Render(c2) == NatToString(m2) + ("m " + t2);
      DigitPrefixUnique(NatToString(m1), NatToString(m2), "m " + t1, "m " + t2);
      assert t1 == ("m " + t1)[2..] && t2 == ("m " + t2)[2..];
      DigitPrefixUnique(NatToString(s1), NatToString(s2), "s", "s");
      ParseNatToString(m1);
      ParseNatToString(m2);
      ParseNatToString(s1);
      ParseNatToString(s2);
    }
  }

  /** A prototype participant. */
  datatype FarcasterUser = FarcasterUser(fid: int, username: string, pfpUrl: string)

  /** One entry of the prototype's history. */
  datatype HistoryItem = HistoryItem(turn: int, editor: FarcasterUser, image: string, prompt: string)

  /** The prototype's game state (types.ts). */
  datatype GameState = GameState(
    turnCount: int,
    maxTurns: int,
    currentImage: string,
    currentPrompt: string,
    lastEditor: Option<FarcasterUser>,
    nextEditor: Option<FarcasterUser>,
    deadline: Option<int>,
    history: seq<HistoryItem>)

  const INITIAL_IMAGE: string := "https://picsum.photos/id/28/800/800"
  const INITIAL_PROMPT: string := "A mysterious forest landscape"

  /** `MOCK_USERS[3]`, the local player. */
  const YOU: FarcasterUser := FarcasterUser(88, "you", "https://picsum.photos/id/237/100/100")

  /** `getInitialState()` at time `now`. */
  function GetInitialState(now: int): (g: GameState)
    ensures g.turnCount == 1 && g.maxTurns == 10
    ensures g.lastEditor.None? && g.history == []
    ensures g.nextEditor == Some(YOU)
    ensures g.deadline == Some(now + TURN_WINDOW_MS)
  {
    GameState(1, 10, INITIAL_IMAGE, INITIAL_PROMPT, None, Some(YOU), Some(now + 30 * 60 * 1000), [])
  }

  /** A fresh game shows thirty minutes on the clock, unless the clock
      reads -1800000 so that the deadline lands on 0 and is read as none. */
  lemma InitialCountdown(now: int)
    requires now + TURN_WINDOW_MS != 0
    ensures CountdownOf(GetInitialState(now).deadline, now) == Remaining(30, 0)
    ensures FormatTimeLeft(GetInitialState(now).deadline, now) == "30m 0s"
  {
    assert NatToString(30) == "30";
    assert NatToString(0) == "0";
  }
}
