/** Rows of the `games`, `turns` and `users` tables and the pure transitions
    the store and the handlers apply to a game row: the permission check,
    the finalize step, the claim step, and the invariants they keep
    (turns numbered 1..k with no gaps, current_turn = k + 1, and no turn past
    max_turns). */
module Records {
  import opened Wrappers
  import opened JsValues

  /** `NOW() + interval '30 minutes'` in milliseconds. */
  const TURN_WINDOW_MS: int := 30 * 60 * 1000
  const DEFAULT_MAX_TURNS: int := 10
  const ACTIVE: string := "active"
  const FINALIZED: string := "finalized"

  /** A `games` row. Fids are integers; `nextEditor` is the custody holder
      (`next_editor_fid`), None for SQL NULL. Times are milliseconds. */
  datatype Game = Game(
    dayDate: string,
    seedImageUrl: string,
    seedPrompt: string,
    creatorFid: Option<int>,
    status: string,
    currentTurn: int,
    maxTurns: int,
    expiry: Option<int>,
    nextEditor: Option<int>,
    updatedAt: Option<int>)

  /** A `turns` row of one game. */
  datatype Turn = Turn(
    turnNumber: int,
    editorFid: int,
    passedToFid: Option<int>,
    prompt: string,
    imageUrl: string,
    ipfsCid: Option<string>,
    state: string,
    createdAt: int)

  /** A `users` row (the profile cache). `updatedAt` is None while the row
      has only been inserted: the insert leaves `updated_at` to the column
      default, which is not part of this model. */
  datatype Profile = Profile(
    username: Option<string>,
    displayName: Option<string>,
    pfpUrl: Option<string>,
    lastSeenAt: int,
    refreshedAt: int,
    updatedAt: Option<int>)

  /** The errors the store functions throw, and the database rejecting a
      write (a non-finite number in an integer column, a duplicate key, a
      missing foreign key). */
  datatype StoreError =
    | GameNotFound
    | GameNotActive
    | NotYourTurn
    | GameAlreadyCompleted
    | StorageRejected

  /** `e.message` of each thrown error. */
  function Message(e: StoreError): string {
    match e
    case GameNotFound => "Game not found"
    case GameNotActive => "Game not active"
    case NotYourTurn => "Not your turn"
    case GameAlreadyCompleted => "Game already completed"
    case StorageRejected => "database rejected the statement"
  }

  /** A number the integer fid columns accept. */
  predicate Storable(n: JsNumber) {
    n.Finite?
  }

  /** `next_editor_fid !== fid` is false: strict equality with the holder,
      so a NULL holder matches no caller. */
  predicate HoldsCustody(g: Game, fid: JsNumber) {
    fid.Finite? && g.nextEditor == Some(fid.v)
  }

  /** The row `getOrCreateTodayGame` inserts: active, turn 1 of 10, a
      30-minute expiry, the given holder and creator. */
  function NewGame(today: string, seedImageUrl: string, seedPrompt: string,
                   holder: Option<int>, creator: Option<int>, now: int): (g: Game)
    ensures g.status == ACTIVE && g.currentTurn == 1 && g.maxTurns == DEFAULT_MAX_TURNS
    ensures g.expiry == Some(now + TURN_WINDOW_MS)
    ensures g.nextEditor == holder && g.creatorFid == creator && g.dayDate == today
  {
    Game(today, seedImageUrl, seedPrompt, creator, ACTIVE, 1, DEFAULT_MAX_TURNS,
         Some(now + TURN_WINDOW_MS), holder, None)
  }

  /** The value an optional fid parameter puts in an integer column. */
  function FidColumn(fid: Option<JsNumber>): (c: Option<int>)
    ensures fid.None? ==> c.None?
    ensures fid.Some? && fid.value.Finite? ==> c == Some(fid.value.v)
  {
    if fid.Some? && fid.value.Finite? then Some(fid.value.v) else None
  }

  /** An optional fid the integer columns accept (SQL NULL always is). */
  predicate StorableOpt(fid: Option<JsNumber>) {
    fid.None? || Storable(fid.value)
  }

  /** `assertTurnPermission` on a game that exists: not active is checked
      before not your turn. */
  function Permission(g: Game, fid: JsNumber): (r: Outcome<StoreError>)
    ensures r.Pass? <==> g.status == ACTIVE && HoldsCustody(g, fid)
    ensures g.status != ACTIVE ==> r == Fail(GameNotActive)
    ensures g.status == ACTIVE && !HoldsCustody(g, fid) ==> r == Fail(NotYourTurn)
    ensures g.nextEditor.None? ==> r.Fail?
  {
    if g.status != ACTIVE then Fail(GameNotActive)
    else if !HoldsCustody(g, fid) then Fail(NotYourTurn)
    else Pass
  }

  /** The turn row a finalize inserts. */
  function FinalizedTurn(n: int, editor: int, passedTo: Option<int>, prompt: string,
                         imageUrl: string, now: int): Turn
  {
    Turn(n, editor, passedTo, prompt, imageUrl, None, FINALIZED, now)
  }

  /** `insertTurnAndPass` on a game that exists, as one atomic step:
      refuse a completed game; otherwise append a finalized turn at
      current_turn and advance the row, handing custody to `passedTo`.
      A fid the integer columns refuse makes the INSERT fail. */
  function Finalize(g: Game, ts: seq<Turn>, editor: JsNumber, passedTo: JsNumber,
                    prompt: string, imageUrl: string, now: int): (r: Result<(Game, seq<Turn>), StoreError>)
    ensures r.Failure? <==> g.currentTurn > g.maxTurns || !Storable(editor) || !Storable(passedTo)
    ensures g.currentTurn > g.maxTurns ==> r == Failure(GameAlreadyCompleted)
    ensures r.Failure? && g.currentTurn <= g.maxTurns ==> r.error == StorageRejected
    ensures r.Success? ==>
      var (g', ts') := r.value;
      && ts' == ts + [FinalizedTurn(g.currentTurn, editor.v, Some(passedTo.v), prompt, imageUrl, now)]
      && g'.currentTurn == g.currentTurn + 1
      && g'.nextEditor == Some(passedTo.v)
      && g'.expiry == Some(now + TURN_WINDOW_MS)
      && g' == g.(currentTurn := g'.currentTurn, nextEditor := g'.nextEditor,
                  expiry := g'.expiry, updatedAt := Some(now))
  {
    if g.currentTurn > g.maxTurns then Failure(GameAlreadyCompleted)
    else if !Storable(editor) || !Storable(passedTo) then Failure(StorageRejected)
    else
      var t := FinalizedTurn(g.currentTurn, editor.v, Some(passedTo.v), prompt, imageUrl, now);
      Success((g.(currentTurn := g.currentTurn + 1, nextEditor := Some(passedTo.v),
                  expiry := Some(now + TURN_WINDOW_MS), updatedAt := Some(now)),
               ts + [t]))
  }

  /** services/db.ts `insertTurn` on a game that exists: append a finalized
      turn at the caller's `turnNumber`, with no permission or completion
      check, then advance current_turn and the expiry; the holder and the
      status stay as they were. */
  function AppendTurn(g: Game, ts: seq<Turn>, turnNumber: int, editor: JsNumber,
                      passedTo: Option<JsNumber>, prompt: string, imageUrl: string,
                      now: int): (r: Result<(Game, seq<Turn>), StoreError>)
    ensures r.Failure? <==> !Storable(editor) || !StorableOpt(passedTo)
    ensures r.Failure? ==> r.error == StorageRejected
    ensures r.Success? ==>
      var (g', ts') := r.value;
      && ts' == ts + [FinalizedTurn(turnNumber, editor.v, FidColumn(passedTo), prompt, imageUrl, now)]
      && g'.currentTurn == g.currentTurn + 1
      && g'.expiry == Some(now + TURN_WINDOW_MS)
      && g'.nextEditor == g.nextEditor && g'.status == g.status && g'.maxTurns == g.maxTurns
      && g' == g.(currentTurn := g'.currentTurn, expiry := g'.expiry, updatedAt := Some(now))
  {
    if !Storable(editor) || !StorableOpt(passedTo) then Failure(StorageRejected)
    else
      var t := FinalizedTurn(turnNumber, editor.v, FidColumn(passedTo), prompt, imageUrl, now);
      Success((g.(currentTurn := g.currentTurn + 1, expiry := Some(now + TURN_WINDOW_MS),
                  updatedAt := Some(now)), ts + [t]))
  }

  /** Appending at current_turn, as api/submit-turn.ts does, keeps the
      numbering. */
  lemma AppendAtCurrentKeepsNumbering(g: Game, ts: seq<Turn>, editor: JsNumber,
                                      passedTo: Option<JsNumber>, prompt: string,
                                      imageUrl: string, now: int)
    requires Consistent(g, ts)
    requires AppendTurn(g, ts, g.currentTurn, editor, passedTo, prompt, imageUrl, now).Success?
    ensures var (g', ts') := AppendTurn(g, ts, g.currentTurn, editor, passedTo, prompt, imageUrl, now).value;
      Consistent(g', ts')
  {
  }

  /** ... but nothing bounds it: on a game whose ten turns are all written,
      the unguarded path still writes an eleventh. */
  lemma AppendPastMaxTurns(g: Game, ts: seq<Turn>, editor: int, prompt: string,
                           imageUrl: string, now: int)
    requires Consistent(g, ts) && g.currentTurn == g.maxTurns + 1
    ensures var r := AppendTurn(g, ts, g.currentTurn, Finite(editor), None, prompt, imageUrl, now);
      && r.Success?
      && |r.value.1| == g.maxTurns + 1
      && !Bounded(r.value.0)
  {
  }

  /** After `upsertUserProfile` the row holds exactly the supplied values:
      a null replaces what was there (no coalescing) and both timestamps
      are refreshed; `updated_at` is written only by the conflict branch. */
  function UpsertedProfile(existing: Option<Profile>, username: Option<string>,
                           displayName: Option<string>, pfpUrl: Option<string>, now: int): (p: Profile)
    ensures p.username == username && p.displayName == displayName && p.pfpUrl == pfpUrl
    ensures p.lastSeenAt == now && p.refreshedAt == now
    ensures p.updatedAt == if existing.Some? then Some(now) else None
  {
    Profile(username, displayName, pfpUrl, now, now, if existing.Some? then Some(now) else None)
  }

  /** "Expired" as api/claim-turn.js reads it: an expiry exists and lies
      strictly before `now`. */
  predicate Expired(g: Game, now: int) {
    g.expiry.Some? && g.expiry.value < now
  }

  /** A game without an expiry is never expired; one whose expiry is
      exactly `now` is not yet; once expired, it stays expired. */
  lemma ExpiredCases(g: Game, now: int, later: int)
    ensures g.expiry.None? ==> !Expired(g, now)
    ensures g.expiry == Some(now) ==> !Expired(g, now)
    ensures Expired(g, now) && now <= later ==> Expired(g, later)
  {
  }

  /** The row after a successful claim: the caller holds custody for a new
      window; nothing else but `updated_at` moves. */
  function Claimed(g: Game, caller: int, now: int): (g': Game)
    ensures g'.nextEditor == Some(caller) && g'.expiry == Some(now + TURN_WINDOW_MS)
    ensures g'.currentTurn == g.currentTurn && g'.status == g.status && g'.maxTurns == g.maxTurns
    ensures g'.dayDate == g.dayDate && g'.creatorFid == g.creatorFid
  {
    g.(nextEditor := Some(caller), expiry := Some(now + TURN_WINDOW_MS), updatedAt := Some(now))
  }

  /** A claim that has just succeeded cannot be repeated inside the new
      window: the game is no longer expired. */
  lemma ClaimThenNotExpired(g: Game, caller: int, now: int, later: int)
    requires later <= now + TURN_WINDOW_MS
    ensures !Expired(Claimed(g, caller, now), later)
  {
  }

  /** Turns numbered 1..k in order, with no gaps. */
  predicate NumberedFromOne(ts: seq<Turn>) {
    forall i :: 0 <= i < |ts| ==> ts[i].turnNumber == i + 1
  }

  /** The numbering invariant of one game: its k turns are 1..k and the
      next turn to write is k + 1. */
  predicate Consistent(g: Game, ts: seq<Turn>) {
    NumberedFromOne(ts) && g.currentTurn == |ts| + 1
  }

  /** No turn has been written past max_turns. */
  predicate Bounded(g: Game) {
    g.currentTurn <= g.maxTurns + 1
  }

  /** A fresh game has no turns and satisfies both invariants. */
  lemma NewGameConsistent(today: string, seedImageUrl: string, seedPrompt: string,
                          holder: Option<int>, creator: Option<int>, now: int)
    ensures var g := NewGame(today, seedImageUrl, seedPrompt, holder, creator, now);
      Consistent(g, []) && Bounded(g)
  {
  }

  /** A successful finalize keeps the numbering and the bound. */
  lemma FinalizeKeepsInvariants(g: Game, ts: seq<Turn>, editor: JsNumber, passedTo: JsNumber,
                                prompt: string, imageUrl: string, now: int)
    requires Consistent(g, ts) && Bounded(g)
    requires Finalize(g, ts, editor, passedTo, prompt, imageUrl, now).Success?
    ensures var (g', ts') := Finalize(g, ts, editor, passedTo, prompt, imageUrl, now).value;
      Consistent(g', ts') && Bounded(g') && g'.maxTurns == g.maxTurns
  {
  }

  /** One request against a single game: a finalize through the permission
      check (api/submit-turn.js, api/submit-turns.ts), or a claim
      (api/claim-turn.js). `Step` is the abstraction of those handlers on
      one game; their `Handle` contracts state that they apply it. The
      unguarded api/submit-turn.ts insert is not a move. */
  datatype Move =
    | Submit(caller: JsNumber, passedTo: JsNumber, prompt: string, imageUrl: string, now: int)
    | Claim(claimer: JsNumber, now: int)

  /** The effect of one move on a game and its turns; a refused move
      changes nothing. */
  function Step(g: Game, ts: seq<Turn>, m: Move): (Game, seq<Turn>) {
    match m
    case Submit(caller, passedTo, prompt, imageUrl, now) =>
      if Permission(g, caller).Fail? then (g, ts)
      else
        (match Finalize(g, ts, caller, passedTo, prompt, imageUrl, now)
         case Failure(_) => (g, ts)
         case Success(next) => next)
    case Claim(claimer, now) =>
      if g.status == ACTIVE && Expired(g, now) && Storable(claimer) then (Claimed(g, claimer.v, now), ts)
      else (g, ts)
  }

  /** Apply the moves in order. */
  function Run(g: Game, ts: seq<Turn>, moves: seq<Move>): (Game, seq<Turn>)
    decreases |moves|
  {
    if moves == [] then (g, ts)
    else
      var (g', ts') := Step(g, ts, moves[0]);
      Run(g', ts', moves[1..])
  }

  /** Whatever the interleaving of finalizes and claims, the turns stay
      numbered 1..k with current_turn = k + 1, max_turns does not change, and
      current_turn never passes max_turns + 1; the old turns are never
      rewritten. */
  lemma {:induction false} RunKeepsInvariants(g: Game, ts: seq<Turn>, moves: seq<Move>)
    requires Consistent(g, ts) && Bounded(g)
    ensures var (g', ts') := Run(g, ts, moves);
      && Consistent(g', ts') && Bounded(g')
      && g'.maxTurns == g.maxTurns
      && |ts| <= |ts'| && ts'[..|ts|] == ts
    decreases |moves|
  {
    if moves != [] {
      var (g1, ts1) := Step(g, ts, moves[0]);
      if moves[0].Submit? {
        var m := moves[0];
        if Permission(g, m.caller).Pass? && Finalize(g, ts, m.caller, m.passedTo, m.prompt, m.imageUrl, m.now).Success? {
          FinalizeKeepsInvariants(g, ts, m.caller, m.passedTo, m.prompt, m.imageUrl, m.now);
        }
      }
      assert Consistent(g1, ts1) && Bounded(g1) && g1.maxTurns == g.maxTurns;
      assert |ts| <= |ts1| && ts1[..|ts|] == ts;
      RunKeepsInvariants(g1, ts1, moves[1..]);
      var (g', ts') := Run(g1, ts1, moves[1..]);
      assert ts'[..|ts1|] == ts1;
      assert ts'[..|ts|] == ts1[..|ts|];
    }
  }

  /** From a fresh game, any sequence of claims and guarded submits leaves k <= 10 turns
      numbered exactly 1..k with current_turn = k + 1. */
  lemma FreshGameRun(today: string, seedImageUrl: string, seedPrompt: string,
                     holder: Option<int>, now: int, moves: seq<Move>)
    ensures var (g', ts') := Run(NewGame(today, seedImageUrl, seedPrompt, holder, None, now), [], moves);
      && (forall i :: 0 <= i < |ts'| ==> ts'[i].turnNumber == i + 1)
      && g'.currentTurn == |ts'| + 1
      && |ts'| <= DEFAULT_MAX_TURNS
  {
    var g := NewGame(today, seedImageUrl, seedPrompt, holder, None, now);
    NewGameConsistent(today, seedImageUrl, seedPrompt, holder, None, now);
    RunKeepsInvariants(g, [], moves);
  }

  /** A submit by anyone but the holder changes nothing. */
  lemma NonHolderSubmitChangesNothing(g: Game, ts: seq<Turn>, caller: JsNumber, passedTo: JsNumber,
                                      prompt: string, imageUrl: string, now: int)
    requires !HoldsCustody(g, caller)
    ensures Step(g, ts, Submit(caller, passedTo, prompt, imageUrl, now)) == (g, ts)
  {
  }

  /** Once current_turn passes max_turns no submit writes a turn, whoever
      sends it. */
  lemma CompletedGameAcceptsNoTurn(g: Game, ts: seq<Turn>, m: Move)
    requires g.currentTurn > g.maxTurns
    ensures Step(g, ts, m).1 == ts
  {
  }

  /** `UPDATE turns SET ipfs_cid = cid WHERE turn_number = n` over one
      game's rows. */
  function WithIpfs(ts: seq<Turn>, n: int, cid: string): (r: seq<Turn>)
    ensures |r| == |ts|
    ensures forall i :: 0 <= i < |ts| ==>
      r[i] == (if ts[i].turnNumber == n then ts[i].(ipfsCid := Some(cid)) else ts[i])
  {
    if ts == [] then []
    else [if ts[0].turnNumber == n then ts[0].(ipfsCid := Some(cid)) else ts[0]] + WithIpfs(ts[1..], n, cid)
  }

  /** Backfilling twice with the same cid is backfilling once. */
  lemma WithIpfsIdempotent(ts: seq<Turn>, n: int, cid: string)
    ensures WithIpfs(WithIpfs(ts, n, cid), n, cid) == WithIpfs(ts, n, cid)
  {
  }

  /** Without a row numbered `n` the backfill is a no-op. */
  lemma WithIpfsNoMatch(ts: seq<Turn>, n: int, cid: string)
    requires forall i :: 0 <= i < |ts| ==> ts[i].turnNumber != n
    ensures WithIpfs(ts, n, cid) == ts
  {
  }

  /** The backfill touches nothing but `ipfs_cid`, so the numbering
      invariant survives it. */
  lemma WithIpfsKeepsNumbering(g: Game, ts: seq<Turn>, n: int, cid: string)
    requires Consistent(g, ts)
    ensures Consistent(g, WithIpfs(ts, n, cid))
  {
  }

  /** The turns sorted ascending by turn number, equal numbers kept in
      insertion order (`ORDER BY turn_number ASC`). */
  function SortTurns(ts: seq<Turn>): seq<Turn> {
    if ts == [] then [] else Insert(ts[0], SortTurns(ts[1..]))
  }

  predicate SortedByNumber(ts: seq<Turn>) {
    forall i, j :: 0 <= i < j < |ts| ==> ts[i].turnNumber <= ts[j].turnNumber
  }

  /** Insert `t` in front of the first row with a greater-or-equal number. */
  function Insert(t: Turn, ts: seq<Turn>): seq<Turn> {
    if ts == [] || t.turnNumber <= ts[0].turnNumber then [t] + ts
    else [ts[0]] + Insert(t, ts[1..])
  }

  lemma {:induction false} InsertPermutes(t: Turn, ts: seq<Turn>)
    ensures multiset(Insert(t, ts)) == multiset(ts) + multiset{t}
  {
    if !(ts == [] || t.turnNumber <= ts[0].turnNumber) {
      InsertPermutes(t, ts[1..]);
      assert ts == [ts[0]] + ts[1..];
    }
  }

  /** A lower bound on every number survives insertion. */
  lemma {:induction false} InsertBounded(t: Turn, ts: seq<Turn>, b: int)
    requires t.turnNumber >= b
    requires forall i :: 0 <= i < |ts| ==> ts[i].turnNumber >= b
    ensures forall i :: 0 <= i < |Insert(t, ts)| ==> Insert(t, ts)[i].turnNumber >= b
  {
    if !(ts == [] || t.turnNumber <= ts[0].turnNumber) {
      InsertBounded(t, ts[1..], b);
    }
  }

  lemma {:induction false} InsertSorted(t: Turn, ts: seq<Turn>)
    requires SortedByNumber(ts)
    ensures SortedByNumber(Insert(t, ts))
  {
    if !(ts == [] || t.turnNumber <= ts[0].turnNumber) {
      var rest := Insert(t, ts[1..]);
      InsertSorted(t, ts[1..]);
      InsertBounded(t, ts[1..], ts[0].turnNumber);
      var r := [ts[0]] + rest;
      forall i, j | 0 <= i < j < |r|
        ensures r[i].turnNumber <= r[j].turnNumber
      {
        if i == 0 {
          assert r[j] == rest[j - 1];
        } else {
          assert r[i] == rest[i - 1] && r[j] == rest[j - 1];
        }
      }
    }
  }

  /** `ORDER BY turn_number ASC` returns the same rows, ascending. */
  lemma {:induction false} SortTurnsCorrect(ts: seq<Turn>)
    ensures multiset(SortTurns(ts)) == multiset(ts)
    ensures |SortTurns(ts)| == |ts|
    ensures SortedByNumber(SortTurns(ts))
  {
    if ts != [] {
      SortTurnsCorrect(ts[1..]);
      InsertPermutes(ts[0], SortTurns(ts[1..]));
      InsertSorted(ts[0], SortTurns(ts[1..]));
      assert ts == [ts[0]] + ts[1..];
      assert |SortTurns(ts)| == |multiset(SortTurns(ts))|;
    }
  }

  /** Sorting turns that are already in order changes nothing; in
      particular `fetchGameState` returns the turns of a consistent game in
      the order they were written. */
  lemma {:induction false} SortTurnsSorted(ts: seq<Turn>)
    requires SortedByNumber(ts)
    ensures SortTurns(ts) == ts
  {
    if ts != [] {
      SortTurnsSorted(ts[1..]);
      assert SortTurns(ts[1..]) == ts[1..];
    }
  }

  lemma NumberedIsSorted(ts: seq<Turn>)
    requires NumberedFromOne(ts)
    ensures SortedByNumber(ts)
  {
  }
}
