/** The turn store of api/_lib/db.ts (and its copy api/_lib/db.js) plus the
    older variants in services/db.ts, as one object whose fields are the
    three tables. Every operation is one atomic step on a sequential store;
    `now` and the day key are parameters, and the id of an inserted game is
    supplied by the caller instead of generated by the database. */
module Store {
  import opened Wrappers
  import opened JsValues
  import opened Records

  /** What `fetchGameState` returns for a game that exists. */
  datatype GameState = GameState(game: Game, turns: seq<Turn>)

  /** `SELECT id FROM games WHERE day_date = today` finds a row. */
  predicate HasGameOn(games: map<string, Game>, today: string) {
    exists id :: id in games && games[id].dayDate == today
  }

  class GameStore {
    /** `games`, keyed by id. */
    var games: map<string, Game>
    /** The `turns` rows of each game, in insertion order. */
    var turns: map<string, seq<Turn>>
    /** `users`, keyed by fid. */
    var users: map<int, Profile>

    /** Every game has a (possibly empty) list of turns and no turn belongs
        to an unknown game; at most one game per day. */
    ghost predicate Valid()
      reads this
    {
      && turns.Keys == games.Keys
      && (forall a, b :: a in games && b in games && games[a].dayDate == games[b].dayDate ==> a == b)
    }

    /** The numbering invariant of every game: turns 1..k, current_turn =
        k + 1, and no turn past max_turns. */
    ghost predicate WellNumbered()
      reads this
    {
      && turns.Keys == games.Keys
      && (forall id :: id in games ==> Consistent(games[id], turns[id]) && Bounded(games[id]))
    }

    /** An empty database. */
    constructor ()
      ensures Valid() && WellNumbered()
      ensures games == map[] && turns == map[] && users == map[]
    {
      games, turns, users := map[], map[], map[];
    }

    /** The look-up-or-insert shared by both `getOrCreateTodayGame`s: the
        id of today's game, or `row` inserted under `freshId`. */
    method LookupOrInsert(today: string, row: Game, rowStorable: bool, freshId: string)
      returns (r: Result<string, StoreError>)
      requires Valid() && row.dayDate == today
      modifies this
      ensures Valid() && users == old(users)
      ensures HasGameOn(old(games), today) ==>
        && r.Success? && r.value in old(games) && old(games)[r.value].dayDate == today
        && games == old(games) && turns == old(turns)
      ensures !HasGameOn(old(games), today) && (freshId in old(games) || !rowStorable) ==>
        r == Failure(StorageRejected) && games == old(games) && turns == old(turns)
      ensures !HasGameOn(old(games), today) && freshId !in old(games) && rowStorable ==>
        && r == Success(freshId)
        && games == old(games)[freshId := row]
        && turns == old(turns)[freshId := []]
      ensures r.Success? ==> r.value in games && games[r.value].dayDate == today
    {
      if HasGameOn(games, today) {
        var id :| id in games && games[id].dayDate == today;
        return Success(id);
      }
      if freshId in games || !rowStorable {
        return Failure(StorageRejected);
      }
      games := games[freshId := row];
      turns := turns[freshId := []];
      r := Success(freshId);
    }

    /** api/_lib/db.ts `getOrCreateTodayGame`: the initial editor becomes
        the custody holder of a new game; no creator is recorded. */
    method GetOrCreateTodayGame(today: string, seedImageUrl: string, seedPrompt: string,
                                initialEditorFid: Option<JsNumber>, freshId: string, now: int)
      returns (r: Result<string, StoreError>)
      requires Valid()
      modifies this
      ensures Valid() && users == old(users)
      ensures old(WellNumbered()) ==> WellNumbered()
      // today's game exists: its id, and nothing is written
      ensures HasGameOn(old(games), today) ==>
        && r.Success? && r.value in old(games) && old(games)[r.value].dayDate == today
        && games == old(games) && turns == old(turns)
      // otherwise exactly one game is inserted
      ensures !HasGameOn(old(games), today) && r.Success? ==>
        && r.value == freshId && r.value !in old(games)
        && games == old(games)[r.value := NewGame(today, seedImageUrl, seedPrompt,
                                                  FidColumn(initialEditorFid), None, now)]
        && turns == old(turns)[r.value := []]
      ensures !HasGameOn(old(games), today) ==>
        (r.Success? <==> freshId !in old(games) && StorableOpt(initialEditorFid))
      ensures r.Failure? ==> r.error == StorageRejected && games == old(games) && turns == old(turns)
    {
      var row := NewGame(today, seedImageUrl, seedPrompt, FidColumn(initialEditorFid), None, now);
      NewGameConsistent(today, seedImageUrl, seedPrompt, FidColumn(initialEditorFid), None, now);
      r := LookupOrInsert(today, row, StorableOpt(initialEditorFid), freshId);
    }

    /** services/db.ts `getOrCreateTodayGame`: records `creator_fid` and
        leaves the custody holder NULL. */
    method GetOrCreateTodayGameWithCreator(today: string, seedImageUrl: string, seedPrompt: string,
                                           creatorFid: Option<JsNumber>, freshId: string, now: int)
      returns (r: Result<string, StoreError>)
      requires Valid()
      modifies this
      ensures Valid() && users == old(users)
      ensures old(WellNumbered()) ==> WellNumbered()
      ensures HasGameOn(old(games), today) ==>
        && r.Success? && r.value in old(games) && old(games)[r.value].dayDate == today
        && games == old(games) && turns == old(turns)
      ensures !HasGameOn(old(games), today) && r.Success? ==>
        && r.value == freshId && r.value !in old(games)
        && games == old(games)[r.value := NewGame(today, seedImageUrl, seedPrompt,
                                                  None, FidColumn(creatorFid), now)]
        && turns == old(turns)[r.value := []]
      ensures !HasGameOn(old(games), today) ==>
        (r.Success? <==> freshId !in old(games) && StorableOpt(creatorFid))
      ensures r.Failure? ==> r.error == StorageRejected && games == old(games) && turns == old(turns)
    {
      var row := NewGame(today, seedImageUrl, seedPrompt, None, FidColumn(creatorFid), now);
      NewGameConsistent(today, seedImageUrl, seedPrompt, None, FidColumn(creatorFid), now);
      r := LookupOrInsert(today, row, StorableOpt(creatorFid), freshId);
    }

    /** `fetchGameState`: null for an unknown id, else the row and its
        turns ascending by turn number. */
    method FetchGameState(gameId: string) returns (r: Option<GameState>)
      requires Valid()
      ensures r.None? <==> gameId !in games
      ensures r.Some? ==>
        && r.value.game == games[gameId]
        && multiset(r.value.turns) == multiset(turns[gameId])
        && SortedByNumber(r.value.turns)
        && r.value.turns == SortTurns(turns[gameId])
      // the turns of a well-numbered game come back as written
      ensures r.Some? && NumberedFromOne(turns[gameId]) ==> r.value.turns == turns[gameId]
    {
      if gameId !in games {
        return None;
      }
      var sorted := SortTurns(turns[gameId]);
      SortTurnsCorrect(turns[gameId]);
      if NumberedFromOne(turns[gameId]) {
        NumberedIsSorted(turns[gameId]);
        SortTurnsSorted(turns[gameId]);
      }
      r := Some(GameState(games[gameId], sorted));
    }

    /** `assertTurnPermission`: not found, then not active, then not your
        turn. */
    method AssertTurnPermission(gameId: string, fid: JsNumber) returns (r: Outcome<StoreError>)
      requires Valid()
      ensures gameId !in games ==> r == Fail(GameNotFound)
      ensures gameId in games ==> r == Permission(games[gameId], fid)
      ensures r.Pass? <==> gameId in games && games[gameId].status == ACTIVE && HoldsCustody(games[gameId], fid)
    {
      if gameId !in games {
        return Fail(GameNotFound);
      }
      var g := games[gameId];
      if g.status != ACTIVE {
        return Fail(GameNotActive);
      }
      if !HoldsCustody(g, fid) {
        return Fail(NotYourTurn);
      }
      r := Pass;
    }

    /** `insertTurnAndPass`: refuse an unknown or completed game, else
        append the turn at current_turn and pass custody to `passedToFid`.
        It takes no ipfs cid: the inserted turn has none. */
    method InsertTurnAndPass(gameId: string, editorFid: JsNumber, passedToFid: JsNumber,
                             prompt: string, imageUrl: string, now: int)
      returns (r: Outcome<StoreError>)
      requires Valid()
      modifies this
      ensures Valid() && users == old(users)
      ensures old(WellNumbered()) ==> WellNumbered()
      ensures gameId !in old(games) ==> r == Fail(GameNotFound)
      ensures gameId in old(games) && old(games)[gameId].currentTurn > old(games)[gameId].maxTurns ==>
        r == Fail(GameAlreadyCompleted)
      ensures r.Fail? ==> games == old(games) && turns == old(turns)
      ensures gameId in old(games) ==>
        var f := Finalize(old(games)[gameId], old(turns)[gameId], editorFid, passedToFid, prompt, imageUrl, now);
        && (f.Failure? ==> r == Fail(f.error))
        && (f.Success? ==> r == Pass && games == old(games)[gameId := f.value.0]
                                     && turns == old(turns)[gameId := f.value.1])
    {
      if gameId !in games {
        return Fail(GameNotFound);
      }
      var g, ts := games[gameId], turns[gameId];
      if g.currentTurn > g.maxTurns {
        return Fail(GameAlreadyCompleted);
      }
      if !Storable(editorFid) || !Storable(passedToFid) {
        return Fail(StorageRejected);
      }
      var t := FinalizedTurn(g.currentTurn, editorFid.v, Some(passedToFid.v), prompt, imageUrl, now);
      turns := turns[gameId := ts + [t]];
      games := games[gameId := g.(currentTurn := g.currentTurn + 1, nextEditor := Some(passedToFid.v),
                                  expiry := Some(now + TURN_WINDOW_MS), updatedAt := Some(now))];
      if old(WellNumbered()) {
        FinalizeKeepsInvariants(g, ts, editorFid, passedToFid, prompt, imageUrl, now);
      }
      r := Pass;
    }

    /** services/db.ts `insertTurn`: append at the caller's `turnNumber`
        with no permission or completion check; a turn of an unknown game
        violates the foreign key. */
    method InsertTurn(gameId: string, turnNumber: int, editorFid: JsNumber, passedToFid: Option<JsNumber>,
                      prompt: string, imageUrl: string, now: int)
      returns (r: Outcome<StoreError>)
      requires Valid()
      modifies this
      ensures Valid() && users == old(users)
      ensures gameId !in old(games) ==> r == Fail(StorageRejected)
      ensures r.Fail? ==> r.error == StorageRejected && games == old(games) && turns == old(turns)
      ensures gameId in old(games) ==>
        var a := AppendTurn(old(games)[gameId], old(turns)[gameId], turnNumber, editorFid, passedToFid,
                            prompt, imageUrl, now);
        && (a.Failure? <==> r.Fail?)
        && (a.Success? ==>
              games == old(games)[gameId := a.value.0] && turns == old(turns)[gameId := a.value.1])
      // written at current_turn below the bound, numbering survives
      ensures (old(WellNumbered()) && gameId in old(games) && turnNumber == old(games)[gameId].currentTurn
               && old(games)[gameId].currentTurn <= old(games)[gameId].maxTurns) ==> WellNumbered()
    {
      if gameId !in games {
        return Fail(StorageRejected);
      }
      var g, ts := games[gameId], turns[gameId];
      if !Storable(editorFid) || !StorableOpt(passedToFid) {
        return Fail(StorageRejected);
      }
      var t := FinalizedTurn(turnNumber, editorFid.v, FidColumn(passedToFid), prompt, imageUrl, now);
      var g' := g.(currentTurn := g.currentTurn + 1, expiry := Some(now + TURN_WINDOW_MS), updatedAt := Some(now));
      assert AppendTurn(g, ts, turnNumber, editorFid, passedToFid, prompt, imageUrl, now) == Success((g', ts + [t]));
      if old(WellNumbered()) && turnNumber == g.currentTurn && g.currentTurn <= g.maxTurns {
        AppendAtCurrentKeepsNumbering(g, ts, editorFid, passedToFid, prompt, imageUrl, now);
      }
      turns := turns[gameId := ts + [t]];
      games := games[gameId := g'];
      r := Pass;
    }

    /** `setTurnIpfs`: set `ipfs_cid` on the rows of `gameId` numbered
        `turnNumber`; nothing else changes. */
    method SetTurnIpfs(gameId: string, turnNumber: int, cid: string)
      requires Valid()
      modifies this
      ensures Valid()
      ensures games == old(games) && users == old(users)
      ensures gameId !in old(turns) ==> turns == old(turns)
      ensures gameId in old(turns) ==> turns == old(turns)[gameId := WithIpfs(old(turns)[gameId], turnNumber, cid)]
      ensures old(WellNumbered()) ==> WellNumbered()
    {
      if gameId in turns {
        if old(WellNumbered()) {
          WithIpfsKeepsNumbering(games[gameId], turns[gameId], turnNumber, cid);
        }
        turns := turns[gameId := WithIpfs(turns[gameId], turnNumber, cid)];
      }
    }

    /** services/db.ts `upsertUserProfile`: row `fid` becomes exactly the
        supplied profile; other rows are untouched. */
    method UpsertUserProfile(fid: int, username: Option<string>, displayName: Option<string>,
                             pfpUrl: Option<string>, now: int)
      modifies this
      ensures games == old(games) && turns == old(turns)
      ensures users == old(users)[fid := UpsertedProfile(if fid in old(users) then Some(old(users)[fid]) else None,
                                                         username, displayName, pfpUrl, now)]
      ensures users.Keys == old(users).Keys + {fid}
      ensures forall other :: other in old(users) && other != fid ==> users[other] == old(users)[other]
    {
      var existing := if fid in users then Some(users[fid]) else None;
      users := users[fid := UpsertedProfile(existing, username, displayName, pfpUrl, now)];
    }
  }
}
