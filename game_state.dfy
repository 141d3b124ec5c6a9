/** api/game-state.js: the read path. It creates today's game on first
    access, with the caller (if any) as its first holder, and returns the
    stored state as it is: nothing is released or reassigned on read. */
module GameStateApi {
  import opened Wrappers
  import opened JsValues
  import opened Records
  import opened Http
  import opened Store
  import LibAuth

  const DEFAULT_SEED_IMAGE: string := "https://picsum.photos/id/28/800/800"
  const DEFAULT_SEED_PROMPT: string := "A mysterious forest landscape"

  /** The handler, for day key `today`; `freshId` is the id the database
      would give a new row. */
  method Handle(store: GameStore, host: Host, req: Request, today: string, freshId: string, now: int)
    returns (reply: Reply)
    requires store.Valid()
    modifies store
    ensures store.Valid() && store.users == old(store.users)
    ensures old(store.WellNumbered()) ==> store.WellNumbered()
    ensures req.httpMethod != GET ==> reply == Error(MethodNotAllowed)
    ensures req.httpMethod != GET || HasGameOn(old(store.games), today) ==>
      store.games == old(store.games) && store.turns == old(store.turns)
    ensures reply.Error? && reply.kind.ServerError? ==> reply.kind.detail == Message(StorageRejected)
    // a GET always answers with today's game unless the insert is refused
    ensures req.httpMethod == GET && HasGameOn(old(store.games), today) ==> reply.Snapshot?
    ensures !reply.Snapshot? ==> store.games == old(store.games) && store.turns == old(store.turns)
    ensures reply.Snapshot? ==>
      && req.httpMethod == GET
      && reply.callerFid == LibAuth.ExtractFidFromAuthHeader(host, req.authorization)
      // the stored row, unchanged by the read, with its turns ascending
      && reply.gameId in store.games
      && reply.game == store.games[reply.gameId]
      && reply.game.dayDate == today
      && reply.turns == SortTurns(store.turns[reply.gameId])
      && SortedByNumber(reply.turns)
      && multiset(reply.turns) == multiset(store.turns[reply.gameId])
    // existing game: returned as it was; no game yet: the caller holds the new one
    ensures reply.Snapshot? && HasGameOn(old(store.games), today) ==>
      reply.gameId in old(store.games) && reply.game == old(store.games)[reply.gameId]
    // no game yet: a GET seeds today's game under the new id, with the
    // caller as holder, unless the insert is refused; nothing else changes
    ensures req.httpMethod == GET && !HasGameOn(old(store.games), today) ==>
      var fid := LibAuth.ExtractFidFromAuthHeader(host, req.authorization);
      && (reply.Snapshot? <==> freshId !in old(store.games) && StorableOpt(fid))
      && (reply.Snapshot? ==>
            && reply.gameId == freshId
            && store.games == old(store.games)[freshId := NewGame(today, DEFAULT_SEED_IMAGE, DEFAULT_SEED_PROMPT, FidColumn(fid), None, now)]
            && store.turns == old(store.turns)[freshId := []])
    ensures reply.Snapshot? && !HasGameOn(old(store.games), today) ==>
      && reply.game == NewGame(today, DEFAULT_SEED_IMAGE, DEFAULT_SEED_PROMPT, FidColumn(reply.callerFid), None, now)
      && reply.turns == []
  {
    if req.httpMethod != GET {
      return Error(MethodNotAllowed);
    }
    var callerFid := LibAuth.ExtractFidFromAuthHeader(host, req.authorization);
    var created := store.GetOrCreateTodayGame(today, DEFAULT_SEED_IMAGE, DEFAULT_SEED_PROMPT, callerFid, freshId, now);
    if created.Failure? {
      return Error(ServerError(Message(created.error)));
    }
    var gameId := created.value;
    var state := store.FetchGameState(gameId);
    // `if (!state)` answers 500 'Failed to load state'; a game just found
    // or inserted is always there, so `state` is never null here
    var st := state.value;
    SortTurnsCorrect(store.turns[gameId]);
    reply := Snapshot(gameId, st.game, st.turns, callerFid);
  }
}
