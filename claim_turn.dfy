/** api/claim-turn.js: anyone signed in may take custody of an active game
    whose turn window has lapsed. `ensureUser` is an external call with no
    effect on the tables modelled here. */
module ClaimTurnApi {
  import opened Wrappers
  import opened JsValues
  import opened Records
  import opened Http
  import opened Store
  import LibAuth

  /** The request reaches the game lookup: POST, a caller, a game id. */
  predicate Admitted(host: Host, req: Request) {
    && req.httpMethod == POST
    && LibAuth.ExtractFidFromAuthHeader(host, req.authorization).Some?
    && StringTruthy(req.body.gameId)
  }

  /** The handler. The claim is one UPDATE of the game row; it checks
      neither who holds the turn now nor whether turns remain. */
  method Handle(store: GameStore, host: Host, req: Request, now: int) returns (reply: Reply)
    requires store.Valid()
    modifies store
    ensures store.Valid()
    ensures store.turns == old(store.turns) && store.users == old(store.users)
    ensures old(store.WellNumbered()) ==> store.WellNumbered()
    ensures !reply.Updated? ==> store.games == old(store.games)
    // the guards, in order
    ensures req.httpMethod != POST ==> reply == Error(MethodNotAllowed)
    ensures req.httpMethod == POST && LibAuth.ExtractFidFromAuthHeader(host, req.authorization).None? ==>
      reply == Error(Unauthorized)
    ensures (req.httpMethod == POST && LibAuth.ExtractFidFromAuthHeader(host, req.authorization).Some?
             && !StringTruthy(req.body.gameId)) ==> reply == Error(MissingFields)
    ensures Admitted(host, req) && req.body.gameId.value !in old(store.games) ==> reply == Error(UnknownGame)
    ensures Admitted(host, req) && req.body.gameId.value in old(store.games) ==>
      var g := old(store.games)[req.body.gameId.value];
      && (g.status != ACTIVE ==> reply == Error(InactiveGame))
      && (g.status == ACTIVE && !Expired(g, now) ==> reply == Error(TurnNotExpired))
    // on a known game the handler's effect is the claim move of Records.Step
    ensures Admitted(host, req) && req.body.gameId.value in old(store.games) ==>
      var id := req.body.gameId.value;
      var s := Step(old(store.games)[id], old(store.turns)[id],
                    Claim(LibAuth.ExtractFidFromAuthHeader(host, req.authorization).value, now));
      store.games == old(store.games)[id := s.0] && s.1 == old(store.turns)[id]
    // a claim succeeds exactly on an active, expired game, whoever asks
    ensures reply.Updated? <==>
      && Admitted(host, req)
      && req.body.gameId.value in old(store.games)
      && old(store.games)[req.body.gameId.value].status == ACTIVE
      && Expired(old(store.games)[req.body.gameId.value], now)
      && Storable(LibAuth.ExtractFidFromAuthHeader(host, req.authorization).value)
    ensures reply.Updated? ==>
      var id := req.body.gameId.value;
      var caller := LibAuth.ExtractFidFromAuthHeader(host, req.authorization).value;
      && store.games == old(store.games)[id := Claimed(old(store.games)[id], caller.v, now)]
      && reply == Updated(store.games[id], SortTurns(store.turns[id]))
    // the only other outcome: the fid cannot be written
    ensures reply.Error? && reply.kind.ServerError? ==> reply.kind.detail == Message(StorageRejected)
  {
    if req.httpMethod != POST {
      return Error(MethodNotAllowed);
    }
    var callerFid := LibAuth.ExtractFidFromAuthHeader(host, req.authorization);
    if callerFid.None? {
      return Error(Unauthorized);
    }
    var body := req.body;
    if !StringTruthy(body.gameId) {
      return Error(MissingFields);
    }
    var gameId := body.gameId.value;
    if gameId !in store.games {
      return Error(UnknownGame);
    }
    var game := store.games[gameId];
    if game.status != ACTIVE {
      return Error(InactiveGame);
    }
    var expired := Expired(game, now);
    if !expired {
      return Error(TurnNotExpired);
    }
    if !Storable(callerFid.value) {
      // the integer column refuses the value and the UPDATE throws
      return Error(ServerError(Message(StorageRejected)));
    }
    store.games := store.games[gameId := Claimed(game, callerFid.value.v, now)];
    var updated := store.FetchGameState(gameId);
    reply := Updated(updated.value.game, updated.value.turns);
  }
}
