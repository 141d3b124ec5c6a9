/** api/submit-turn.ts: the unauthenticated finalize. The editor comes from
    the body, the turn number is the game's current_turn as read, and the
    write goes through the unguarded services/db.ts `insertTurn`: nobody's
    custody, the game's status and the turn limit are never checked. */
module SubmitTurnUncheckedApi {
  import opened Wrappers
  import opened JsValues
  import opened Records
  import opened Http
  import opened Store

  /** `gameId`, `editorFid`, `prompt` and `imageDataUrl` are all truthy. */
  predicate HasRequiredFields(b: Body) {
    && StringTruthy(b.gameId)
    && FieldTruthy(b.editorFid)
    && StringTruthy(b.prompt)
    && StringTruthy(b.imageDataUrl)
  }

  /** `passedToFid ? Number(passedToFid) : null` */
  function NextHolder(host: Host, b: Body): (h: Option<JsNumber>)
    ensures !FieldTruthy(b.passedToFid) <==> h.None?
    ensures h.Some? ==> h.value == ToNumber(host, b.passedToFid.value)
  {
    if FieldTruthy(b.passedToFid) then Some(ToNumber(host, b.passedToFid.value)) else None
  }

  /** The insert this request asks for on the game as it stands. */
  function Requested(host: Host, req: Request, g: Game, ts: seq<Turn>, now: int): Result<(Game, seq<Turn>), StoreError>
    requires HasRequiredFields(req.body)
  {
    AppendTurn(g, ts, g.currentTurn, ToNumber(host, req.body.editorFid.value), NextHolder(host, req.body),
               req.body.prompt.value, req.body.imageDataUrl.value, now)
  }

  /** The handler. The authorization header is never read. */
  method Handle(store: GameStore, host: Host, req: Request, now: int) returns (reply: Reply)
    requires store.Valid()
    modifies store
    ensures store.Valid() && store.users == old(store.users)
    ensures !reply.Updated? ==> store.games == old(store.games) && store.turns == old(store.turns)
    ensures req.httpMethod != POST ==> reply == Error(MethodNotAllowed)
    ensures req.httpMethod == POST && !HasRequiredFields(req.body) ==> reply == Error(MissingFields)
    ensures (req.httpMethod == POST && HasRequiredFields(req.body)
             && req.body.gameId.value !in old(store.games)) ==> reply == Error(UnknownGame)
    // any known game takes the turn, as long as the fids can be stored
    ensures reply.Updated? <==>
      && req.httpMethod == POST && HasRequiredFields(req.body)
      && req.body.gameId.value in old(store.games)
      && Storable(ToNumber(host, req.body.editorFid.value))
      && StorableOpt(NextHolder(host, req.body))
    ensures reply.Error? && reply.kind.ServerError? ==> reply.kind.detail == Message(StorageRejected)
    ensures reply.Updated? ==>
      var id := req.body.gameId.value;
      var next := Requested(host, req, old(store.games)[id], old(store.turns)[id], now).value;
      && store.games == old(store.games)[id := next.0]
      && store.turns == old(store.turns)[id := next.1]
      && reply == Updated(store.games[id], SortTurns(store.turns[id]))
      && next.1[|old(store.turns)[id]|].turnNumber == old(store.games)[id].currentTurn
      && next.0.nextEditor == old(store.games)[id].nextEditor
    // numbering survives while turns remain; past the limit see AppendPastMaxTurns
    ensures (old(store.WellNumbered()) && reply.Updated?
             && old(store.games)[req.body.gameId.value].currentTurn
                <= old(store.games)[req.body.gameId.value].maxTurns) ==> store.WellNumbered()
  {
    if req.httpMethod != POST {
      return Error(MethodNotAllowed);
    }
    var body := req.body;
    if !HasRequiredFields(body) {
      return Error(MissingFields);
    }
    var gameId := body.gameId.value;
    var state := store.FetchGameState(gameId);
    if state.None? {
      return Error(UnknownGame);
    }
    var turnNumber := state.value.game.currentTurn;
    var written := store.InsertTurn(gameId, turnNumber, ToNumber(host, body.editorFid.value),
                                    NextHolder(host, body), body.prompt.value, body.imageDataUrl.value, now);
    if written.Fail? {
      return Error(ServerError(Message(written.error)));
    }
    var updated := store.FetchGameState(gameId);
    reply := Updated(updated.value.game, updated.value.turns);
  }
}
