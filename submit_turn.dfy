/** api/submit-turn.js: the holder finalizes a turn whose image is pinned
    to IPFS and passes custody on. `ensureUser` is an external call with no
    effect on the tables modelled here. */
module SubmitTurnApi {
  import opened Wrappers
  import opened JsValues
  import opened Records
  import opened Http
  import opened Store
  import LibAuth

  const IPFS_GATEWAY: string := "https://ipfs.io/ipfs/"

  /** `gameId`, `passedToFid`, `prompt`, `imageDataUrl` and `ipfsCid` are
      all truthy. */
  predicate HasRequiredFields(b: Body) {
    && StringTruthy(b.gameId)
    && FieldTruthy(b.passedToFid)
    && StringTruthy(b.prompt)
    && StringTruthy(b.imageDataUrl)
    && StringTruthy(b.ipfsCid)
  }

  /** The request reaches the store: POST, a caller, every field. */
  predicate Admitted(host: Host, req: Request) {
    && req.httpMethod == POST
    && LibAuth.ExtractFidFromAuthHeader(host, req.authorization).Some?
    && HasRequiredFields(req.body)
  }

  /** The finalize this request asks for on the game as it stands: the
      caller as editor, `Number(passedToFid)` as next holder, the gateway
      URL of the cid as image. */
  function Requested(host: Host, req: Request, g: Game, ts: seq<Turn>, now: int): Result<(Game, seq<Turn>), StoreError>
    requires Admitted(host, req)
  {
    Finalize(g, ts, LibAuth.ExtractFidFromAuthHeader(host, req.authorization).value,
             ToNumber(host, req.body.passedToFid.value), req.body.prompt.value,
             IPFS_GATEWAY + req.body.ipfsCid.value, now)
  }

  /** The handler. */
  method Handle(store: GameStore, host: Host, req: Request, now: int) returns (reply: Reply)
    requires store.Valid()
    modifies store
    ensures store.Valid() && store.users == old(store.users)
    ensures old(store.WellNumbered()) ==> store.WellNumbered()
    ensures !reply.Updated? ==> store.games == old(store.games) && store.turns == old(store.turns)
    // the guards, in order, before any store access
    ensures req.httpMethod != POST ==> reply == Error(MethodNotAllowed)
    ensures req.httpMethod == POST && LibAuth.ExtractFidFromAuthHeader(host, req.authorization).None? ==>
      reply == Error(Unauthorized)
    ensures (req.httpMethod == POST && LibAuth.ExtractFidFromAuthHeader(host, req.authorization).Some?
             && !HasRequiredFields(req.body)) ==> reply == Error(MissingFields)
    // a refused permission is thrown, so it is a 500
    ensures Admitted(host, req) && req.body.gameId.value !in old(store.games) ==>
      reply == Error(ServerError(Message(GameNotFound)))
    ensures Admitted(host, req) && req.body.gameId.value in old(store.games) ==>
      var g := old(store.games)[req.body.gameId.value];
      var p := Permission(g, LibAuth.ExtractFidFromAuthHeader(host, req.authorization).value);
      && (p.Fail? ==> reply == Error(ServerError(Message(p.error))))
      && (p.Pass? && Requested(host, req, g, old(store.turns)[req.body.gameId.value], now).Failure? ==>
            reply == Error(ServerError(Message(Requested(host, req, g, old(store.turns)[req.body.gameId.value], now).error))))
    // on a known game the handler's effect is the submit move of Records.Step
    ensures Admitted(host, req) && req.body.gameId.value in old(store.games) ==>
      var id := req.body.gameId.value;
      var s := Step(old(store.games)[id], old(store.turns)[id],
                    Submit(LibAuth.ExtractFidFromAuthHeader(host, req.authorization).value,
                           ToNumber(host, req.body.passedToFid.value), req.body.prompt.value,
                           IPFS_GATEWAY + req.body.ipfsCid.value, now));
      store.games == old(store.games)[id := s.0] && store.turns == old(store.turns)[id := s.1]
    // success: the holder's turn is written; the expiry is never looked at
    ensures reply.Updated? <==>
      && Admitted(host, req)
      && req.body.gameId.value in old(store.games)
      && Permission(old(store.games)[req.body.gameId.value],
                    LibAuth.ExtractFidFromAuthHeader(host, req.authorization).value).Pass?
      && Requested(host, req, old(store.games)[req.body.gameId.value],
                   old(store.turns)[req.body.gameId.value], now).Success?
    ensures reply.Updated? ==>
      var id := req.body.gameId.value;
      var next := Requested(host, req, old(store.games)[id], old(store.turns)[id], now).value;
      && store.games == old(store.games)[id := next.0]
      && store.turns == old(store.turns)[id := next.1]
      && reply == Updated(store.games[id], SortTurns(store.turns[id]))
    ensures reply.Updated? ==>
      var id := req.body.gameId.value;
      && |store.turns[id]| == |old(store.turns)[id]| + 1
      && var t := store.turns[id][|old(store.turns)[id]|];
      && Finite(t.editorFid) == LibAuth.ExtractFidFromAuthHeader(host, req.authorization).value
      && t.passedToFid.Some? && Finite(t.passedToFid.value) == ToNumber(host, req.body.passedToFid.value)
      && t.imageUrl == IPFS_GATEWAY + req.body.ipfsCid.value
      && t.ipfsCid.None?
  {
    if req.httpMethod != POST {
      return Error(MethodNotAllowed);
    }
    var callerFid := LibAuth.ExtractFidFromAuthHeader(host, req.authorization);
    if callerFid.None? {
      return Error(Unauthorized);
    }
    var body := req.body;
    if !HasRequiredFields(body) {
      return Error(MissingFields);
    }
    var gameId, prompt, imageDataUrl, ipfsCid := body.gameId.value, body.prompt.value, body.imageDataUrl.value, body.ipfsCid.value;
    var permission := store.AssertTurnPermission(gameId, callerFid.value);
    if permission.Fail? {
      return Error(ServerError(Message(permission.error)));
    }
    var finalImageUrl := if ipfsCid != "" then IPFS_GATEWAY + ipfsCid else imageDataUrl;
    var written := store.InsertTurnAndPass(gameId, callerFid.value, ToNumber(host, body.passedToFid.value),
                                           prompt, finalImageUrl, now);
    if written.Fail? {
      return Error(ServerError(Message(written.error)));
    }
    var updated := store.FetchGameState(gameId);
    reply := Updated(updated.value.game, updated.value.turns);
  }
}
