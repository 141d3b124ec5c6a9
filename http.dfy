/** The request and response shapes the API handlers share: the fields of
    a JSON body they read, and the replies they send with their status
    codes. */
module Http {
  import opened Wrappers
  import opened JsValues
  import opened Records

  const GET: string := "GET"
  const POST: string := "POST"

  /** `req.body || {}` as the handlers destructure it; an absent property
      is None. Ids, prompts and URLs are read as strings, fids as any JSON
      value (they pass through `Number(...)`). */
  datatype Body = Body(
    gameId: Option<string>,
    passedToFid: Option<JsValue>,
    editorFid: Option<JsValue>,
    prompt: Option<string>,
    imageDataUrl: Option<string>,
    ipfsCid: Option<string>)

  /** A request: its method, its `authorization` header and its body. */
  datatype Request = Request(httpMethod: string, authorization: Option<string>, body: Body)

  /** `!x` is false for a body value. */
  predicate FieldTruthy(x: Option<JsValue>) {
    x.Some? && Truthy(x.value)
  }

  /** Why a request was refused. */
  datatype ErrorKind =
    | MethodNotAllowed
    | Unauthorized
    | MissingFields
    | UnknownGame
    | InactiveGame
    | TurnNotExpired
    /** A thrown error, with its message. */
    | ServerError(detail: string)

  /** A reply: an error, `{ ok: true, game, turns }` after a write, or the
      state snapshot of api/game-state.js. */
  datatype Reply =
    | Error(kind: ErrorKind)
    | Updated(game: Game, turns: seq<Turn>)
    | Snapshot(gameId: string, game: Game, turns: seq<Turn>, callerFid: Option<JsNumber>)

  /** The HTTP status each reply is sent with. */
  function Status(r: Reply): (code: int)
    ensures code == 200 <==> !r.Error?
    ensures code in {200, 400, 401, 404, 405, 500}
  {
    match r
    case Updated(_, _) => 200
    case Snapshot(_, _, _, _) => 200
    case Error(kind) =>
      match kind
      case MethodNotAllowed => 405
      case Unauthorized => 401
      case MissingFields => 400
      case UnknownGame => 404
      case InactiveGame => 400
      case TurnNotExpired => 400
      case ServerError(_) => 500
  }
}
