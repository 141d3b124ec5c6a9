# chaincanvas2 turn store, handlers and identity decoding in Dafny

chaincanvas2 is a daily "pass the canvas" game. One game row per day
holds a custody holder (`next_editor_fid`), a turn counter and a 30-minute
turn window. The holder finalizes a turn and names the next holder. Once
the window lapses, anyone signed in may claim custody. Callers are
identified from a `Bearer` header whose JWT payload is decoded, not
verified, for its numeric `sub` claim.

This project models:

- The turn store as a class `Store.GameStore`. Its fields are the
  `games`, `turns` and `users` tables, held as maps. It has one method
  per store operation of `api/_lib/db.ts` (and its copy `api/_lib/db.js`),
  plus the older `services/db.ts` variants. The row transitions those
  methods apply are pure functions in `Records`. For claims and guarded
  submits (api/claim-turn.js, api/submit-turn.js, api/submit-turns.ts)
  these invariants are proved there:
  - turns are numbered 1..k with no gaps;
  - `current_turn = k + 1`;
  - no turn is written past `max_turns`;
  - a non-holder writes nothing.

  The unguarded insert behind api/submit-turn.ts keeps none of the last
  two (`Records.AppendPastMaxTurns`).
- The five request handlers. Each is a method that changes the store and
  returns an `Http.Reply`. Its contract states the guard order
  (405, 401, 400, 404, 400, 500) and the exact new state.
- The identity decoders:
  - `api/_lib/auth.ts` (and its copy `auth.js`), `services/auth.ts`,
    `services/jwt.ts` and `hooks/useQuickAuthIdentity.ts`;
  - the shared `Bearer` header match;
  - the base64url translation and padding of section 5 of RFC 4648;
  - the compact three-segment form of section 7.1 of RFC 7515;
  - the numeric `sub` claim (section 4.1.2 of RFC 7519).

  The library decoders (`atob`, `TextDecoder`, `Buffer`, `JSON.parse`,
  `Number` of a string) are parameters bundled in a `JsValues.Host`.
- The prototype countdown `formatTimeLeft` and `getInitialState` of
  `services/simulation.ts`.

Clocks and the database driver are parameters. `now` (milliseconds) and
the day key (`today`) are passed in. So is the id a new game row receives
(`freshId`); a colliding id is refused like a primary-key violation.
JavaScript numbers are `Finite(int) | NaN | Infinity(sign)`. A value the
integer fid columns cannot hold (NaN, an infinity) makes the statement
fail, and the handlers answer 500.

Where the code and the intended design of the game disagree, the model
follows the code:

- expired custody is not released when the state is read, although
  components/Blueprint.tsx describes a release on expiry;
- `assertTurnPermission` has no first-turn bootstrap for a NULL holder, so
  a NULL holder rejects everyone;
- nothing ever sets a game's status to completed;
- `upsertUserProfile` overwrites with NULLs instead of coalescing;
- `getOrCreateTodayGame` is look-up-then-insert, and uniqueness of the day
  key is an invariant of the sequential store (`GameStore.Valid`).

## Model

| member | source | states |
|---|---|---|
| JsStrings.SplitCount | api/_lib/auth.ts:29-30 | `split('.')` yields one more part than there are dots, so "exactly 3 parts" means exactly two dots |
| JsStrings.SplitPartsFree | api/_lib/auth.ts:29 | no part of a split contains the separator |
| JsStrings.JoinSplit | api/_lib/auth.ts:29 | joining the parts with the separator gives back the original string |
| JsStrings.UrlToStdAlphabet | api/_lib/auth.ts:7 | every '-' becomes '+' and every '_' becomes '/', all else and the length kept; no '-' or '_' remains |
| JsStrings.PadEnd | hooks/useQuickAuthIdentity.ts:11 | `padEnd` keeps the string as a prefix and fills up to the target length with the filler only |
| JsStrings.ParseNatToString | services/simulation.ts:36 | the decimal text of a non-negative integer reads back as that integer |
| Bearer.MatchBearerSound | api/_lib/auth.ts:42 | every capture is a match of `^Bearer\s+(.+)$/i`, and it is the one with the longest `\s+` (greedy) |
| Bearer.MatchBearerComplete | api/_lib/auth.ts:42-43 | whenever the regular expression matches, a token is captured |
| Bearer.MatchBearerOfHeader | api/_lib/auth.ts:42 | "Bearer", whitespace and a token not starting with whitespace capture exactly the token |
| Bearer.MatchBearerExamples | api/_lib/auth.ts:42-43 | the scheme matches in any letter case; "Basic", a bare "Bearer" and a missing space do not match |
| Bearer.MatchBearer | api/_lib/auth.ts:42-43 | no capture without a case-insensitive "Bearer" prefix; a capture is a non-empty single-line tail of the header that follows the scheme and at least one whitespace character |
| LibAuth.PadLength | api/_lib/auth.ts:8-11 | the pad count is below 4 and brings the length to a multiple of 4 |
| LibAuth.Base64UrlToBase64 | api/_lib/auth.ts:6-13 | throws iff length ≡ 1 (mod 4); otherwise the translated segment followed by 0, 2 or 1 '=' for remainders 0, 2, 3, of length ≡ 0 (mod 4), with no '-' or '_' (api/_lib/auth.js:1-8 is the same code) |
| LibAuth.Base64UrlRoundTrip | api/_lib/auth.ts:6-13 | stripping the padding and translating back recovers any base64url segment of valid length |
| LibAuth.DecodeBase64ToString | api/_lib/auth.ts:15-25 | when `atob` accepts the input, the UTF-8 decode of its binary string; when it throws, the `Buffer` decode of the same input |
| LibAuth.DecodeQuickAuthJwt | api/_lib/auth.ts:27-38 | null unless the token has exactly two dots, and null when the segment length throws; any other result is exactly what `JSON.parse` gave; conversely, when the segment translates, the result is that parse, or null iff the parse fails (api/_lib/auth.js:21-32 is the same code) |
| LibAuth.SubAsFid | api/_lib/auth.ts:45-46 | a fid is returned iff `sub` is a truthy number, and it is that `sub` |
| LibAuth.SubAsFidRejects | api/_lib/auth.ts:45-46 | a string `sub`, `sub` 0, a missing `sub` and a non-object payload give no fid |
| LibAuth.AuthorizationOrEmpty | api/_lib/auth.ts:41 | the header is "" iff it is missing or empty, and otherwise exactly the header sent |
| LibAuth.ExtractFidFromAuthHeader | api/_lib/auth.ts:40-47 | a missing or non-Bearer header gives null; a fid is always a truthy number and is the `sub` of the decoded captured token (api/_lib/auth.js:34-47 is the same code) |
| LibAuth.ExtractFidOfToken | api/_lib/auth.ts:40-47 | end to end: a Bearer header with a compact token whose payload parses to an object with a non-zero integer `sub` yields that fid |
| LibAuth.CompactParts | api/_lib/auth.ts:29-31 | a token written as header.payload.signature splits back into exactly those three segments |
| ServicesAuth.DecodeQuickAuthJwt | services/auth.ts:6-15 | null unless exactly two dots; for a three-segment token the result is `JSON.parse` of the lenient base64url decode of the middle segment, or null iff that parse fails |
| ServicesAuth.DecodeOfToken | services/auth.ts:6-15 | end to end: a compact token whose payload decodes and parses yields that parse |
| ServicesAuth.ExtractFidFromAuthHeader | services/auth.ts:17-24 | a missing header reads as "" and gives null; a fid is only a truthy numeric `sub` |
| ServicesAuth.ExtractFidOfToken | services/auth.ts:17-24 | end to end: a Bearer header with a compact token whose payload decodes to an object with a non-zero integer `sub` yields that fid |
| ServicesAuth.SegmentLengthOneMod4 | services/auth.ts:10 | a middle segment of length ≡ 1 (mod 4) gives null in api/_lib/auth.ts but is still decoded here |
| Jwt.CoerceSub | services/jwt.ts:21-25 | a string `sub` becomes its number unless that is NaN; every other claim and key is unchanged; a null payload throws |
| Jwt.DecodeJwt | services/jwt.ts:11-29 | null unless exactly two dots; a result comes from `atob` of the alphabet-translated, unpadded segment, parsed and coerced; conversely, when decoding and parsing succeed, the result is the coerced payload, or null iff the coercion throws |
| Jwt.DecodeOfToken | services/jwt.ts:11-29 | end to end: a compact token whose payload decodes, parses and coerces yields the coerced payload |
| Jwt.AtobInputUnpadded | services/jwt.ts:15-18 | no padding is added: `atob` sees as many characters as the segment has, and an '=' only if the segment had one |
| QuickAuthIdentity.PaddedPayload | hooks/useQuickAuthIdentity.ts:8-11 | the padded segment has length len + (4 − len mod 4) mod 4, a multiple of 4, with no '-' or '_' |
| QuickAuthIdentity.PaddingAgainstServer | hooks/useQuickAuthIdentity.ts:8-11 | equal to the server's translation except at length ≡ 1 (mod 4), where the hook appends "===" and the server throws |
| QuickAuthIdentity.SubOfPayload | hooks/useQuickAuthIdentity.ts:13-19 | a numeric `sub` is returned as is, a string `sub` as its number if finite, anything else gives null |
| QuickAuthIdentity.DecodeJwtSub | hooks/useQuickAuthIdentity.ts:4-23 | null unless exactly two dots; a result comes from `atob` of the padded segment and a successful parse; conversely, when both succeed, the result is the `sub` of the parsed payload |
| QuickAuthIdentity.DecodeJwtSubOfToken | hooks/useQuickAuthIdentity.ts:4-23 | end to end: a compact token whose padded payload decodes and parses yields that payload's `sub` |
| QuickAuthIdentity.SubAcceptedCases | hooks/useQuickAuthIdentity.ts:42 | `if (!sub) throw`: null, 0 and NaN are refused; an integer is accepted iff it is non-zero; both infinities are accepted |
| QuickAuthIdentity.ErrorText | hooks/useQuickAuthIdentity.ts:52 | the error text is the message when there is one and 'QuickAuth init failed' when the message is empty; never empty |
| QuickAuthIdentity.IdentityHook.constructor | hooks/useQuickAuthIdentity.ts:26-31 | fid, token and error start null and the effect is not cancelled |
| QuickAuthIdentity.IdentityHook.Cleanup | hooks/useQuickAuthIdentity.ts:57 | cleanup sets `cancelled` and changes nothing else |
| QuickAuthIdentity.IdentityHook.CompleteInit | hooks/useQuickAuthIdentity.ts:33-54 | after cleanup nothing is written; a failed fetch sets the error only; a falsy `sub` (null, 0, NaN) sets 'Invalid JWT sub'; otherwise token, fid, both globals and one ready event; a fid is only ever set to a truthy number |
| Simulation.CountdownOf | services/simulation.ts:28-37 | no deadline or 0 is "Open to All"; diff ≤ 0 is expired; otherwise m·60000 + s·1000 ≤ diff < m·60000 + s·1000 + 1000 with s ≤ 59 |
| Simulation.CountdownUnique | services/simulation.ts:34-35 | those bounds determine the minutes and seconds uniquely |
| Simulation.RenderedMinutes | services/simulation.ts:36 | the rendered text starts with the decimal minutes followed by 'm', which read back as the minutes |
| Simulation.RenderedSeconds | services/simulation.ts:36 | the rendered text ends with a space, the decimal seconds and 's', which read back as the seconds |
| Simulation.Render | services/simulation.ts:29-36 | only a running countdown starts with a digit, and it ends in 's'; the labels are never empty |
| Simulation.RenderInjective | services/simulation.ts:29-36 | the display is unambiguous: two countdowns with the same text are the same countdown |
| Simulation.FormatTimeLeft | services/simulation.ts:28-37 | "Open to All" iff there is no deadline or it is 0; "Expired (Open Round)" iff a deadline is set and not after now; digits first iff time remains |
| Simulation.GetInitialState | services/simulation.ts:5-14 | turn 1 of 10, no last editor, empty history, "you" as next editor, deadline now + 1,800,000 ms |
| Simulation.InitialCountdown | services/simulation.ts:28-37 | a fresh prototype game shows "30m 0s" |
| Records.NewGame | api/_lib/db.ts:45-49 | a new row is active, turn 1 of 10, expires at now + 30 min, with the given holder and creator |
| Records.Permission | api/_lib/db.ts:64-72 | passes iff status is 'active' and the caller strictly equals the holder; not active is reported before not your turn; a NULL holder rejects every caller |
| Records.Finalize | api/_lib/db.ts:84-110 | fails iff current_turn > max_turns ('Game already completed', checked first) or a fid cannot be stored (then a storage error); otherwise appends one finalized turn at the old current_turn and advances the row, setting the holder to passedToFid and the expiry to now + 30 min |
| Records.NewGameConsistent | api/_lib/db.ts:45-49 | a new game with no turns is numbered and bounded |
| Records.FinalizeKeepsInvariants | api/_lib/db.ts:84-110 | a finalize keeps turns 1..k, current_turn = k + 1, the bound current_turn ≤ max_turns + 1, and max_turns |
| Records.RunKeepsInvariants | api/_lib/db.ts:84-110 | any sequence of guarded submits and claims keeps the numbering, the bound and max_turns, and never rewrites earlier turns |
| Records.FreshGameRun | api/_lib/db.ts:84-110 | from a fresh game, any sequence of claims and guarded submits (api/claim-turn.js, api/submit-turn.js, api/submit-turns.ts) leaves k ≤ 10 turns numbered exactly 1..k with current_turn = k + 1 |
| Records.NonHolderSubmitChangesNothing | api/_lib/db.ts:64-72 | a guarded submit by anyone but the holder leaves game and turns unchanged |
| Records.CompletedGameAcceptsNoTurn | api/_lib/db.ts:88-89 | once current_turn exceeds max_turns no claim or guarded submit writes a turn |
| Records.Claimed | api/claim-turn.js:34-40 | a claim makes the caller holder with expiry now + 30 min and leaves current_turn, status, max_turns, day and creator as they were |
| Records.ClaimThenNotExpired | api/claim-turn.js:28-40 | within 30 minutes after a successful claim the game is not expired, so a second claim is refused |
| Records.ExpiredCases | api/claim-turn.js:28 | a game with no expiry is never expired, one expiring exactly now is not yet, and once expired it stays expired |
| Records.AppendTurn | services/db.ts:75-104 | `insertTurn` appends a finalized turn at the given number with no permission or completion check, increments current_turn and resets the expiry; holder and status unchanged |
| Records.AppendAtCurrentKeepsNumbering | services/db.ts:86-103 | appending at current_turn keeps turns 1..k with current_turn = k + 1 |
| Records.AppendPastMaxTurns | services/db.ts:86-103 | nothing bounds it: a game with all ten turns written still accepts an eleventh |
| Records.UpsertedProfile | services/db.ts:58-70 | the row holds exactly the supplied username, display name and picture (NULL overwrites), both timestamps are now, and `updated_at` is set only by the conflict branch |
| Records.WithIpfs | api/_lib/db.ts:113-118 | only `ipfs_cid` of rows numbered turnNumber changes; all other rows are unchanged |
| Records.WithIpfsIdempotent | api/_lib/db.ts:113-118 | setting the same cid twice equals setting it once |
| Records.WithIpfsNoMatch | api/_lib/db.ts:113-118 | with no matching row nothing changes |
| Records.WithIpfsKeepsNumbering | api/_lib/db.ts:113-118 | the backfill keeps the numbering invariant |
| Records.SortTurnsCorrect | api/_lib/db.ts:58-60 | `ORDER BY turn_number ASC` returns the same rows (a permutation) in ascending order |
| Records.SortTurnsSorted | api/_lib/db.ts:58-60 | rows already in order come back unchanged |
| Store.GameStore.GetOrCreateTodayGame | api/_lib/db.ts:34-51 | today's game: its id and no write; otherwise exactly one new active game under the new id, turn 1 of 10, holder = initialEditorFid, expiry now + 30 min, no turns; the invariants are kept (api/_lib/db.js:22-32 is the same code) |
| Store.GameStore.GetOrCreateTodayGameWithCreator | services/db.ts:27-41 | the same look-up-or-insert, recording creator_fid and no holder |
| Store.GameStore.FetchGameState | api/_lib/db.ts:53-62 | null iff the id is unknown; else the stored row and a sorted permutation of its turns, exactly the turns as written when they are numbered 1..k (api/_lib/db.js:34-39 and services/db.ts:46-53 are the same code) |
| Store.GameStore.AssertTurnPermission | api/_lib/db.ts:64-72 | 'Game not found', then 'Game not active', then 'Not your turn'; passes iff the game is active and the caller is its holder (api/_lib/db.js:41-47 is the same code) |
| Store.GameStore.InsertTurnAndPass | api/_lib/db.ts:74-111 | not found, then 'Game already completed' iff current_turn > max_turns, writing nothing on failure; on success the game and its turns become exactly the finalize of the old state; it takes no cid, so the stored turn has none (api/_lib/db.js:49-75 is the same code) |
| Store.GameStore.InsertTurn | services/db.ts:75-104 | no guard: an unknown game is a foreign-key failure, otherwise the row and turns become the unguarded append; the numbering survives a write at current_turn below the limit |
| Store.GameStore.SetTurnIpfs | api/_lib/db.ts:113-118 | only the turns of the named game change, by the cid backfill; the games are untouched and the invariants kept (api/_lib/db.js:77-82 and services/db.ts:109-115 are the same code) |
| Store.GameStore.UpsertUserProfile | services/db.ts:58-70 | row fid becomes the upserted profile; every other fid is untouched; games and turns unchanged |
| ClaimTurnApi.Handle | api/claim-turn.js:6-48 | 405, 401, 400 missing gameId, 404, 400 not active, 400 not expired, in that order, each with no write; succeeds iff the game is active and expired and the fid storable, whoever holds it and however many turns remain; the row becomes the claimed row, turns untouched; on a known game its effect is exactly the `Records.Step` move |
| SubmitTurnApi.Handle | api/submit-turn.js:4-47 | 405, 401, then 400 if any of the five fields is falsy, before any store access; a permission failure is a 500 with its message and no write; success iff permission passes and the finalize succeeds, expiry not consulted; the new turn's editor is the caller, passed_to is `Number(passedToFid)`, image "https://ipfs.io/ipfs/" + cid, no cid column; on a known game its effect is exactly the `Records.Step` move |
| SubmitTurnsApi.Handle | api/submit-turns.ts:4-33 | 405, 401 (services/auth.ts identity), 400 if one of four fields is falsy (no cid needed); a permission failure is a 500 with no write; the turn's editor is the caller and its image the body's imageDataUrl; on a known game its effect is exactly the `Records.Step` move |
| SubmitTurnUncheckedApi.NextHolder | api/submit-turn.ts:27 | a falsy passedToFid is stored as NULL, any other as `Number(passedToFid)` |
| SubmitTurnUncheckedApi.Handle | api/submit-turn.ts:5-37 | 405, 400 if a field is falsy, 404 for an unknown game; otherwise the turn is written at current_turn as read, with the body's editorFid and no authentication, custody or limit check; only an unstorable fid gives 500 |
| Http.Status | api/claim-turn.js:9-46 | 200 exactly for a success; every refusal is sent as 400, 401, 404, 405 or 500 |
| GameStateApi.Handle | api/game-state.js:7-28 | 405 for non-GET; callerFid is the extracted fid or null; a read of today's existing game writes nothing and returns the stored row unchanged with ascending turns; with no game yet, a GET answers iff the new id is free and the caller's fid storable, inserting exactly today's seeded game under that id with the caller as holder and no turns, all other games and turns unchanged |

## Left out

- Concurrency: every store operation and handler is one atomic step on a sequential store. `getOrCreateTodayGame` is select-then-insert and `insertTurnAndPass` is two statements with no transaction; the model claims no race safety.
- Store.GameStore.GetOrCreateTodayGame: the id of a new row is a parameter, not generated; a parameter that collides with an existing id is refused as a key violation.
- Records.Claimed: api/claim-turn.js:37 interpolates the minute count inside a quoted SQL interval literal. The model uses the intended now + 30 minutes, not what the driver makes of that literal.
- ClaimTurnApi.Handle and SubmitTurnApi.Handle: `ensureUser` is imported but not defined in api/_lib/db.js. It is treated as an external call with no effect on the modelled tables.
- SubmitTurnsApi.Handle: api/submit-turns.ts imports `assertTurnPermission` and `insertTurnAndPass` from services/db.ts, which does not export them. The handler is modelled against the api/_lib/db.ts definitions.
- GameStateApi.Handle: the `if (!state)` 500 branch cannot be taken, because the id just found or inserted is always in the store. It is not represented.
- The handlers' `try`/`catch` is modelled only for the errors the store raises: permission errors, completion, and a rejected fid or key. Database connection failures (`DATABASE_URL` missing) and other driver errors are not modelled.
- The handlers' error texts and the `detail` field are reduced to an error kind; only the store's messages are kept.
- The response body's `ok: true` and the JSON serialisation of rows are not modelled.
- `created_at`/`updated_at` column defaults are not modelled. An inserted profile's `updated_at` is None; a turn's `created_at` is `now`.
- Store.GameStore.FetchGameState: among turns with equal numbers (only possible through `insertTurn`), SQL leaves their order unspecified; the model keeps insertion order.
- The Venice request and response JSON columns are not modelled; they are always null in the handlers modelled here.
- JsValues.JsNumber: only integral numbers are represented. Fractions, -0 and precision above 2^53 are not modelled, and `Number` of an array gives NaN here for every array.
- Strings are sequences of Unicode code points. JavaScript lengths count UTF-16 code units, so the padding arithmetic differs for a segment holding characters outside the Basic Multilingual Plane.
- Http.Body: gameId, prompt, imageDataUrl and ipfsCid are modelled as strings only; a non-string JSON value in those fields (a number used as gameId, say) is not represented.
- Store.GameStore.InsertTurn: the failure for an unknown gameId assumes a foreign key from turns.game_id to games.id; the schema is not part of this model.
- Store.GameStore.InsertTurn and SubmitTurnUncheckedApi.Handle: the unguarded insert is not a `Records.Move`, so `Records.RunKeepsInvariants`, `Records.FreshGameRun` and `Records.CompletedGameAcceptsNoTurn` do not cover it. It keeps the numbering only for a write at current_turn below the limit. It checks no holder, and it can write past `max_turns`.
- Fids compared in `assertTurnPermission` are integers; a driver returning bigint columns as strings, which would make `!==` refuse every caller, is not modelled.
- Base64 byte decoding, UTF-8 decoding, `JSON.parse` and `Number` of a string are abstract `Host` functions; only the string shaping around them is modelled.
- No signature of any token is checked by the code, and none is modelled.
- Logging (`console.log`/`console.error`) is left out.
- The hook's network request and its React state plumbing are reduced to the `TokenFetch` outcome and the `IdentityHook` fields.
- `simulateEdit` (a timer returning a random image) is not modelled.
- The UI components, the other API routes (Venice, pinning, search, share, diagnostics, `api/game-state.ts`, `api/upsert-user.ts`) and the client SDK glue are outside this model.
