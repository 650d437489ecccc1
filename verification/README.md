# ConnectX session engine in Dafny

This project models the backend of ConnectX, a multiplayer "connect N" game.
Players gather in a lobby identified by a short id. The first player to join becomes admin.
The admin chooses the board size (`rows`, `cols`), the line length that wins (`connect`) and the player limit.
The admin then starts a game, and players drop pieces into columns in roster order.
Every state change is published to the lobby's subscribers on one of three channels: game state, lobby state and chat.

The code has four defects: the column bounds check, the admin handoff, the lobby-full comparison and the chat length guard (see Findings).
Every member that reaches one of them takes a `Variant`.
`AsWritten` follows the code as it is; `Corrected` follows the behaviour the code evidently intends.
Contracts say what holds in each reading.

The model is purely functional:

- `Board` covers `Game` in `backend/src/game.ts`: the board, placement, and the counting walks that detect a win.
  The board is a map from column index to the column's pieces, bottom first.
  This mirrors the sparse JavaScript array, where a column never played is a hole.
  Win detection is also proved equal to an independent definition: `Connected`, "k consecutive own pieces through the new piece on one of four axes".
- `BoardProps` covers sequences of placements: the height bound, the column filled by repeated drops, the vertical win and the first piece on an empty board.
- `Registry` is the process-wide map of games from lobby id to board (`newGame`, `clearGame`, `makeTurn`, `getGameBoard`).
- `Store` covers `backend/src/redis.ts`:
  - the Redis hash `lobby:<id>` is a `LobbyRecord`;
  - the hash `player:<id>` is the roster, a sequence of `(uid, nickname)` in insertion order;
  - it also holds the lobby-full test of the join resolver and the turn rotation.
- `Chat` is the chat sanitiser.
- `Events` holds the published payloads and the per-subscriber filter of the three subscriptions.
- `Commands` turns each resolver of `backend/src/schema.ts` into one transition.
  A transition maps the server state (lobby records, rosters, games) and the caller's session to a `Step`:
  - the new server state;
  - the new session;
  - the payloads published, in order;
  - the reply, or the error the resolver throws.
  A resolver that throws after writing keeps its writes, so every path carries the state.
- `Invariants` proves which resolvers preserve the roster invariant and board well-formedness, and in which reading.
  In the corrected reading every resolver preserves both.
  As written, an admin leaving a lobby that others remain in breaks the roster invariant.
  As written, a move into column `cols` leaves a piece outside the board.
  Both break-downs are proved as lemmas.
- `Scenarios` proves, step by step and in both readings, the opening of a two-player game from an empty server.

Identifier generation (`nanoid`, `uuidv4`) is passed in as parameters (`freshId`, `freshUid`).

## Model

| member | source | states |
|---|---|---|
| Board.Count | backend/src/game.ts:97-114 | the walk's result n is exactly the run length: the first n cells stepping along the direction all hold the player's pieces, and cell n does not (missing column, row out of range or other owner); it terminates |
| Board.HasWon | backend/src/game.ts:66-95 | the four line sums through the new piece, the vertical one downward only; with connect <= 1 the piece always wins (the sums count the new piece itself) |
| Board.NewGame | backend/src/game.ts:37-42 | a new game takes rows, cols and connect from the lobby and starts with no cells; it is well formed |
| Board.Drop | backend/src/game.ts:53-63 | fails with RowFull iff the column already holds `rows` pieces; otherwise the piece lands at the old height of that column, every other column is unchanged, and the reported win holds iff the new piece completes `connect` in a row on some axis |
| Board.MakeTurnAsWritten | backend/src/game.ts:48-51 | the bounds check as written: ColumnOutOfBounds iff col < 0 or col > cols, so col == cols is accepted |
| Board.MakeTurn | backend/src/game.ts:48-64 | the corrected bounds check: ColumnOutOfBounds iff col outside [0, cols), RowFull iff the column is full, otherwise the placement of Drop; keeps the board well formed |
| Board.MakeTurnIn | backend/src/game.ts:48-64 | makeTurn in either reading: ColumnOutOfBounds iff col < 0 or col reaches the first refused index (cols + 1 as written, cols corrected), otherwise the placement of Drop; the corrected reading keeps the board well formed |
| Board.RunsOwned | backend/src/game.ts:66-95 | every cell between the far ends of the backward and forward runs through an owned cell is owned, so hasWon's sums measure one unbroken line |
| Board.LineIffRuns | backend/src/game.ts:66-95 | a line of k own pieces through a cell exists along an axis iff the backward and forward run lengths plus one reach k |
| Board.ConnectedIffHasWon | backend/src/game.ts:66-95 | the four sums of hasWon (horizontal, vertical downward only, two diagonals) reach connect iff the new top piece lies on k consecutive own pieces along some axis |
| BoardProps.PlayAsWrittenBounded | backend/src/game.ts:48-61 | with the bounds check as written, any sequence of moves keeps every column at most `rows` high and every column index within [0, cols] |
| BoardProps.EmptyBoardStaysBounded | backend/src/game.ts:37-61 | from the constructor's empty board no column ever holds more than `rows` pieces |
| BoardProps.PlayWellFormed | backend/src/game.ts:48-61 | with the corrected check every reachable board keeps heights within `rows` and columns within [0, cols) |
| BoardProps.AcceptsColumnEqualToCols | backend/src/game.ts:49-61 | column index `cols` is accepted as written and leaves a piece outside the board; the corrected check refuses it |
| BoardProps.StackColumn | backend/src/game.ts:53-61 | n drops into an empty column fill rows 0..n-1 with that player |
| BoardProps.CountDownFull | backend/src/game.ts:97-114 | walking down from row j over a column whose rows 0..j are the player's counts exactly j+1 |
| BoardProps.VerticalWin | backend/src/game.ts:53-78 | with connect = K, a piece dropped onto K-1 of the same player's pieces filling a column from the bottom is accepted and wins |
| BoardProps.LonePiece | backend/src/game.ts:63-95 | the first piece on an empty board wins iff connect <= 1 |
| Registry.NewGame | backend/src/game.ts:5-8 | installs an empty board with the lobby's settings under the id, replacing any previous one, other games untouched |
| Registry.ClearGame | backend/src/game.ts:10-12 | removes the id's game and reports whether one existed; other games untouched |
| Registry.MakeTurn | backend/src/game.ts:14-20 | GameNotFound iff no game for the id; otherwise the board's own outcome in the chosen reading: ColumnOutOfBounds and RowFull as iffs, no other error, and an in-range move into a non-full column succeeds; on success only that game's board changes (settings kept, the piece pushed); every board stays well formed in the corrected reading |
| Registry.PlacesOffBoard | backend/src/game.ts:14-61 | as written, column index `cols` is accepted on a well-formed registry and leaves a board that is not well formed; the corrected check refuses that move |
| Registry.GetGameBoard | backend/src/game.ts:22-27 | the id's board if a game exists, GameNotFound otherwise |
| Registry.ClearGameIdempotent | backend/src/game.ts:10-12 | clearing twice equals clearing once, and the second call reports nothing removed |
| Registry.NewGameThenGetBoard | backend/src/game.ts:5-27 | the board read right after newGame is empty |
| Store.InitializeLobby | backend/src/redis.ts:31-54 | writes the settings and state it is given and leaves admin and currentPlayer as they were (absent for a new record) |
| Store.CreateLobbyRecord | backend/src/redis.ts:31-49 | the defaults: maxPlayers 4, playerCount 0, rows 15, cols 15, connect 4, state LOBBY, no admin or currentPlayer on a new record |
| Store.UpdateLobby | backend/src/redis.ts:56-66 | rewrites settings and playerCount as they are, resets state to LOBBY through the default argument, keeps admin and currentPlayer |
| Store.GetLobbyPlayers | backend/src/redis.ts:68-80 | one Player per roster entry, same order, uid and nickname taken from the entry |
| Store.IsPlayerInLobby | backend/src/redis.ts:120-122 | true iff some roster entry has the uid |
| Store.FindIndex | backend/src/redis.ts:89 | -1 when no player has the uid, otherwise the first index holding it |
| Store.NextPlayer | backend/src/redis.ts:86-94 | players[0] when there is no current player or the current uid is not on the roster; otherwise the player after the first holder of the uid, wrapping around to players[0] after the last |
| Store.NextPlayerRemainder | backend/src/redis.ts:89-91 | the rotation equals the source's `players[(index + 1) % length]` for every uid, present or not |
| Store.DetermineNextPlayer | backend/src/redis.ts:82-100 | fails iff the roster is empty; otherwise chooses NextPlayer of the current turn, a roster member, and stores its uid as currentPlayer, nothing else changed |
| Store.Delete | backend/src/redis.ts:107 | hDel: exactly the entries of other uids remain, and a uid not on the roster leaves it unchanged |
| Store.DeleteAt | backend/src/redis.ts:107 | on a duplicate-free roster, deleting the uid held at index i removes exactly that entry and keeps the others in order |
| Store.RemovePlayerAsWritten | backend/src/redis.ts:102-118 | as written: playerCount drops by one even for a non-member, the uid leaves the roster, the admin is never reassigned |
| Store.RemovePlayer | backend/src/redis.ts:102-118 | corrected: as above, but a leaving admin is replaced by the first remaining player when there is one; currentPlayer untouched; the roster invariant is preserved |
| Store.Removal | backend/src/redis.ts:102-118 | removePlayer in either reading: the uid leaves the roster and playerCount drops by one, nothing else but the admin changes; the admin is kept as written, and corrected is handed to the first remaining player when the admin leaves a non-empty roster |
| Store.RemovalAgrees | backend/src/redis.ts:109-115 | when the player removed is not the admin, both readings of removePlayer give the same result |
| Store.DeleteKeeps | backend/src/redis.ts:107 | after hDel the uid is off the roster and every other uid is on it iff it was before |
| Store.DeleteDistinct | backend/src/redis.ts:107 | deleting from a duplicate-free roster keeps it duplicate-free and shrinks it by one iff the uid was there |
| Store.DeletePreserves | backend/src/redis.ts:102-115 | the roster invariant survives the deletion, the count decrement and the intended admin handoff |
| Store.HandoffLost | backend/src/redis.ts:109-115 | when the admin of a roster of two or more leaves, the as-written removal leaves an admin who is not on the roster; the corrected one keeps the invariant |
| Store.Digits | backend/src/redis.ts:42-43 | the decimal form Redis stores for a count: at least one character, all digits, no leading zero except for 0 |
| Store.DecimalString | backend/src/redis.ts:42-43 | the stored string of any integer: non-empty, starting with `-` iff the number is negative |
| Store.DigitsRoundTrip | backend/src/redis.ts:42-43 | reading the stored digits of a count back as a number gives the count |
| Store.LexLessIrreflexive | backend/src/schema.ts:429 | JavaScript string `<` never holds between a string and itself |
| Store.LexLessTotal | backend/src/schema.ts:429 | string `<` is asymmetric and total: it never holds both ways, and of two different strings exactly one sorts first |
| Store.LexLessTransitive | backend/src/schema.ts:429 | string `<` is transitive, so with the two lemmas above it is a strict total order |
| Store.IsFullAsWritten | backend/src/schema.ts:429-431 | the as-written full test compares the two counts as strings; equal counts read as full |
| Store.Full | backend/src/schema.ts:429-431 | the full test in either reading: corrected it is exactly playerCount >= maxPlayers; in both readings equal counts are full and single-digit counts compare numerically |
| Store.TwoOfTenCountsAsFull | backend/src/schema.ts:429-431 | comparing the counts as strings reports 2 of 10 as full; the numeric test does not |
| Store.TenOfNineNotFull | backend/src/schema.ts:429-431 | comparing the counts as strings lets a lobby of ten with maxPlayers 9 take another player; the numeric test refuses |
| Store.SingleDigitsAgree | backend/src/schema.ts:429-431 | for single-digit counts the string comparison agrees with the numeric one |
| Store.NextAfter | backend/src/redis.ts:88-91 | on a duplicate-free roster the player after player i is player i+1, or player 0 after the last |
| Store.FirstRound | backend/src/redis.ts:82-100 | starting with no current player, the k-th turn goes to players[k-1] for k up to the roster size |
| Store.OpeningTurn | backend/src/redis.ts:86-94 | with no current player the first turn goes to players[0] |
| Store.TurnAfter | backend/src/redis.ts:86-94 | on a duplicate-free roster, if turn k went to the player at rotation index i, turn k+1 goes to the player at the next index |
| Store.TurnsFollowRoster | backend/src/redis.ts:82-100 | on a duplicate-free roster, from a fresh game, turn k+1 goes to players[RoundIndex(n, k)]: the players in roster order, starting over after the last |
| Store.RoundIndexFirst | backend/src/redis.ts:89-91 | the first n rotation indices are 0, 1, ..., n-1 |
| Store.RoundIndexPeriodic | backend/src/redis.ts:89-91 | the rotation index repeats with period n |
| Store.Periodic | backend/src/redis.ts:82-100 | the turn order repeats with period equal to the roster size, so no player is skipped or favoured |
| Chat.Sanitize | backend/src/schema.ts:187-188 | same length; each allowed character (letters, digits, umlauts, sharp s, `? ! space . , _ -`) kept, each other replaced by `*` |
| Chat.SanitizeIdempotent | backend/src/schema.ts:188 | sanitising twice equals sanitising once |
| Chat.SanitizedAlphabet | backend/src/schema.ts:188 | every output character is allowed or `*` |
| Chat.MessageAsWritten | backend/src/schema.ts:183-188 | as written the published message is as long as the input: the length guard never fires |
| Chat.Message | backend/src/schema.ts:183-188 | corrected: at most 30 characters, the sanitised prefix of the input |
| Chat.Published | backend/src/schema.ts:183-188 | the published message in either reading: every character sanitised in place, as long as the input as written and cut to 30 characters corrected |
| Chat.LongMessageNotTruncated | backend/src/schema.ts:183-185 | a message over 30 characters goes out whole as written and at 30 characters corrected |
| Events.Filter | backend/src/schema.ts:79-89 | a session without a lobby is refused (the game channel with its own error); otherwise a payload passes iff it carries the session's lobby id |
| Events.Deliver | backend/src/schema.ts:77-124 | a subscription ends in error iff the session has no lobby and a payload appears on its channel; otherwise it delivers at most the published payloads |
| Events.DeliverCons | backend/src/schema.ts:77-124 | a lobby-attached session keeps the head payload iff it is on the channel and for its lobby |
| Events.DeliverMembers | backend/src/schema.ts:77-124 | a lobby-attached session receives exactly the payloads on the channel carrying its lobby id |
| Events.DeliverAppend | backend/src/schema.ts:77-124 | delivery distributes over concatenation, so payloads arrive in publication order |
| Events.Isolated | backend/src/schema.ts:77-124 | sessions in different lobbies never receive the same payload |
| Commands.Truncate | backend/src/schema.ts:418-420 | the nickname kept is a prefix of at most 15 characters: the whole name if it fits, its first 15 characters otherwise |
| Commands.Remove | backend/src/redis.ts:102-118 | removal applied to the server: the lobby's roster loses the uid, its playerCount drops by one, its other fields stay except the admin, which is kept as written and handed to the first remaining player corrected; every other lobby and all games unchanged |
| Commands.CreateLobby | backend/src/schema.ts:264-268 | a record with every default under the fresh id, returned; nothing else changed, nothing published |
| Commands.JoinLobby | backend/src/schema.ts:417-471 | LobbyNotFound, then LobbyFull by the chosen reading's full test, with nothing changed; otherwise the session is attached (uid issued if absent, nickname cut to 15) and the join succeeds iff the uid is not yet on the roster, and is refused with AlreadyInLobby otherwise; a join makes an empty lobby's joiner admin, increments playerCount (within maxPlayers in the corrected reading), appends the entry and announces the re-read lobby |
| Commands.LeaveLobby | backend/src/schema.ts:238-262 | NotInLobby without a lobby; otherwise the caller is removed as Commands.Remove states in the chosen reading, the session is detached, and the re-read lobby is announced |
| Commands.KickPlayer | backend/src/schema.ts:204-236 | NotInLobby, NotAdmin, KickSelf guards with nothing changed; succeeds iff admin and not self; the kicked uid is removed as Commands.Remove states and the lobby announced |
| Commands.StartGame | backend/src/schema.ts:338-383 | NotInLobby, NotAdmin, AlreadyStarted guards with nothing changed; succeeds iff admin, not started and roster non-empty; installs an empty board with the lobby settings, sets GAME_START and gives the turn to the next roster player; with an empty roster those writes and the first announcement stay and NoPlayers is thrown |
| Commands.StopGame | backend/src/schema.ts:385-415 | NotInLobby and NotAdmin guards with nothing changed; otherwise in any state the game is dropped, the state set to LOBBY, currentPlayer kept, and announced |
| Commands.MakeTurn | backend/src/schema.ts:270-336 | refuses with nothing changed unless the lobby exists, is started and it is the caller's turn; past those guards the move goes through iff the registry accepts it under the chosen bounds check, and a registry error is passed on unchanged with nothing changed; an accepted piece is announced with the new board; a win sets GAME_END and clears the turn; otherwise the turn passes to the next roster player (NoPlayers, with the board written, on an empty roster) |
| Commands.UpdateLobby | backend/src/schema.ts:473-502 | NotAdmin with nothing changed for anyone but the admin; otherwise the four settings are stored with the state reset to LOBBY, and the lobby is returned and announced with the state as read |
| Commands.WriteChat | backend/src/schema.ts:176-202 | NotInLobby without a lobby; otherwise one chat payload for the caller's lobby, by the caller, each character sanitised in place, at full length as written and at most 30 characters corrected; nothing stored |
| Commands.LobbyInfo | backend/src/schema.ts:141-160 | a caller not on its lobby's roster is detached and refused; LobbyNotFound for a missing record; otherwise the lobby as stored, record and whole roster |
| Commands.GameInfo | backend/src/schema.ts:162-172 | the same roster check, then the lobby's board or GameNotFound |
| Invariants.EmptyInv | backend/src/schema.ts:264-268 | the server before any request satisfies the invariant |
| Invariants.RosterInvFields | backend/src/schema.ts:359 | changing fields other than playerCount and admin keeps a lobby's roster invariant |
| Invariants.CreateLobbyInv | backend/src/schema.ts:264-268 | createLobby under an unused id keeps the invariant |
| Invariants.AppendFresh | backend/src/schema.ts:441-455 | appending a uid not yet on a duplicate-free roster keeps it duplicate-free and keeps every member |
| Invariants.RemoveAgrees | backend/src/redis.ts:109-115 | removing a player who is not the admin gives the same server in both readings |
| Invariants.JoinLobbyInv | backend/src/schema.ts:417-471 | joinLobby keeps every roster duplicate-free, counts within roster size and the admin on a non-empty roster, in both readings |
| Invariants.RemoveInv | backend/src/redis.ts:102-118 | removing a player keeps the invariant in the corrected reading, and in both readings when the player is not the admin |
| Invariants.LeaveLobbyInv | backend/src/schema.ts:238-262 | leaveLobby keeps the invariant in the corrected reading, and in both readings when the caller is not the admin |
| Invariants.AdminLeaveBreaksInv | backend/src/redis.ts:109-115 | as written, the admin leaving a lobby that two or more were in breaks the invariant; corrected, the same request keeps it |
| Invariants.KickPlayerInv | backend/src/schema.ts:204-236 | kickPlayer keeps the invariant in both readings, since the admin cannot kick themself |
| Invariants.StartGameInv | backend/src/schema.ts:338-383 | startGame keeps the invariant, including well-formed boards |
| Invariants.StopGameInv | backend/src/schema.ts:385-415 | stopGame keeps the invariant |
| Invariants.MakeTurnInv | backend/src/schema.ts:270-336 | makeTurn keeps the roster invariant in both readings, and also well-formed boards in the corrected reading |
| Invariants.MakeTurnOffBoard | backend/src/game.ts:48-61 | as written, the current player's move into column `cols` is accepted and breaks board well-formedness; corrected, it is refused with nothing changed |
| Invariants.UpdateLobbyInv | backend/src/schema.ts:473-502 | updateLobby keeps the invariant |
| Invariants.StopGameIdempotent | backend/src/schema.ts:385-415 | a second stopGame gives the same reply and changes nothing more |
| Scenarios.TwoJoin | backend/src/schema.ts:417-471 | in both readings, two players joining a fresh lobby: the first is admin, both on the roster in joining order, no turn yet |
| Scenarios.StartGivesFirstTurn | backend/src/schema.ts:338-383 | starting a lobby with roster [A, B] and no turn gives the first turn to A on an empty board with the lobby's settings |
| Scenarios.FirstMove | backend/src/schema.ts:270-336 | in both readings, B moving before A is refused with nothing changed; A's first piece passes the turn to B |
| Scenarios.Opening | backend/src/schema.ts:270-383 | in both readings, from an empty server: create, two joins, start; the out-of-turn move fails, the first move succeeds without a win |

## Left out

- `backend/src/index.ts`: the HTTP, GraphQL and WebSocket wiring, TLS, cookie sessions and rate limiting. The session is a value passed to each resolver.
- The `self` query (`backend/src/schema.ts:128-139`): it only reads the session.
- Redis connection setup and every `expire` call: these are I/O and time.
- Publication mechanics: publishing is appending a payload to the step's `events`. Delivery is `Events.Deliver` over a published sequence.
- Concurrency: each resolver is one atomic transition. The source interleaves at every `await` without locking.
- Identifier generation: `nanoid` and `uuidv4` are parameters. Ids and uids are never empty strings, so the source's truthiness tests are modelled as presence tests.
- Redis string typing: numeric fields are `int`. The one place the string typing matters, the lobby-full comparison, appears under Findings.
- Redis hash order is taken to be insertion order.
- Writes to a lobby record that does not exist are not modelled. `removePlayer` on a missing lobby would create a stray `playerCount` field that every existence check ignores; `Store.RemovePlayer` keeps the record absent.
- Commands.UpdateLobby: a session with no lobby is refused as NotAdmin. In the source, a session with neither lobby nor uid passes the admin test against an empty record and writes a record under the literal key `lobby:undefined`.
- Commands.Truncate: the source cuts nicknames and chat messages by UTF-16 code units. The model cuts by characters, so the two differ only for characters outside the Basic Multilingual Plane.
- Chat.Sanitize: same caveat. A character outside the Basic Multilingual Plane is two UTF-16 units, so the source writes two `*` for it where the model writes one.
- Commands.JoinLobby: playerCount within maxPlayers after a join is promised only in the corrected reading. As written the string comparison lets an eleventh player join a lobby of ten whose maxPlayers was lowered to 9, because "10" sorts before "9" (Store.TenOfNineNotFull).
- Commands.WriteChat: the 30-character bound is promised only in the corrected reading, because the length guard as written never fires.
- Invariants.RemoveInv: in the as-written reading the invariant is promised only when the player removed is not the admin. Invariants.AdminLeaveBreaksInv proves the as-written handoff breaks it otherwise.
- Invariants.LeaveLobbyInv: the same restriction, for the same reason.
- Invariants.MakeTurnInv: in the as-written reading only the roster invariant is promised. Invariants.MakeTurnOffBoard proves that a move into column `cols` leaves a board that is not well formed.
- The frontend, including the slider ranges for the settings. The server does not validate settings, and the model does not either.

## Findings

| source | as written | input that shows it | evidently intended | confidence | as-written member | corrected member |
|---|---|---|---|---|---|---|
| backend/src/game.ts:49 | the bounds check refuses only `col > cols` | `col == cols` on a fresh board: accepted, and a piece lands in a column the board does not have | refuse `col >= cols`, so columns are 0..cols-1 | not executed | Invariants.MakeTurnOffBoard | BoardProps.PlayWellFormed |
| backend/src/redis.ts:111 | `await getLobbyPlayer(...)[0]` indexes the pending promise, which is always undefined | admin A leaves roster [A, B]: the admin stays A, who is no longer on the roster | the first remaining player becomes admin | not executed | Invariants.AdminLeaveBreaksInv | Store.RemovePlayer |
| backend/src/schema.ts:429 | `playerCount >= maxPlayers` compares two Redis strings, so the order is lexicographic | playerCount 2, maxPlayers 10: "2" >= "10", so the lobby reports full | numeric comparison | not executed | Store.TwoOfTenCountsAsFull | Store.Full |
| backend/src/schema.ts:183 | the guard reads `message.lenght`, which is undefined, so `undefined > 30` is false | a 31-character message is published at 31 characters | cut messages to 30 characters | not executed | Chat.LongMessageNotTruncated | Chat.Published |
