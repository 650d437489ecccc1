/** The shared vocabulary of the backend: players, the two state enums and
    the errors the resolvers throw. */
module Types {
  import opened Wrappers

  /** A player identity as issued to a session (a uuid v4). */
  type Uid = string

  /** A lobby identifier (an 11-character nanoid). */
  type LobbyId = string

  datatype Player = Player(uid: Uid, nickname: string)

  /** The phase signal of a lobby and of game-channel events. A lobby record
      only ever stores Lobby, GameStart or GameEnd; Turn and Place only label
      events. */
  datatype GameState = Lobby | GameStart | Turn | Place | GameEnd

  /** The change signal of lobby-channel events. */
  datatype LobbyState = SettingsUpdate | PlayerJoin | PlayerLeave | PlayerKick | GameStarted

  /** Every error a resolver or a subscription filter can raise. */
  datatype Error =
    | NotInLobby        // the session holds no lobby ("You are not in a lobby!")
    | NotInGame         // game-channel subscription without a lobby
    | LobbyNotFound     // the lobby record has no lobbyId field
    | NotAdmin          // an admin-only mutation from someone else
    | KickSelf          // the admin tried to kick themself
    | AlreadyStarted    // startGame while the state is GameStart
    | NotStarted        // makeTurn while the state is not GameStart
    | NotYourTurn       // makeTurn by someone other than currentPlayer
    | GameNotFound      // no board in the registry for the lobby
    | ColumnOutOfBounds // placement column rejected by the bounds check
    | RowFull           // placement column already holds `rows` pieces
    | LobbyFull         // join while playerCount >= maxPlayers
    | AlreadyInLobby    // join by a uid already in the roster
    | NoPlayers         // next-player lookup on an empty roster (a TypeError in the source)

  /** The cookie session of one connection: the uid and nickname issued on
      first join and the lobby it is attached to. */
  datatype SessionData = SessionData(uid: Option<Uid>, nickname: string, lobbyId: Option<LobbyId>)

  /** joinLobby assigns the uid before it attaches a lobby, and nothing else
      attaches one, so a session attached to a lobby always has a uid. */
  type Session = s: SessionData | s.lobbyId.Some? ==> s.uid.Some?
    witness SessionData(None, "", None)

  /** Which reading of the code a member follows where the code has a
      defect (the column bounds check, the admin handoff, the lobby-full
      comparison and the chat length guard): the code as it is written, or
      the behaviour it evidently intends. */
  datatype Variant = AsWritten | Corrected
}
