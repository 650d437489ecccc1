/** The process-wide game registry of backend/src/game.ts: one board per
    lobby id, created by newGame, dropped by clearGame and reached by
    makeTurn and getGameBoard. The mutable module-level Map becomes a value
    passed in and returned. */
module Registry {
  import opened Wrappers
  import opened Types
  import Board

  type Games = map<LobbyId, Board.Game>

  /** Every board in the registry is well formed. */
  predicate AllWellFormed(games: Games) {
    forall id :: id in games ==> Board.WellFormed(games[id])
  }

  /** newGame: install a fresh empty board built from the lobby settings,
      replacing whatever board the lobby had. */
  function NewGame(games: Games, id: LobbyId, rows: int, cols: int, connect: int): (r: Games)
    ensures r.Keys == games.Keys + {id}
    ensures r[id].rows == rows && r[id].cols == cols && r[id].connect == connect
    ensures Board.Cells(r[id].board) == {}
    ensures forall other :: other in games && other != id ==> r[other] == games[other]
    ensures AllWellFormed(games) ==> AllWellFormed(r)
  {
    games[id := Board.NewGame(rows, cols, connect)]
  }

  datatype Cleared = Cleared(games: Games, existed: bool)

  /** clearGame: drop the lobby's board and report whether there was one. */
  function ClearGame(games: Games, id: LobbyId): (r: Cleared)
    ensures r.existed <==> id in games
    ensures r.games.Keys == games.Keys - {id}
    ensures forall other :: other in r.games ==> r.games[other] == games[other]
    ensures AllWellFormed(games) ==> AllWellFormed(r.games)
  {
    Cleared(games - {id}, id in games)
  }

  datatype Turned = Turned(games: Games, won: bool)

  /** makeTurn: place a piece on the lobby's board; throws when the lobby
      has no board, and otherwise passes on the board's own errors. The
      bounds check follows the chosen reading. */
  function MakeTurn(v: Variant, games: Games, id: LobbyId, p: Player, col: int): (r: Result<Turned, Error>)
    ensures id !in games ==> r == Err(GameNotFound)
    ensures id in games ==>
              (r == Err(ColumnOutOfBounds) <==> col < 0 || col >= Board.ColumnLimit(v, games[id].cols))
    ensures id in games && 0 <= col < Board.ColumnLimit(v, games[id].cols) ==>
              (r == Err(RowFull) <==> Board.Height(games[id].board, col) >= games[id].rows)
    ensures (id in games && 0 <= col < Board.ColumnLimit(v, games[id].cols)
             && Board.Height(games[id].board, col) < games[id].rows) ==> r.Ok?
    ensures r.Err? ==> r.error in {GameNotFound, ColumnOutOfBounds, RowFull}
    ensures r.Ok? ==> id in games && 0 <= col < Board.ColumnLimit(v, games[id].cols)
    ensures r.Ok? ==> r.value.games.Keys == games.Keys
    ensures r.Ok? ==> r.value.games[id].rows == games[id].rows && r.value.games[id].cols == games[id].cols
                      && r.value.games[id].connect == games[id].connect
    ensures r.Ok? ==> forall other :: other in games && other != id ==> r.value.games[other] == games[other]
    ensures r.Ok? ==> Board.Pushed(games[id].board, r.value.games[id].board, p, col)
    ensures r.Ok? ==> (r.value.won <==>
                         Board.Connected(r.value.games[id].board, p.uid, col,
                                         Board.Height(games[id].board, col), games[id].connect))
    ensures r.Ok? && v.Corrected? && AllWellFormed(games) ==> AllWellFormed(r.value.games)
  {
    if id !in games then
      Err(GameNotFound)
    else
      match Board.MakeTurnIn(v, games[id], p, col)
      case Err(e) => Err(e)
      case Ok(placed) => Ok(Turned(games[id := placed.game], placed.won))
  }

  /** As written, a well-formed registry can be left with a piece outside
      its board: the column index `cols` passes the bounds check. The
      corrected check refuses the same move. */
  lemma PlacesOffBoard(games: Games, id: LobbyId, p: Player)
    requires id in games && Board.WellFormed(games[id]) && games[id].rows >= 1 && games[id].cols >= 0
    ensures MakeTurn(AsWritten, games, id, p, games[id].cols).Ok?
    ensures !AllWellFormed(MakeTurn(AsWritten, games, id, p, games[id].cols).value.games)
    ensures MakeTurn(Corrected, games, id, p, games[id].cols) == Err(ColumnOutOfBounds)
  {
    var g := games[id];
    assert g.cols !in g.board;
    var r := MakeTurn(AsWritten, games, id, p, g.cols);
    assert g.cols in r.value.games[id].board;
  }

  /** getGameBoard: the lobby's board, or an error when it has none. */
  function GetGameBoard(games: Games, id: LobbyId): (r: Result<Board.Grid, Error>)
    ensures r.Ok? <==> id in games
    ensures r.Ok? ==> r.value == games[id].board
    ensures r.Err? ==> r.error == GameNotFound
  {
    if id !in games then Err(GameNotFound) else Ok(games[id].board)
  }

  /** Clearing twice is the same as clearing once, and the second call
      reports that nothing was there. */
  lemma ClearGameIdempotent(games: Games, id: LobbyId)
    ensures ClearGame(ClearGame(games, id).games, id) == Cleared(ClearGame(games, id).games, false)
  {
  }

  /** A board installed by newGame is the one getGameBoard returns, empty. */
  lemma NewGameThenGetBoard(games: Games, id: LobbyId, rows: int, cols: int, connect: int)
    ensures GetGameBoard(NewGame(games, id, rows, cols, connect), id) == Ok(map[])
  {
  }
}
