/** Properties of the board engine across several placements: the height
    bound kept from the empty board on, the off-by-one in the bounds check,
    and the vertical win from stacking one player's pieces. */
module BoardProps {
  import opened Wrappers
  import opened Types
  import opened Board

  datatype Move = Move(player: Player, col: int)

  /** Replays moves with Game.makeTurn as written; a move that throws
      leaves the game as it was. */
  function PlayAsWritten(g: Game, moves: seq<Move>): Game
    decreases |moves|
  {
    if |moves| == 0 then g
    else
      var r := MakeTurnAsWritten(g, moves[0].player, moves[0].col);
      PlayAsWritten(if r.Ok? then r.value.game else g, moves[1..])
  }

  /** Replays moves with the corrected bounds check. */
  function Play(g: Game, moves: seq<Move>): Game
    decreases |moves|
  {
    if |moves| == 0 then g
    else
      var r := MakeTurn(g, moves[0].player, moves[0].col);
      Play(if r.Ok? then r.value.game else g, moves[1..])
  }

  /** Every column that holds pieces lies inside [0, limit]. */
  predicate ColumnsUpTo(g: Game, limit: int) {
    forall c :: c in g.board ==> 0 <= c <= limit
  }

  /** As written, no column ever exceeds `rows` pieces and no piece lands
      outside columns 0..cols, from any bounded start. */
  lemma {:induction false} PlayAsWrittenBounded(g: Game, moves: seq<Move>)
    requires Bounded(g) && ColumnsUpTo(g, g.cols)
    ensures var g' := PlayAsWritten(g, moves);
            Bounded(g') && ColumnsUpTo(g', g'.cols) && g'.rows == g.rows && g'.cols == g.cols
    decreases |moves|
  {
    if |moves| > 0 {
      var r := MakeTurnAsWritten(g, moves[0].player, moves[0].col);
      var next := if r.Ok? then r.value.game else g;
      assert Bounded(next) && ColumnsUpTo(next, next.cols);
      PlayAsWrittenBounded(next, moves[1..]);
    }
  }

  /** Starting from the constructor's empty board, no column ever holds more
      than `rows` pieces, whatever moves are made. */
  lemma EmptyBoardStaysBounded(rows: int, cols: int, connect: int, moves: seq<Move>)
    ensures Bounded(PlayAsWritten(NewGame(rows, cols, connect), moves))
  {
    PlayAsWrittenBounded(NewGame(rows, cols, connect), moves);
  }

  /** With the corrected bounds check every reachable board is well formed:
      heights within `rows`, columns within [0, cols). */
  lemma {:induction false} PlayWellFormed(g: Game, moves: seq<Move>)
    requires WellFormed(g)
    ensures WellFormed(Play(g, moves))
    decreases |moves|
  {
    if |moves| > 0 {
      var r := MakeTurn(g, moves[0].player, moves[0].col);
      PlayWellFormed(if r.Ok? then r.value.game else g, moves[1..]);
    }
  }

  /** The bounds check as written accepts the column index `cols`, one past
      the last column, and puts a piece there; the corrected check refuses it. */
  lemma AcceptsColumnEqualToCols(g: Game, p: Player)
    requires g.cols >= 0 && Height(g.board, g.cols) < g.rows
    ensures MakeTurnAsWritten(g, p, g.cols).Ok?
    ensures !WellFormed(MakeTurnAsWritten(g, p, g.cols).value.game)
    ensures MakeTurn(g, p, g.cols) == Err(ColumnOutOfBounds)
  {
    assert g.cols in MakeTurnAsWritten(g, p, g.cols).value.game.board;
  }

  /** `n` pieces of `p` dropped one after another into column `col`. */
  function StackN(g: Game, p: Player, col: int, n: nat): Game {
    if n == 0 then g
    else
      var h := StackN(g, p, col, n - 1);
      match Drop(h, p, col)
      case Ok(placed) => placed.game
      case Err(_) => h
  }

  /** Stacking into an empty column fills it bottom-up with `p`. */
  lemma {:induction false} StackColumn(g: Game, p: Player, col: int, n: nat)
    requires Height(g.board, col) == 0 && n <= g.rows
    ensures var h := StackN(g, p, col, n);
            h.rows == g.rows && h.connect == g.connect && Height(h.board, col) == n
            && forall i :: 0 <= i < n ==> col in h.board && h.board[col][i] == p
  {
    if n > 0 {
      StackColumn(g, p, col, n - 1);
    }
  }

  /** The downward walk from row `j` over a column whose rows 0..j all
      hold `p` counts exactly j + 1 pieces. */
  lemma CountDownFull(b: Grid, p: Player, col: int, j: int)
    requires col in b && -1 <= j < |b[col]|
    requires forall i :: 0 <= i <= j ==> b[col][i].uid == p.uid
    ensures Count(b, p, col, j, Down) == j + 1
  {
    var n := Count(b, p, col, j, Down);
    assert !OwnedAt(b, p.uid, col, j, Down, n);
    assert !OwnedAt(b, p.uid, col, j, Down, j + 1);
  }

  /** A piece dropped onto k - 1 pieces of the same player, filling the
      column from the bottom (the column StackColumn builds), wins when
      `connect == k`: the vertical line alone decides. */
  lemma VerticalWin(h: Game, p: Player, col: int, k: int)
    requires Height(h.board, col) == k - 1 && 1 <= k <= h.rows && h.connect == k
    requires forall i :: 0 <= i < k - 1 ==> col in h.board && h.board[col][i] == p
    ensures Drop(h, p, col).Ok? && Drop(h, p, col).value.won
  {
    var r := Drop(h, p, col);
    var b := r.value.game.board;
    assert col in b && |b[col]| == k;
    assert forall j :: 0 <= j < k ==> b[col][j] == p;
    assert Window(b, p.uid, col, k - 1, Up, 1 - k, k);
    assert Line(b, p.uid, col, k - 1, Up, k);
  }

  /** The first piece on an empty board wins only when one piece is
      enough. */
  lemma LonePiece(g: Game, p: Player, col: int)
    requires g.board == map[] && g.rows >= 1
    ensures Drop(g, p, col).Ok?
    ensures Drop(g, p, col).value.won <==> g.connect <= 1
  {
    var b := map[col := [p]];
    assert [] + [p] == [p];
    assert g.board[col := [] + [p]] == b;
    assert Drop(g, p, col) == Ok(Placed(g.(board := b), HasWon(b, p, col, 0, g.connect)));
    assert Count(b, p, col - 1, 0, Left) == 0;
    assert Count(b, p, col + 1, 0, Right) == 0;
    assert Count(b, p, col, -1, Down) == 0;
    assert Count(b, p, col - 1, 1, UpLeft) == 0;
    assert Count(b, p, col + 1, -1, DownRight) == 0;
    assert Count(b, p, col - 1, -1, DownLeft) == 0;
    assert Count(b, p, col + 1, 1, UpRight) == 0;
  }
}
