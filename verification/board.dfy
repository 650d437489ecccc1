/** The board engine of backend/src/game.ts: a generalized Connect-Four
    board held column-major, piece placement with its bounds and full-column
    checks, and win detection from the piece just placed. */
module Board {
  import opened Wrappers
  import opened Types

  /** One column, bottom to top. */
  type Column = seq<Player>

  /** The board as the source holds it: a sparse array indexed by column.
      A column never written is a hole, modelled as an absent key. */
  type Grid = map<int, Column>

  /** The unit directions a counting walk can take. */
  datatype Dir = Left | Right | Down | Up | UpLeft | DownRight | DownLeft | UpRight {
    function DX(): int {
      match this
      case Left | UpLeft | DownLeft => -1
      case Right | DownRight | UpRight => 1
      case Down | Up => 0
    }

    function DY(): int {
      match this
      case Up | UpLeft | UpRight => 1
      case Down | DownRight | DownLeft => -1
      case Left | Right => 0
    }

    function Reverse(): (d: Dir)
      ensures d.DX() == -DX() && d.DY() == -DY()
    {
      match this
      case Left => Right
      case Right => Left
      case Down => Up
      case Up => Down
      case UpLeft => DownRight
      case DownRight => UpLeft
      case DownLeft => UpRight
      case UpRight => DownLeft
    }
  }

  /** `x` moved `i` steps along an axis whose unit step is `delta`. */
  function Shift(x: int, delta: int, i: int): int {
    if delta > 0 then x + i else if delta < 0 then x - i else x
  }

  /** The cell (c, r) exists and holds a piece of `uid`. */
  predicate Owned(b: Grid, uid: Uid, c: int, r: int) {
    c in b && 0 <= r < |b[c]| && b[c][r].uid == uid
  }

  /** The cell `i` steps from (c, r) in direction `d` (negative `i` walks
      backwards) exists and holds a piece of `uid`. */
  predicate OwnedAt(b: Grid, uid: Uid, c: int, r: int, d: Dir, i: int) {
    Owned(b, uid, Shift(c, d.DX(), i), Shift(r, d.DY(), i))
  }

  function Height(b: Grid, c: int): nat {
    if c in b then |b[c]| else 0
  }

  /** Every cell of the board that exists. */
  function Cells(b: Grid): set<(int, int)> {
    set c, r | c in b && 0 <= r < |b[c]| :: (c, r)
  }

  /** How far (c, r) lies along direction `d`. */
  function Progress(d: Dir, c: int, r: int): int {
    Shift(0, d.DX(), c) + Shift(0, d.DY(), r)
  }

  /** The existing cells a walk in direction `d` standing on (c, r) has not
      yet left behind; it shrinks with every step, so the walk ends. */
  function Ahead(b: Grid, d: Dir, c: int, r: int): set<(int, int)> {
    set cell | cell in Cells(b) && Progress(d, cell.0, cell.1) >= Progress(d, c, r)
  }

  lemma AheadShrinks(b: Grid, d: Dir, c: int, r: int)
    requires c in b && 0 <= r < |b[c]|
    ensures Ahead(b, d, c + d.DX(), r + d.DY()) < Ahead(b, d, c, r)
  {
    var next := Ahead(b, d, c + d.DX(), r + d.DY());
    var here := Ahead(b, d, c, r);
    assert Progress(d, c + d.DX(), r + d.DY()) > Progress(d, c, r);
    assert next <= here;
    assert (c, r) in Cells(b);
    assert (c, r) in here && (c, r) !in next;
  }

  lemma OwnedAtStep(b: Grid, uid: Uid, c: int, r: int, d: Dir)
    ensures forall i :: OwnedAt(b, uid, c, r, d, i) == OwnedAt(b, uid, c + d.DX(), r + d.DY(), d, i - 1)
  {
  }

  /** Game.count: the length of the run of `p`'s pieces that starts at
      (c, r) and steps by `d`. The walk stops at a missing column, a missing
      or negative row, or a piece of another player, and it only reads
      cells that exist. */
  function Count(b: Grid, p: Player, c: int, r: int, d: Dir): (n: nat)
    ensures forall i :: 0 <= i < n ==> OwnedAt(b, p.uid, c, r, d, i)
    ensures !OwnedAt(b, p.uid, c, r, d, n)
    decreases Ahead(b, d, c, r)
  {
    if Owned(b, p.uid, c, r) then
      AheadShrinks(b, d, c, r);
      OwnedAtStep(b, p.uid, c, r, d);
      1 + Count(b, p, c + d.DX(), r + d.DY(), d)
    else
      0
  }

  /** Game.hasWon: the four line lengths through the piece of `p` just
      placed at (col, row), the vertical one counted downwards only. */
  function HasWon(b: Grid, p: Player, col: int, row: int, connect: int): (r: bool)
    ensures connect <= 1 ==> r
  {
    var horizontal := 1 + Count(b, p, col - 1, row, Left) + Count(b, p, col + 1, row, Right);
    var vertical := 1 + Count(b, p, col, row - 1, Down);
    var diagUD := 1 + Count(b, p, col - 1, row + 1, UpLeft) + Count(b, p, col + 1, row - 1, DownRight);
    var diagDU := 1 + Count(b, p, col - 1, row - 1, DownLeft) + Count(b, p, col + 1, row + 1, UpRight);
    horizontal >= connect || vertical >= connect || diagUD >= connect || diagDU >= connect
  }

  /** The `k` cells at steps s, s+1, ..., s+k-1 from (c, r) along `d` all
      hold pieces of `uid`. */
  ghost predicate Window(b: Grid, uid: Uid, c: int, r: int, d: Dir, s: int, k: int) {
    forall i :: s <= i < s + k ==> OwnedAt(b, uid, c, r, d, i)
  }

  /** Some `k` consecutive cells of `uid` along the axis of `d` include (c, r). */
  ghost predicate Line(b: Grid, uid: Uid, c: int, r: int, d: Dir, k: int) {
    exists s :: s <= 0 < s + k && Window(b, uid, c, r, d, s, k)
  }

  /** The winning condition stated independently of the counting walks:
      `k` consecutive pieces of `uid` through (c, r) on one of the four axes. */
  ghost predicate Connected(b: Grid, uid: Uid, c: int, r: int, k: int) {
    k <= 1 || Line(b, uid, c, r, Right, k) || Line(b, uid, c, r, Up, k)
    || Line(b, uid, c, r, DownRight, k) || Line(b, uid, c, r, UpRight, k)
  }

  /** The board as the source stores it, with the settings frozen when the
      game was created. */
  datatype Game = Game(rows: int, cols: int, connect: int, board: Grid)

  /** The outcome of one placement: the new game and whether it won. */
  datatype Placed = Placed(game: Game, won: bool)

  /** No column holds more than `rows` pieces. */
  predicate Bounded(g: Game) {
    forall c :: c in g.board ==> |g.board[c]| <= g.rows
  }

  /** Bounded, and every column that holds pieces lies inside [0, cols). */
  predicate WellFormed(g: Game) {
    Bounded(g) && forall c :: c in g.board ==> 0 <= c < g.cols
  }

  /** `after` is `before` with `p` pushed on top of column `col` and every
      other column untouched. */
  ghost predicate Pushed(before: Grid, after: Grid, p: Player, col: int) {
    && col in after
    && |after[col]| == Height(before, col) + 1
    && after[col][Height(before, col)] == p
    && (forall i :: 0 <= i < Height(before, col) ==> col in before && after[col][i] == before[col][i])
    && (forall c :: c != col ==> (c in after <==> c in before))
    && (forall c :: c != col && c in before ==> c in after && after[c] == before[c])
  }

  /** The Game constructor: the settings of the lobby and an empty board. */
  function NewGame(rows: int, cols: int, connect: int): (g: Game)
    ensures g.rows == rows && g.cols == cols && g.connect == connect
    ensures Cells(g.board) == {}
    ensures WellFormed(g)
  {
    Game(rows, cols, connect, map[])
  }

  /** The part of Game.makeTurn after the bounds check: refuse a full
      column, otherwise push the piece and test for a win from it. */
  function Drop(g: Game, p: Player, col: int): (r: Result<Placed, Error>)
    ensures r.Err? <==> Height(g.board, col) >= g.rows
    ensures r.Err? ==> r.error == RowFull
    ensures r.Ok? ==> r.value.game.rows == g.rows && r.value.game.cols == g.cols
                      && r.value.game.connect == g.connect
    ensures r.Ok? ==> Pushed(g.board, r.value.game.board, p, col)
    ensures r.Ok? ==> (r.value.won <==>
                         Connected(r.value.game.board, p.uid, col, Height(g.board, col), g.connect))
    ensures r.Ok? && Bounded(g) ==> Bounded(r.value.game)
  {
    var column := if col in g.board then g.board[col] else [];
    if |column| >= g.rows then
      Err(RowFull)
    else
      var board := g.board[col := column + [p]];
      var won := HasWon(board, p, col, |column|, g.connect);
      ConnectedIffHasWon(board, p, col, |column|, g.connect);
      Ok(Placed(g.(board := board), won))
  }

  /** Game.makeTurn as written: the bounds check `col > cols` lets the
      column index `cols` through. */
  function MakeTurnAsWritten(g: Game, p: Player, col: int): (r: Result<Placed, Error>)
    ensures r.Err? && r.error == ColumnOutOfBounds <==> col < 0 || col > g.cols
    ensures 0 <= col <= g.cols ==> r == Drop(g, p, col)
  {
    if col < 0 || col > g.cols then Err(ColumnOutOfBounds) else Drop(g, p, col)
  }

  /** Game.makeTurn with the bounds check the code evidently intends
      (`col >= cols`; the board has columns 0 .. cols - 1 only). */
  function MakeTurn(g: Game, p: Player, col: int): (r: Result<Placed, Error>)
    ensures r.Err? && r.error == ColumnOutOfBounds <==> col < 0 || col >= g.cols
    ensures 0 <= col < g.cols ==> r == Drop(g, p, col)
    ensures r.Ok? && WellFormed(g) ==> WellFormed(r.value.game)
  {
    if col < 0 || col >= g.cols then Err(ColumnOutOfBounds) else Drop(g, p, col)
  }

  /** The first column index the bounds check refuses: one past the last
      column as written, the number of columns once corrected. */
  function ColumnLimit(v: Variant, cols: int): int {
    if v.AsWritten? then cols + 1 else cols
  }

  /** Game.makeTurn in the chosen reading. */
  function MakeTurnIn(v: Variant, g: Game, p: Player, col: int): (r: Result<Placed, Error>)
    ensures r.Err? && r.error == ColumnOutOfBounds <==> col < 0 || col >= ColumnLimit(v, g.cols)
    ensures 0 <= col < ColumnLimit(v, g.cols) ==> r == Drop(g, p, col)
    ensures r.Ok? && v.Corrected? && WellFormed(g) ==> WellFormed(r.value.game)
  {
    if v.AsWritten? then MakeTurnAsWritten(g, p, col) else MakeTurn(g, p, col)
  }

  // ---------------------------------------------------------------------
  // Win detection against the independent line definition.

  lemma OwnedAtBack(b: Grid, uid: Uid, c: int, r: int, d: Dir, c0: int, r0: int)
    requires c0 == c - d.DX() && r0 == r - d.DY()
    ensures forall j :: OwnedAt(b, uid, c0, r0, d.Reverse(), j) == OwnedAt(b, uid, c, r, d, -(j + 1))
  {
  }

  /** Every cell from the end of the backward run to the end of the forward
      run through an owned cell is owned. */
  lemma RunsOwned(b: Grid, p: Player, c: int, r: int, d: Dir, back: int, fwd: int)
    requires Owned(b, p.uid, c, r)
    requires back == Count(b, p, c - d.DX(), r - d.DY(), d.Reverse())
    requires fwd == Count(b, p, c + d.DX(), r + d.DY(), d)
    ensures forall i :: -back <= i <= fwd ==> OwnedAt(b, p.uid, c, r, d, i)
  {
    var uid := p.uid;
    OwnedAtStep(b, uid, c, r, d);
    OwnedAtBack(b, uid, c, r, d, c - d.DX(), r - d.DY());
    assert OwnedAt(b, uid, c, r, d, 0);
    forall i | -back <= i <= fwd
      ensures OwnedAt(b, uid, c, r, d, i)
    {
      if i < 0 {
        assert OwnedAt(b, uid, c - d.DX(), r - d.DY(), d.Reverse(), -i - 1);
      } else if i > 0 {
        assert OwnedAt(b, uid, c + d.DX(), r + d.DY(), d, i - 1);
      }
    }
  }

  /** A line of length `k` through an owned cell exists exactly when the two
      runs on either side of it add up to at least `k - 1`. */
  lemma {:induction false} LineIffRuns(b: Grid, p: Player, c: int, r: int, d: Dir, k: int)
    requires Owned(b, p.uid, c, r)
    requires k >= 1
    ensures Line(b, p.uid, c, r, d, k) <==>
            1 + Count(b, p, c - d.DX(), r - d.DY(), d.Reverse()) + Count(b, p, c + d.DX(), r + d.DY(), d) >= k
  {
    var uid := p.uid;
    var back := Count(b, p, c - d.DX(), r - d.DY(), d.Reverse());
    var fwd := Count(b, p, c + d.DX(), r + d.DY(), d);
    OwnedAtStep(b, uid, c, r, d);
    OwnedAtBack(b, uid, c, r, d, c - d.DX(), r - d.DY());
    assert OwnedAt(b, uid, c, r, d, 0);
    assert !OwnedAt(b, uid, c, r, d, -(back + 1)) by {
      assert !OwnedAt(b, uid, c - d.DX(), r - d.DY(), d.Reverse(), back);
    }
    assert !OwnedAt(b, uid, c, r, d, fwd + 1) by {
      assert !OwnedAt(b, uid, c + d.DX(), r + d.DY(), d, fwd);
    }
    if 1 + back + fwd >= k {
      var s := if back >= k - 1 then -(k - 1) else -back;
      assert Window(b, uid, c, r, d, s, k) by {
        RunsOwned(b, p, c, r, d, back, fwd);
      }
    }
    if Line(b, uid, c, r, d, k) {
      var s :| s <= 0 < s + k && Window(b, uid, c, r, d, s, k);
      assert -back <= s;
      assert s + k - 1 <= fwd;
    }
  }

  /** hasWon, evaluated at the top piece of a column, says exactly that the
      piece completes a line of `connect` on one of the four axes. */
  lemma ConnectedIffHasWon(b: Grid, p: Player, col: int, row: int, connect: int)
    requires Owned(b, p.uid, col, row)
    requires row == |b[col]| - 1
    ensures HasWon(b, p, col, row, connect) <==> Connected(b, p.uid, col, row, connect)
  {
    if connect > 1 {
      LineIffRuns(b, p, col, row, Right, connect);
      LineIffRuns(b, p, col, row, Up, connect);
      LineIffRuns(b, p, col, row, DownRight, connect);
      LineIffRuns(b, p, col, row, UpRight, connect);
      assert !OwnedAt(b, p.uid, col, row + 1, Up, 0);
    }
  }
}
