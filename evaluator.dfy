/** evaluate_window and scorePosition: the heuristic value of a position. */
module Evaluator {
  import opened Grid

  /** evaluate_window(window, turn): +5 for three own pieces and one empty
      cell, else +2 for two own pieces and two empty cells; then -4 for three
      opponent pieces and one empty cell. Any window scores between -4 and 5,
      a window of at most one cell scores 0, and on a window of four cells
      each non-zero score comes from exactly one composition. */
  function EvaluateWindow(w: seq<int>, turn: Color): (score: int)
    ensures -4 <= score <= 5
    ensures |w| <= 1 ==> score == 0
    ensures |w| == 4 ==> score in {-4, 0, 2, 5}
    ensures |w| == 4 ==>
      (score == 5 <==> Count(w, turn.Piece()) == 3 && Count(w, EmptyCell) == 1)
    ensures |w| == 4 ==>
      (score == 2 <==> Count(w, turn.Piece()) == 2 && Count(w, EmptyCell) == 2)
    ensures |w| == 4 ==>
      (score == -4 <==> Count(w, turn.Opponent().Piece()) == 3 && Count(w, EmptyCell) == 1)
  {
    var mine := Count(w, turn.Piece());
    var empty := Count(w, EmptyCell);
    var theirs := Count(w, turn.Opponent().Piece());
    CountDisjoint(w, turn.Piece(), EmptyCell, turn.Opponent().Piece());
    var gain := if mine == 3 && empty == 1 then 5 else if mine == 2 && empty == 2 then 2 else 0;
    var loss := if theirs == 3 && empty == 1 then 4 else 0;
    gain - loss
  }

  /** A column of the board read top to bottom. */
  function Column(g: Board, c: int): (col: seq<int>)
    requires IsBoard(g) && 0 <= c < Cols
    ensures |col| == Rows && forall i :: 0 <= i < Rows ==> col[i] == g[i][c]
  {
    [g[0][c], g[1][c], g[2][c], g[3][c], g[4][c], g[5][c]]
  }

  /** The window loops of scorePosition, as (outer, inner) ranges. */
  function OuterCount(d: Direction): nat {
    match d
    case Horizontal => Rows
    case Vertical => Cols
    case Descending => Rows - 3
    case Ascending => Rows - 3
  }

  function InnerCount(d: Direction): nat {
    match d
    case Horizontal => Cols - 3
    case Vertical => Rows - 3
    case Descending => Cols - 3
    case Ascending => Cols - 3
  }

  /** The window handed to evaluate_window at loop position (o, n). The two
      diagonal loops rebuild their window inside the loop over its four cells,
      so only the cell added last survives: a window of one cell. */
  function WindowAt(g: Board, d: Direction, o: int, n: int): (w: seq<int>)
    requires IsBoard(g) && 0 <= o < OuterCount(d) && 0 <= n < InnerCount(d)
    ensures d == Horizontal || d == Vertical ==> |w| == 4
    ensures d == Descending || d == Ascending ==> |w| == 1
  {
    match d
    case Horizontal => g[o][n .. n + 4]
    case Vertical => Column(g, o)[n .. n + 4]
    case Descending => [g[o + 3][n + 3]]
    case Ascending => [g[o][n + 3]]
  }

  /** The inner window loop, from position n on. */
  function SumInner(g: Board, turn: Color, d: Direction, o: int, n: nat): (s: int)
    requires IsBoard(g) && 0 <= o < OuterCount(d) && n <= InnerCount(d)
    ensures -4 * (InnerCount(d) - n) <= s <= 5 * (InnerCount(d) - n)
    ensures d == Descending || d == Ascending ==> s == 0
    decreases InnerCount(d) - n, g
  {
    if n == InnerCount(d) then 0
    else
      EvaluateWindow(WindowAt(g, d, o, n), turn) + SumInner(g, turn, d, o, n + 1)
  }

  /** The outer window loop, from position o on. */
  function SumOuter(g: Board, turn: Color, d: Direction, o: nat): (s: int)
    requires IsBoard(g) && o <= OuterCount(d)
    ensures -4 * (InnerCount(d) * (OuterCount(d) - o)) <= s <= 5 * (InnerCount(d) * (OuterCount(d) - o))
    ensures d == Descending || d == Ascending ==> s == 0
    decreases OuterCount(d) - o, g
  {
    if o == OuterCount(d) then 0
    else
      var k := InnerCount(d);
      assert k * (OuterCount(d) - o) == k + k * (OuterCount(d) - (o + 1));
      SumInner(g, turn, d, o, 0) + SumOuter(g, turn, d, o + 1)
  }

  /** The centre-column term: two points per own piece in column 3, so an
      even number of at most 12, and 0 exactly when column 3 holds no own
      piece. */
  function CenterBonus(g: Board, turn: Color): (bonus: int)
    requires IsBoard(g)
    ensures 0 <= bonus <= 2 * Rows && bonus % 2 == 0
    ensures bonus == 0 <==> forall i :: 0 <= i < Rows ==> g[i][3] != turn.Piece()
  {
    Count(Column(g, 3), turn.Piece()) * 2
  }

  /** scorePosition(turn): the centre bonus plus every window of every loop.
      The one-cell diagonal windows never score, so only the centre bonus and
      the 24 horizontal and 21 vertical windows count, and the score lies in
      [-180, 237], well inside the search's win and loss values. */
  function ScorePosition(g: Board, turn: Color): (score: int)
    requires IsBoard(g)
    ensures score == CenterBonus(g, turn) + SumOuter(g, turn, Horizontal, 0) + SumOuter(g, turn, Vertical, 0)
    ensures -180 <= score <= 237
  {
    CenterBonus(g, turn)
    + SumOuter(g, turn, Horizontal, 0)
    + SumOuter(g, turn, Vertical, 0)
    + SumOuter(g, turn, Descending, 0)
    + SumOuter(g, turn, Ascending, 0)
  }
}
