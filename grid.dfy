/** The 6 x 7 Connect-4 board as a value: cell codes, the two colours, placing a
    piece, and the rule that says which cell a player may press. */
module Grid {

  const Rows := 6
  const Cols := 7

  /** Cell codes: Red (the AI) is 1, Yellow (the human) is -1, an empty cell 0. */
  const RedPiece := 1
  const YellowPiece := -1
  const EmptyCell := 0

  /** The colour of the side to move; the source passes it around as the
      strings "Red" and "Yellow" and only ever asks whether it equals "Red". */
  datatype Color = Red | Yellow {
    function Piece(): (p: int)
      ensures p == RedPiece || p == YellowPiece
      ensures Red? <==> p == RedPiece
    {
      if Red? then RedPiece else YellowPiece
    }

    function Opponent(): (o: Color)
      ensures o != this && o.Piece() == -Piece()
    {
      if Red? then Yellow else Red
    }
  }

  /** The four line orientations. Descending lines go down-right (row and
      column both grow); ascending lines go up-right. */
  datatype Direction = Horizontal | Vertical | Ascending | Descending

  /** currentBoard[row][col], row 0 at the top. */
  type Board = seq<seq<int>>

  predicate IsBoard(g: Board) {
    |g| == Rows && forall i :: 0 <= i < |g| ==> |g[i]| == Cols
  }

  predicate InBounds(r: int, c: int) {
    0 <= r < Rows && 0 <= c < Cols
  }

  /** The board with cell (r, c) set to v. */
  function Place(g: Board, r: int, c: int, v: int): (g': Board)
    requires IsBoard(g) && InBounds(r, c)
    ensures IsBoard(g')
    ensures g'[r][c] == v
    ensures forall i, j :: InBounds(i, j) && (i != r || j != c) ==> g'[i][j] == g[i][j]
  {
    g[r := g[r][c := v]]
  }

  /** Two boards are equal when they agree on every cell. */
  lemma BoardExt(g: Board, h: Board)
    requires IsBoard(g) && IsBoard(h)
    requires forall i, j :: InBounds(i, j) ==> g[i][j] == h[i][j]
    ensures g == h
  {
    forall i | 0 <= i < Rows ensures g[i] == h[i] {
      assert forall j :: 0 <= j < Cols ==> g[i][j] == h[i][j];
    }
  }

  /** Setting a cell back to the value it held gives the board back. */
  lemma PlaceUndo(g: Board, r: int, c: int, v: int)
    requires IsBoard(g) && InBounds(r, c)
    ensures Place(Place(g, r, c, v), r, c, g[r][c]) == g
  {
    BoardExt(Place(Place(g, r, c, v), r, c, g[r][c]), g);
  }

  /** How many cells of w hold v. */
  function Count(w: seq<int>, v: int): (n: nat)
    ensures n <= |w|
    ensures n == 0 <==> v !in w
  {
    if w == [] then 0 else (if w[0] == v then 1 else 0) + Count(w[1..], v)
  }

  /** Cells holding three different values are counted at most once in all. */
  lemma {:induction false} CountDisjoint(w: seq<int>, a: int, b: int, c: int)
    requires a != b && b != c && a != c
    ensures Count(w, a) + Count(w, b) + Count(w, c) <= |w|
  {
    if w != [] {
      CountDisjoint(w[1..], a, b, c);
    }
  }

  /** Overwriting one cell changes a count by at most the cell itself. */
  lemma {:induction false} CountUpdate(w: seq<int>, k: int, v: int, x: int)
    requires 0 <= k < |w|
    ensures Count(w[k := v], x) ==
      Count(w, x) - (if w[k] == x then 1 else 0) + (if v == x then 1 else 0)
  {
    if k > 0 {
      CountUpdate(w[1..], k - 1, v, x);
      assert w[k := v][1..] == w[1..][k - 1 := v];
    }
  }

  /** Empty cells in rows 0 .. k-1. */
  function EmptyInRows(g: Board, k: nat): (n: nat)
    requires IsBoard(g) && k <= Rows
    ensures n <= Cols * k
    ensures n == 0 <==> forall i, j :: 0 <= i < k && 0 <= j < Cols ==> g[i][j] != EmptyCell
    decreases k, g
  {
    if k == 0 then 0
    else
      var row := g[k - 1];
      assert Count(row, EmptyCell) == 0 <==> forall j :: 0 <= j < Cols ==> row[j] != EmptyCell;
      EmptyInRows(g, k - 1) + Count(g[k - 1], EmptyCell)
  }

  /** The number of empty cells on the board: 0 exactly when it is full. */
  function EmptyCount(g: Board): (n: nat)
    requires IsBoard(g)
    ensures n <= Rows * Cols
    ensures n == 0 <==> forall i, j :: InBounds(i, j) ==> g[i][j] != EmptyCell
  {
    EmptyInRows(g, Rows)
  }

  /** A piece put into an empty cell leaves one empty cell fewer. */
  lemma {:induction false} PlaceEmptyInRows(g: Board, r: int, c: int, v: int, k: nat)
    requires IsBoard(g) && InBounds(r, c) && k <= Rows
    requires g[r][c] == EmptyCell && v != EmptyCell
    ensures EmptyInRows(Place(g, r, c, v), k) == EmptyInRows(g, k) - (if r < k then 1 else 0)
  {
    if k > 0 {
      PlaceEmptyInRows(g, r, c, v, k - 1);
      if k - 1 == r {
        CountUpdate(g[r], c, v, EmptyCell);
      } else {
        assert Place(g, r, c, v)[k - 1] == g[k - 1];
      }
    }
  }

  /** A sequence of v's has all its cells counted. */
  lemma {:induction false} CountAll(w: seq<int>, v: int)
    requires forall i :: 0 <= i < |w| ==> w[i] == v
    ensures Count(w, v) == |w|
  {
    if w != [] {
      CountAll(w[1..], v);
    }
  }

  /** A board of empty cells has 7 empty cells per row: 42 in all. */
  lemma {:induction false} EmptyBoardCount(g: Board, k: nat)
    requires IsBoard(g) && k <= Rows
    requires forall i, j :: InBounds(i, j) ==> g[i][j] == EmptyCell
    ensures EmptyInRows(g, k) == Cols * k
  {
    if k > 0 {
      EmptyBoardCount(g, k - 1);
      CountAll(g[k - 1], EmptyCell);
    }
  }

  /** The board at the start of a game: every cell empty. */
  function EmptyBoard(): (g: Board)
    ensures IsBoard(g)
    ensures forall i, j :: InBounds(i, j) ==> g[i][j] == EmptyCell
  {
    seq(Rows, i => seq(Cols, j => EmptyCell))
  }

  /** No piece floats: every cell above an empty cell is empty. */
  predicate Settled(g: Board)
    requires IsBoard(g)
  {
    forall i, i', j :: 0 <= i' <= i < Rows && 0 <= j < Cols && g[i][j] == EmptyCell ==> g[i'][j] == EmptyCell
  }

  /** The gravity rule of the button handler: a cell may be pressed only on the
      bottom row or when the cell below it is already occupied. On a board
      without floating pieces an empty cell passes the rule exactly when every
      cell below it is occupied, so the piece lands on top of its column. */
  predicate Pressable(g: Board, r: int, c: int)
    requires IsBoard(g) && InBounds(r, c)
    ensures Settled(g) && g[r][c] == EmptyCell ==>
      (Pressable(g, r, c) <==> forall i :: r < i < Rows ==> g[i][c] != EmptyCell)
  {
    r == Rows - 1 || g[r + 1][c] != EmptyCell
  }
}
