/** checkForWinner: scan the board for four in a row of one player's code. */
module Winner {
  import opened Grid

  /** The result codes: the player's own code for a line, Draw for a full board
      without one, Ongoing otherwise. (The header comment of the source file
      calls 2 a draw; the code returns 0 for a draw and 2 to go on.) */
  const Draw := 0
  const Ongoing := 2

  /** The loop bounds of the four scans, as (outer, inner) index ranges. The
      horizontal scan runs over columns outside and rows inside; the other
      three over rows outside and columns inside. */
  function OuterLo(d: Direction): int {
    match d
    case Horizontal => 0
    case Vertical => 0
    case Ascending => 3
    case Descending => 3
  }

  function OuterHi(d: Direction): int {
    match d
    case Horizontal => Cols - 3
    case Vertical => Rows - 3
    case Ascending => Rows
    case Descending => Rows
  }

  function InnerLo(d: Direction): int {
    match d
    case Horizontal => 0
    case Vertical => 0
    case Ascending => 0
    case Descending => 3
  }

  function InnerHi(d: Direction): int {
    match d
    case Horizontal => Rows
    case Vertical => Cols
    case Ascending => Cols - 3
    case Descending => Cols
  }

  predicate Scanned(d: Direction, o: int, n: int) {
    OuterLo(d) <= o < OuterHi(d) && InnerLo(d) <= n < InnerHi(d)
  }

  /** Cell k (0 to 3) of the run of four that starts at loop position (o, n)
      and steps along direction d. */
  function RunCell(d: Direction, o: int, n: int, k: int): (cell: (int, int))
    requires Scanned(d, o, n) && 0 <= k < 4
    ensures InBounds(cell.0, cell.1)
  {
    match d
    case Horizontal => (n, o + k)
    case Vertical => (o + k, n)
    case Ascending => (o - k, n + k)
    case Descending => (o - k, n - k)
  }

  /** The four cells the scan tests at loop position (o, n) all hold p: the
      four cells of the run in direction d, one step apart. */
  predicate LineAt(g: Board, p: int, d: Direction, o: int, n: int)
    requires IsBoard(g) && Scanned(d, o, n)
    ensures LineAt(g, p, d, o, n) <==>
      forall k :: 0 <= k < 4 ==> g[RunCell(d, o, n, k).0][RunCell(d, o, n, k).1] == p
  {
    // The run starts at the loop position; naming its other cells lets the
    // quantifier be checked cell by cell.
    assert RunCell(d, o, n, 0) == (if d == Horizontal then (n, o) else (o, n));
    assert RunCell(d, o, n, 1).0 >= 0 && RunCell(d, o, n, 2).0 >= 0 && RunCell(d, o, n, 3).0 >= 0;
    match d
    case Horizontal =>  // row n, columns o .. o+3
      g[n][o] == p && g[n][o + 1] == p && g[n][o + 2] == p && g[n][o + 3] == p
    case Vertical =>    // rows o .. o+3, column n
      g[o][n] == p && g[o + 1][n] == p && g[o + 2][n] == p && g[o + 3][n] == p
    case Ascending =>   // from (o, n) up and to the right
      g[o][n] == p && g[o - 1][n + 1] == p && g[o - 2][n + 2] == p && g[o - 3][n + 3] == p
    case Descending =>  // from (o, n) up and to the left
      g[o][n] == p && g[o - 1][n - 1] == p && g[o - 2][n - 2] == p && g[o - 3][n - 3] == p
  }

  /** Some scanned run of four cells in some orientation all hold p. */
  ghost predicate HasLine(g: Board, p: int)
    requires IsBoard(g)
  {
    exists d, o, n :: Scanned(d, o, n) && LineAt(g, p, d, o, n)
  }

  /** Four cells in a row anywhere on the board, one step (dr, dc) apart in
      any of the eight directions, make a line: the scan bounds leave no run
      of four out. */
  lemma RunIsLine(g: Board, p: int, r: int, c: int, dr: int, dc: int)
    requires IsBoard(g) && -1 <= dr <= 1 && -1 <= dc <= 1 && (dr, dc) != (0, 0)
    requires InBounds(r, c) && InBounds(r + 3 * dr, c + 3 * dc)
    requires g[r][c] == p && g[r + dr][c + dc] == p && g[r + 2 * dr][c + 2 * dc] == p && g[r + 3 * dr][c + 3 * dc] == p
    ensures HasLine(g, p)
  {
    if dr == 0 {
      if dc == 1 {
        assert LineAt(g, p, Horizontal, c, r);
      } else {
        assert LineAt(g, p, Horizontal, c - 3, r);
      }
    } else if dc == 0 {
      if dr == 1 {
        assert LineAt(g, p, Vertical, r, c);
      } else {
        assert LineAt(g, p, Vertical, r - 3, c);
      }
    } else if dr == -dc {
      if dr == -1 {
        assert LineAt(g, p, Ascending, r, c);
      } else {
        assert LineAt(g, p, Ascending, r + 3, c - 3);
      }
    } else {
      if dr == -1 {
        assert LineAt(g, p, Descending, r, c);
      } else {
        assert LineAt(g, p, Descending, r + 3, c + 3);
      }
    }
  }

  /** The inner loop of one scan, from position n on. */
  function ScanInner(g: Board, p: int, d: Direction, o: int, n: int): (found: bool)
    requires IsBoard(g) && OuterLo(d) <= o < OuterHi(d) && InnerLo(d) <= n <= InnerHi(d)
    ensures found <==> exists n' :: n <= n' < InnerHi(d) && LineAt(g, p, d, o, n')
    decreases InnerHi(d) - n, g
  {
    if n == InnerHi(d) then false
    else LineAt(g, p, d, o, n) || ScanInner(g, p, d, o, n + 1)
  }

  /** The outer loop of one scan, from position o on. */
  function ScanOuter(g: Board, p: int, d: Direction, o: int): (found: bool)
    requires IsBoard(g) && OuterLo(d) <= o <= OuterHi(d)
    ensures found <==> exists o', n :: o <= o' && Scanned(d, o', n) && LineAt(g, p, d, o', n)
    decreases OuterHi(d) - o, g
  {
    if o == OuterHi(d) then false
    else ScanInner(g, p, d, o, InnerLo(d)) || ScanOuter(g, p, d, o + 1)
  }

  /** The four scans in the source's order. */
  function ScanAll(g: Board, p: int): (found: bool)
    requires IsBoard(g)
    ensures found <==> HasLine(g, p)
  {
    var h := ScanOuter(g, p, Horizontal, OuterLo(Horizontal));
    var v := ScanOuter(g, p, Vertical, OuterLo(Vertical));
    var a := ScanOuter(g, p, Ascending, OuterLo(Ascending));
    var e := ScanOuter(g, p, Descending, OuterLo(Descending));
    h || v || a || e
  }

  /** checkForWinner(colorTurn): the player's code when that player has four in
      a row, else Draw when the empty-cell counter is zero, else Ongoing. Only
      the given player's lines are looked for; the board is only read. */
  function CheckForWinner(g: Board, emptySpaces: int, turn: Color): (x: int)
    requires IsBoard(g)
    ensures x == turn.Piece() <==> HasLine(g, turn.Piece())
    ensures x == Draw <==> !HasLine(g, turn.Piece()) && emptySpaces == 0
    ensures x == Ongoing <==> !HasLine(g, turn.Piece()) && emptySpaces != 0
    ensures x != turn.Opponent().Piece()
  {
    if ScanAll(g, turn.Piece()) then turn.Piece()
    else if emptySpaces == 0 then Draw
    else Ongoing
  }
}
