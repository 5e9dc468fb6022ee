/** The value MiniMax computes, as functions over positions: the alpha-beta
    search as the source runs it on a consistent position, plain minimax
    beside it, and the
    proof that pruning does not change the value inside the window. */
module Search {
  import opened Grid
  import opened Winner
  import opened Evaluator
  import opened Playable

  /** The fixed values of a Red line and a Yellow line. */
  const WinScore := 999
  const LossScore := -999

  /** Everything MiniMax reads: the board, the empty-cell counter and the
      playable list. */
  datatype Position = Position(board: Board, emptySpaces: int, playable: seq<Cell>)

  /** The board is 6 x 7 and every playable entry is a cell of it. */
  predicate WellFormed(p: Position) {
    IsBoard(p.board) && forall e :: e in p.playable ==> InBounds(e.0, e.1)
  }

  /** (r, c) is the lowest empty cell of column c: it and every cell above it
      are empty, and it may be pressed. */
  predicate LowestEmpty(g: Board, r: int, c: int)
    requires IsBoard(g) && InBounds(r, c)
  {
    (forall i :: 0 <= i <= r ==> g[i][c] == EmptyCell) && Pressable(g, r, c)
  }

  /** Every column whose top cell is empty has an entry in the list. */
  predicate Covers(p: Position)
    requires WellFormed(p)
  {
    forall c :: 0 <= c < Cols && p.board[0][c] == EmptyCell ==> HasColumn(p.playable, c)
  }

  /** The invariant of the game state between moves: no piece floats, the
      counter is the number of empty cells, each playable entry is the lowest
      empty cell of its column, one entry per column, and every column with
      room has its entry. */
  predicate Consistent(p: Position) {
    WellFormed(p) && Settled(p.board) && p.emptySpaces == EmptyCount(p.board) &&
    DistinctColumns(p.playable) && (forall e :: e in p.playable ==> LowestEmpty(p.board, e.0, e.1)) &&
    Covers(p)
  }

  /** The state of a new game: an empty board, 42 empty cells and the bottom
      row playable from left to right. */
  function InitialPosition(): (p: Position)
    ensures Consistent(p)
    ensures p.emptySpaces == Rows * Cols && forall i, j :: InBounds(i, j) ==> p.board[i][j] == EmptyCell
    ensures |p.playable| == Cols && forall c :: 0 <= c < Cols ==> p.playable[c] == (Rows - 1, c)
  {
    InitialConsistent(EmptyBoard(), InitialPlayable());
    Position(EmptyBoard(), Rows * Cols, InitialPlayable())
  }

  /** A board of empty cells with the bottom row playable is consistent. */
  lemma InitialConsistent(g: Board, s: seq<Cell>)
    requires IsBoard(g) && forall i, j :: InBounds(i, j) ==> g[i][j] == EmptyCell
    requires |s| == Cols && forall c :: 0 <= c < Cols ==> s[c] == (Rows - 1, c)
    ensures Consistent(Position(g, Rows * Cols, s))
  {
    EmptyBoardCount(g, Rows);
    forall e | e in s
      ensures InBounds(e.0, e.1) && LowestEmpty(g, e.0, e.1)
    {
      var c :| 0 <= c < |s| && s[c] == e;
    }
    forall c | 0 <= c < Cols && g[0][c] == EmptyCell
      ensures HasColumn(s, c)
    {
      assert s[c] in s;
      HasColumnEntry(s, c);
    }
  }

  /** The position after a piece goes into playable entry k: the cell is set,
      the counter drops by one and the list takes its forward edit. */
  function Play(p: Position, k: int, piece: int): (q: Position)
    requires WellFormed(p) && 0 <= k < |p.playable|
    ensures WellFormed(q)
  {
    var (r, c) := p.playable[k];
    Position(Place(p.board, r, c, piece), p.emptySpaces - 1, Advance(p.playable, r, c))
  }

  /** Playing a piece into a playable cell keeps the invariant. */
  lemma PlayConsistent(p: Position, k: int, piece: int)
    requires Consistent(p) && 0 <= k < |p.playable| && piece != EmptyCell
    ensures Consistent(Play(p, k, piece))
  {
    var (r, c) := p.playable[k];
    AdvanceDistinct(p.playable, r, c, k);
    var q := Play(p, k, piece);
    assert LowestEmpty(p.board, r, c);
    PlaceEmptyInRows(p.board, r, c, piece, Rows);
    forall e | e in q.playable ensures LowestEmpty(q.board, e.0, e.1) {
      if e.1 != c {
        assert LowestEmpty(p.board, e.0, e.1);
      } else {
        assert e == (r - 1, c);
        assert LowestEmpty(p.board, r, c);
      }
    }
    forall i, i', j | 0 <= i' <= i < Rows && 0 <= j < Cols && q.board[i][j] == EmptyCell
      ensures q.board[i'][j] == EmptyCell
    {
      if j == c && i > r {
        assert false;
      }
    }
    forall c' | 0 <= c' < Cols && q.board[0][c'] == EmptyCell
      ensures HasColumn(q.playable, c')
    {
      HasColumnEntry(q.playable, c');
      if c' == c {
        assert (r - 1, c) in q.playable;
      } else {
        HasColumnEntry(p.playable, c');
        var e :| e in p.playable && e.1 == c';
        assert e in q.playable;
      }
    }
  }

  /** Clearing the cell, adding one back to the counter and taking the
      backward edit at index k undo Play exactly. */
  lemma UndoPlay(p: Position, k: int, piece: int)
    requires Consistent(p) && 0 <= k < |p.playable|
    ensures k <= |Play(p, k, piece).playable|
    ensures var (r, c) := p.playable[k];
            var q := Play(p, k, piece);
            Position(Place(q.board, r, c, EmptyCell), q.emptySpaces + 1, Retract(q.playable, r, c, k)) == p
  {
    var (r, c) := p.playable[k];
    assert LowestEmpty(p.board, r, c);
    PlaceUndo(p.board, r, c, piece);
    AdvanceRetract(p.playable, r, c, k);
  }

  /** The list holds exactly the legal moves: a cell is in it if and only if
      it is empty and passes the placement rule of the button handler. Hence
      it has at most one entry per column, seven in all. */
  lemma PlayablePressable(p: Position)
    requires Consistent(p)
    ensures forall r, c :: InBounds(r, c) ==>
      ((r, c) in p.playable <==> p.board[r][c] == EmptyCell && Pressable(p.board, r, c))
    ensures |p.playable| <= Cols
  {
    forall r, c | InBounds(r, c)
      ensures (r, c) in p.playable <==> p.board[r][c] == EmptyCell && Pressable(p.board, r, c)
    {
      if (r, c) in p.playable {
        assert LowestEmpty(p.board, r, c);
      }
      if p.board[r][c] == EmptyCell && Pressable(p.board, r, c) {
        assert p.board[0][c] == EmptyCell;
        HasColumnEntry(p.playable, c);
        var e :| e in p.playable && e.1 == c;
        assert LowestEmpty(p.board, e.0, c);
        assert e.0 == r by {
          if e.0 < r {
            assert false;
          } else if e.0 > r {
            assert false;
          }
        }
      }
    }
    DistinctColumnsBound(p.playable, Cols);
  }

  /** With the counter in step with the board, checkForWinner reports a draw
      exactly when the board is full and the player has no line. */
  lemma DrawMeansFull(p: Position, turn: Color)
    requires Consistent(p)
    ensures CheckForWinner(p.board, p.emptySpaces, turn) == Draw <==>
      !HasLine(p.board, turn.Piece()) && forall i, j :: InBounds(i, j) ==> p.board[i][j] != EmptyCell
  {
  }

  /** Math.max and Math.min. */
  function Max(a: int, b: int): (m: int)
    ensures a <= m && b <= m && (m == a || m == b)
  {
    if a >= b then a else b
  }

  function Min(a: int, b: int): (m: int)
    ensures m <= a && m <= b && (m == a || m == b)
  {
    if a <= b then a else b
  }

  /** The colour MiniMax looks for a line of: Red on a maximising step,
      Yellow on a minimising one. */
  function Mover(isMaximizing: bool): (turn: Color)
    ensures turn.Piece() == if isMaximizing then RedPiece else YellowPiece
  {
    if isMaximizing then Red else Yellow
  }

  /** The value of a node where the search stops: 0 for a draw, the fixed
      scores for a line, otherwise the heuristic score from Red's side. */
  function Leaf(g: Board, x: int): (v: int)
    requires IsBoard(g)
    ensures LossScore <= v <= WinScore
  {
    if x == Draw then 0
    else if x == RedPiece then WinScore
    else if x == YellowPiece then LossScore
    else ScorePosition(g, Red)
  }

  /** MiniMax(isMaximizing, depth, alpha, beta) with alpha-beta pruning. */
  ghost function AlphaBeta(p: Position, isMaximizing: bool, depth: nat, alpha: int, beta: int): (v: int)
    requires WellFormed(p)
    ensures LossScore <= v <= WinScore
    decreases depth, 1, 0
  {
    var x := CheckForWinner(p.board, p.emptySpaces, Mover(isMaximizing));
    if x != Ongoing || depth == 0 then Leaf(p.board, x)
    else if isMaximizing then MaxLoop(p, depth, alpha, beta, 0, LossScore)
    else MinLoop(p, depth, alpha, beta, 0, WinScore)
  }

  /** The value of one trial: piece goes into playable entry k and the other
      side's search runs on the resulting position. */
  ghost function Child(p: Position, k: nat, piece: int, isMaximizing: bool, depth: nat, alpha: int, beta: int): (v: int)
    requires WellFormed(p) && k < |p.playable|
    ensures LossScore <= v <= WinScore
    decreases depth, 2
  {
    AlphaBeta(Play(p, k, piece), isMaximizing, depth, alpha, beta)
  }

  /** The maximising loop from entry i on, with the current alpha and best
      value; it stops once beta <= alpha. */
  ghost function MaxLoop(p: Position, depth: nat, alpha: int, beta: int, i: nat, best: int): (v: int)
    requires WellFormed(p) && 0 < depth && i <= |p.playable|
    ensures v >= best
    ensures LossScore <= best <= WinScore ==> LossScore <= v <= WinScore
    decreases depth, 0, |p.playable| - i
  {
    if i == |p.playable| then best
    else
      var value := Child(p, i, RedPiece, false, depth - 1, alpha, beta);
      var best' := Max(best, value);
      var alpha' := Max(alpha, best');
      if beta <= alpha' then best'
      else MaxLoop(p, depth, alpha', beta, i + 1, best')
  }

  /** The minimising loop from entry i on, with the current beta and best
      value; it stops once beta <= alpha. */
  ghost function MinLoop(p: Position, depth: nat, alpha: int, beta: int, i: nat, best: int): (v: int)
    requires WellFormed(p) && 0 < depth && i <= |p.playable|
    ensures v <= best
    ensures LossScore <= best <= WinScore ==> LossScore <= v <= WinScore
    decreases depth, 0, |p.playable| - i
  {
    if i == |p.playable| then best
    else
      var value := Child(p, i, YellowPiece, true, depth - 1, alpha, beta);
      var best' := Min(best, value);
      var beta' := Min(beta, best');
      if beta' <= alpha then best'
      else MinLoop(p, depth, alpha, beta', i + 1, best')
  }

  /** One step of the maximising loop, for callers that run it entry by entry. */
  lemma MaxLoopNext(p: Position, depth: nat, alpha: int, beta: int, i: nat, best: int, v: int)
    requires WellFormed(p) && 0 < depth && i < |p.playable|
    requires v == Child(p, i, RedPiece, false, depth - 1, alpha, beta)
    ensures MaxLoop(p, depth, alpha, beta, i, best) ==
      if beta <= Max(alpha, Max(best, v)) then Max(best, v)
      else MaxLoop(p, depth, Max(alpha, Max(best, v)), beta, i + 1, Max(best, v))
  {
  }

  /** One step of the minimising loop. */
  lemma MinLoopNext(p: Position, depth: nat, alpha: int, beta: int, i: nat, best: int, v: int)
    requires WellFormed(p) && 0 < depth && i < |p.playable|
    requires v == Child(p, i, YellowPiece, true, depth - 1, alpha, beta)
    ensures MinLoop(p, depth, alpha, beta, i, best) ==
      if Min(beta, Min(best, v)) <= alpha then Min(best, v)
      else MinLoop(p, depth, alpha, Min(beta, Min(best, v)), i + 1, Min(best, v))
  {
  }

  /** The same search without pruning: every playable entry is tried. */
  ghost function Minimax(p: Position, isMaximizing: bool, depth: nat): (v: int)
    requires WellFormed(p)
    ensures LossScore <= v <= WinScore
    decreases depth, 1, 0
  {
    var x := CheckForWinner(p.board, p.emptySpaces, Mover(isMaximizing));
    if x != Ongoing || depth == 0 then Leaf(p.board, x)
    else if isMaximizing then PlainMax(p, depth, 0, LossScore)
    else PlainMin(p, depth, 0, WinScore)
  }

  /** The plain value of one trial. */
  ghost function PlainChild(p: Position, k: nat, piece: int, isMaximizing: bool, depth: nat): (v: int)
    requires WellFormed(p) && k < |p.playable|
    ensures LossScore <= v <= WinScore
    decreases depth, 2
  {
    Minimax(Play(p, k, piece), isMaximizing, depth)
  }

  ghost function PlainMax(p: Position, depth: nat, i: nat, best: int): (v: int)
    requires WellFormed(p) && 0 < depth && i <= |p.playable|
    ensures v >= best
    ensures LossScore <= best <= WinScore ==> LossScore <= v <= WinScore
    decreases depth, 0, |p.playable| - i
  {
    if i == |p.playable| then best
    else PlainMax(p, depth, i + 1, Max(best, PlainChild(p, i, RedPiece, false, depth - 1)))
  }

  ghost function PlainMin(p: Position, depth: nat, i: nat, best: int): (v: int)
    requires WellFormed(p) && 0 < depth && i <= |p.playable|
    ensures v <= best
    ensures LossScore <= best <= WinScore ==> LossScore <= v <= WinScore
    decreases depth, 0, |p.playable| - i
  {
    if i == |p.playable| then best
    else PlainMin(p, depth, i + 1, Min(best, PlainChild(p, i, YellowPiece, true, depth - 1)))
  }

  /** x cut to the window [lo, hi]. */
  function Clamp(x: int, lo: int, hi: int): (y: int)
    ensures lo <= hi ==> lo <= y <= hi
    ensures lo <= x <= hi ==> y == x
  {
    if x < lo then lo else if x > hi then hi else x
  }

  /** Plain maximising loops started from values equal up to clamping end
      with values equal up to clamping. */
  lemma {:induction false} PlainMaxClamp(p: Position, depth: nat, i: nat, b1: int, b2: int, lo: int, hi: int)
    requires WellFormed(p) && 0 < depth && i <= |p.playable| && lo < hi
    requires Clamp(b1, lo, hi) == Clamp(b2, lo, hi)
    ensures Clamp(PlainMax(p, depth, i, b1), lo, hi) == Clamp(PlainMax(p, depth, i, b2), lo, hi)
    decreases |p.playable| - i
  {
    if i < |p.playable| {
      var v := PlainChild(p, i, RedPiece, false, depth - 1);
      PlainMaxClamp(p, depth, i + 1, Max(b1, v), Max(b2, v), lo, hi);
    }
  }

  lemma {:induction false} PlainMinClamp(p: Position, depth: nat, i: nat, b1: int, b2: int, lo: int, hi: int)
    requires WellFormed(p) && 0 < depth && i <= |p.playable| && lo < hi
    requires Clamp(b1, lo, hi) == Clamp(b2, lo, hi)
    ensures Clamp(PlainMin(p, depth, i, b1), lo, hi) == Clamp(PlainMin(p, depth, i, b2), lo, hi)
    decreases |p.playable| - i
  {
    if i < |p.playable| {
      var v := PlainChild(p, i, YellowPiece, true, depth - 1);
      PlainMinClamp(p, depth, i + 1, Min(b1, v), Min(b2, v), lo, hi);
    }
  }

  /** Alpha-beta is sound: with alpha < beta, the pruned value and the plain
      minimax value agree once both are cut to [alpha, beta]. So a value at
      or below alpha is reported at or below alpha, one at or above beta at or
      above beta, and one strictly between exactly. */
  lemma {:induction false} AlphaBetaSound(p: Position, isMaximizing: bool, depth: nat, alpha: int, beta: int)
    requires WellFormed(p) && alpha < beta
    ensures Clamp(AlphaBeta(p, isMaximizing, depth, alpha, beta), alpha, beta)
         == Clamp(Minimax(p, isMaximizing, depth), alpha, beta)
    decreases depth, 1, 0
  {
    var x := CheckForWinner(p.board, p.emptySpaces, Mover(isMaximizing));
    if x != Ongoing || depth == 0 {
    } else if isMaximizing {
      MaxLoopSound(p, depth, alpha, beta, 0, LossScore);
    } else {
      MinLoopSound(p, depth, alpha, beta, 0, WinScore);
    }
  }

  /** Soundness for one trial. */
  lemma ChildSound(p: Position, k: nat, piece: int, isMaximizing: bool, depth: nat, alpha: int, beta: int)
    requires WellFormed(p) && k < |p.playable| && alpha < beta
    ensures Clamp(Child(p, k, piece, isMaximizing, depth, alpha, beta), alpha, beta)
         == Clamp(PlainChild(p, k, piece, isMaximizing, depth), alpha, beta)
    decreases depth, 2
  {
    AlphaBetaSound(Play(p, k, piece), isMaximizing, depth, alpha, beta);
  }

  /** A cutoff in the maximising loop: the best value b1 already reached beta,
      and so has every plain value from it on. */
  lemma MaxCut(alpha: int, beta: int, b1: int, plain1: int, plain2: int)
    requires alpha < beta && beta <= Max(alpha, b1)
    requires plain1 >= b1 && Clamp(plain1, alpha, beta) == Clamp(plain2, alpha, beta)
    ensures Clamp(b1, alpha, beta) == Clamp(plain2, alpha, beta)
  {
  }

  /** No cutoff in the maximising loop: the rest, run with the raised alpha',
      agrees with the plain rest on [alpha', beta], hence on [alpha, beta]. */
  lemma MaxGo(alpha: int, beta: int, b1: int, rest: int, plain1: int, plain2: int)
    requires alpha < beta && Max(alpha, b1) < beta
    requires rest >= b1 && plain1 >= b1
    requires Clamp(rest, Max(alpha, b1), beta) == Clamp(plain1, Max(alpha, b1), beta)
    requires Clamp(plain1, alpha, beta) == Clamp(plain2, alpha, beta)
    ensures Clamp(rest, alpha, beta) == Clamp(plain2, alpha, beta)
  {
  }

  /** A cutoff in the minimising loop. */
  lemma MinCut(alpha: int, beta: int, b1: int, plain1: int, plain2: int)
    requires alpha < beta && Min(beta, b1) <= alpha
    requires plain1 <= b1 && Clamp(plain1, alpha, beta) == Clamp(plain2, alpha, beta)
    ensures Clamp(b1, alpha, beta) == Clamp(plain2, alpha, beta)
  {
  }

  /** No cutoff in the minimising loop, with beta lowered to beta'. */
  lemma MinGo(alpha: int, beta: int, b1: int, rest: int, plain1: int, plain2: int)
    requires alpha < beta && alpha < Min(beta, b1)
    requires rest <= b1 && plain1 <= b1
    requires Clamp(rest, alpha, Min(beta, b1)) == Clamp(plain1, alpha, Min(beta, b1))
    requires Clamp(plain1, alpha, beta) == Clamp(plain2, alpha, beta)
    ensures Clamp(rest, alpha, beta) == Clamp(plain2, alpha, beta)
  {
  }

  /** The maximising loop from entry i agrees with the plain one up to
      clamping to [alpha, beta]. */
  lemma {:induction false} MaxLoopSound(p: Position, depth: nat, alpha: int, beta: int, i: nat, best: int)
    requires WellFormed(p) && 0 < depth && i <= |p.playable| && alpha < beta
    ensures Clamp(MaxLoop(p, depth, alpha, beta, i, best), alpha, beta)
         == Clamp(PlainMax(p, depth, i, best), alpha, beta)
    decreases depth, 0, |p.playable| - i
  {
    if i < |p.playable| {
      var pruned := Child(p, i, RedPiece, false, depth - 1, alpha, beta);
      var plain := PlainChild(p, i, RedPiece, false, depth - 1);
      ChildSound(p, i, RedPiece, false, depth - 1, alpha, beta);
      var b1, b2 := Max(best, pruned), Max(best, plain);
      MaxLoopNext(p, depth, alpha, beta, i, best, pruned);
      PlainMaxClamp(p, depth, i + 1, b1, b2, alpha, beta);
      if beta <= Max(alpha, b1) {
        MaxCut(alpha, beta, b1, PlainMax(p, depth, i + 1, b1), PlainMax(p, depth, i + 1, b2));
      } else {
        MaxLoopSound(p, depth, Max(alpha, b1), beta, i + 1, b1);
        MaxGo(alpha, beta, b1, MaxLoop(p, depth, Max(alpha, b1), beta, i + 1, b1),
              PlainMax(p, depth, i + 1, b1), PlainMax(p, depth, i + 1, b2));
      }
    }
  }

  /** The minimising loop from entry i agrees with the plain one up to
      clamping to [alpha, beta]. */
  lemma {:induction false} MinLoopSound(p: Position, depth: nat, alpha: int, beta: int, i: nat, best: int)
    requires WellFormed(p) && 0 < depth && i <= |p.playable| && alpha < beta
    ensures Clamp(MinLoop(p, depth, alpha, beta, i, best), alpha, beta)
         == Clamp(PlainMin(p, depth, i, best), alpha, beta)
    decreases depth, 0, |p.playable| - i
  {
    if i < |p.playable| {
      var pruned := Child(p, i, YellowPiece, true, depth - 1, alpha, beta);
      var plain := PlainChild(p, i, YellowPiece, true, depth - 1);
      ChildSound(p, i, YellowPiece, true, depth - 1, alpha, beta);
      var b1, b2 := Min(best, pruned), Min(best, plain);
      MinLoopNext(p, depth, alpha, beta, i, best, pruned);
      PlainMinClamp(p, depth, i + 1, b1, b2, alpha, beta);
      if Min(beta, b1) <= alpha {
        MinCut(alpha, beta, b1, PlainMin(p, depth, i + 1, b1), PlainMin(p, depth, i + 1, b2));
      } else {
        MinLoopSound(p, depth, alpha, Min(beta, b1), i + 1, b1);
        MinGo(alpha, beta, b1, MinLoop(p, depth, alpha, Min(beta, b1), i + 1, b1),
              PlainMin(p, depth, i + 1, b1), PlainMin(p, depth, i + 1, b2));
      }
    }
  }

  /** When the plain minimax value lies strictly between alpha and beta, the
      pruned search returns exactly that value. */
  lemma AlphaBetaExact(p: Position, isMaximizing: bool, depth: nat, alpha: int, beta: int)
    requires WellFormed(p) && alpha < Minimax(p, isMaximizing, depth) < beta
    ensures AlphaBeta(p, isMaximizing, depth, alpha, beta) == Minimax(p, isMaximizing, depth)
  {
    AlphaBetaSound(p, isMaximizing, depth, alpha, beta);
  }

  /** With the window (-999, 999) that AiFunction passes, pruning never
      changes the value. */
  lemma FullWindowExact(p: Position, isMaximizing: bool, depth: nat)
    requires WellFormed(p)
    ensures AlphaBeta(p, isMaximizing, depth, LossScore, WinScore) == Minimax(p, isMaximizing, depth)
  {
    AlphaBetaSound(p, isMaximizing, depth, LossScore, WinScore);
  }

  /** The values where the search stops: a line of the side to move is worth
      999 for Red and -999 for Yellow, a full board without one 0, and a
      depth-0 node the heuristic score from Red's side. */
  lemma AlphaBetaLeaves(p: Position, isMaximizing: bool, depth: nat, alpha: int, beta: int)
    requires WellFormed(p)
    ensures isMaximizing && HasLine(p.board, RedPiece) ==>
      AlphaBeta(p, isMaximizing, depth, alpha, beta) == WinScore
    ensures !isMaximizing && HasLine(p.board, YellowPiece) ==>
      AlphaBeta(p, isMaximizing, depth, alpha, beta) == LossScore
    ensures !HasLine(p.board, Mover(isMaximizing).Piece()) && p.emptySpaces == 0 ==>
      AlphaBeta(p, isMaximizing, depth, alpha, beta) == 0
    ensures !HasLine(p.board, Mover(isMaximizing).Piece()) && p.emptySpaces != 0 && depth == 0 ==>
      AlphaBeta(p, isMaximizing, depth, alpha, beta) == ScorePosition(p.board, Red)
  {
  }

  /** The button number of a cell: buttons are created row by row, seven to a
      row, so the number of a board cell lies in [0, 42) and gives back its
      row and column. */
  function ButtonIndex(e: Cell): (index: int)
    ensures InBounds(e.0, e.1) ==>
      0 <= index < Rows * Cols && index / Cols == e.0 && index % Cols == e.1
  {
    7 * e.0 + e.1
  }

  /** The values AiFunction obtains, one per playable entry in list order:
      Red plays the entry and Yellow's reply is searched with the window
      (-999, 999). */
  ghost function RootValues(p: Position, depth: nat): (vals: seq<int>)
    requires WellFormed(p)
    ensures |vals| == |p.playable|
    ensures forall k :: 0 <= k < |vals| ==> LossScore <= vals[k] <= WinScore
  {
    seq(|p.playable|, k requires 0 <= k < |p.playable| => Child(p, k, RedPiece, false, depth, LossScore, WinScore))
  }

  /** Pruning does not change a root value: it is the plain minimax value of
      the child position. */
  lemma RootValueMinimax(p: Position, depth: nat, k: int)
    requires WellFormed(p) && 0 <= k < |p.playable|
    ensures RootValues(p, depth)[k] == Minimax(Play(p, k, RedPiece), false, depth)
  {
    FullWindowExact(Play(p, k, RedPiece), false, depth);
  }

  /** The selection of AiFunction after the entries whose values are vals
      (a prefix of the list): the best value and button so far, where a
      later entry replaces them only with a strictly greater value. */
  function Select(vals: seq<int>, entries: seq<Cell>): (best: (int, int))
    requires |vals| <= |entries|
    ensures LossScore <= best.0
    ensures forall j :: 0 <= j < |vals| ==> vals[j] <= best.0
    ensures best.0 == LossScore ==> best.1 == 0
  {
    if vals == [] then (LossScore, 0)
    else
      var k := |vals| - 1;
      assert forall j :: 0 <= j < k ==> vals[j] == vals[..k][j];
      var (bestValue, bestIndex) := Select(vals[..k], entries);
      if vals[k] > bestValue then (vals[k], ButtonIndex(entries[k])) else (bestValue, bestIndex)
  }

  /** Entry k is the first whose value is strictly greater than -999 and than
      every earlier value, and no later value exceeds it. */
  predicate FirstBest(vals: seq<int>, k: int) {
    0 <= k < |vals| && vals[k] > LossScore &&
    (forall j :: 0 <= j < k ==> vals[j] < vals[k]) &&
    (forall j :: k < j < |vals| ==> vals[j] <= vals[k])
  }

  /** What the selection may press: the button of the first best entry, or
      button 0 when no entry is worth more than -999 (also when there is none). */
  predicate Chosen(vals: seq<int>, entries: seq<Cell>, index: int)
    requires |vals| <= |entries|
  {
    (exists k :: 0 <= k < |vals| && FirstBest(vals, k) && index == ButtonIndex(entries[k])) ||
    (index == 0 && forall k :: 0 <= k < |vals| ==> vals[k] <= LossScore)
  }

  /** The selection keeps the maximum of -999 and the values seen, and the
      button of the first entry that reached it. */
  lemma {:induction false} SelectMax(vals: seq<int>, entries: seq<Cell>)
    requires |vals| <= |entries|
    ensures Select(vals, entries).0 > LossScore ==>
      exists k :: 0 <= k < |vals| && FirstBest(vals, k) && vals[k] == Select(vals, entries).0 &&
        Select(vals, entries).1 == ButtonIndex(entries[k])
  {
    if vals != [] {
      var k := |vals| - 1;
      var front := vals[..k];
      SelectMax(front, entries);
      assert forall j :: 0 <= j < k ==> vals[j] == front[j];
      var (bestValue, bestIndex) := Select(front, entries);
      if vals[k] > bestValue {
        assert FirstBest(vals, k);
      } else if bestValue > LossScore {
        var m :| 0 <= m < k && FirstBest(front, m) && front[m] == bestValue && bestIndex == ButtonIndex(entries[m]);
        assert FirstBest(vals, m);
      }
    }
  }

  /** Taking one more value into the selection. */
  lemma SelectNext(vals: seq<int>, entries: seq<Cell>, v: int)
    requires |vals| < |entries|
    ensures Select(vals + [v], entries) ==
      if v > Select(vals, entries).0 then (v, ButtonIndex(entries[|vals|])) else Select(vals, entries)
  {
    assert (vals + [v])[..|vals|] == vals;
  }

  /** Hence the button the selection ends with is a choice Chosen allows. */
  lemma SelectChosen(vals: seq<int>, entries: seq<Cell>)
    requires |vals| <= |entries|
    ensures Chosen(vals, entries, Select(vals, entries).1)
  {
    SelectMax(vals, entries);
  }

  /** At most one entry is first best, and with entries of the board the choice
      is a button of the board. */
  lemma {:induction false} ChosenWellDefined(vals: seq<int>, entries: seq<Cell>, index: int)
    requires |vals| <= |entries| && Chosen(vals, entries, index)
    requires forall e :: e in entries ==> InBounds(e.0, e.1)
    ensures 0 <= index < Rows * Cols
    ensures forall k, k' :: FirstBest(vals, k) && FirstBest(vals, k') ==> k == k'
  {
    if k :| FirstBest(vals, k) && index == ButtonIndex(entries[k]) {
      assert entries[k] in entries;
    }
  }

  /** What AiFunction may press in position p. */
  ghost predicate AiChoice(p: Position, depth: nat, index: int)
    requires WellFormed(p)
  {
    Chosen(RootValues(p, depth), p.playable, index)
  }

  /** AiFunction's selection, run on the root values of p, makes a choice
      AiChoice allows. */
  lemma AiFunctionChoice(p: Position, depth: nat)
    requires WellFormed(p)
    ensures AiChoice(p, depth, Select(RootValues(p, depth), p.playable).1)
  {
    SelectChosen(RootValues(p, depth), p.playable);
  }

  /** seen holds the root values of the first |seen| playable entries. */
  ghost predicate RootPrefix(p: Position, depth: nat, seen: seq<int>)
    requires WellFormed(p)
  {
    |seen| <= |p.playable| && seen == RootValues(p, depth)[..|seen|]
  }

  /** Entry k of the root values is the value of trial k. */
  lemma RootValueAt(p: Position, depth: nat, k: int)
    requires WellFormed(p) && 0 <= k < |p.playable|
    ensures RootValues(p, depth)[k] == Child(p, k, RedPiece, false, depth, LossScore, WinScore)
  {
  }

  /** A trial's value extends the prefix by one. */
  lemma RootPrefixNext(p: Position, depth: nat, seen: seq<int>, v: int)
    requires WellFormed(p) && RootPrefix(p, depth, seen) && |seen| < |p.playable|
    requires v == Child(p, |seen|, RedPiece, false, depth, LossScore, WinScore)
    ensures RootPrefix(p, depth, seen + [v])
  {
    var vals := RootValues(p, depth);
    RootValueAt(p, depth, |seen|);
    assert vals[..|seen| + 1] == vals[..|seen|] + [vals[|seen|]];
  }

  /** A prefix as long as the list is the whole sequence of root values. */
  lemma RootPrefixFull(p: Position, depth: nat, seen: seq<int>)
    requires WellFormed(p) && RootPrefix(p, depth, seen) && |seen| == |p.playable|
    ensures seen == RootValues(p, depth)
  {
    assert RootValues(p, depth)[..|seen|] == RootValues(p, depth);
  }
}
