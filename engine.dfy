/** The game state of Connect4Application and the operations that change it in
    place: updatePlayableButtons, MiniMax and AiFunction. */
module Engine {
  import opened Grid
  import opened Winner
  import opened Evaluator
  import opened Playable
  import opened Search

  class Connect4 {
    /** currentBoard: 6 rows of 7 cells, row 0 at the top. */
    const board: array2<int>
    /** emptySpacesOnBoard. */
    var emptySpaces: int
    /** playableButtons, in list order. */
    var playable: seq<Cell>

    /** The abstract board, kept equal to the array cell by cell. */
    ghost var cells: Board

    /** The fields as a search position. */
    ghost function State(): Position
      reads this
    {
      Position(cells, emptySpaces, playable)
    }

    /** The array holds the abstract board, and the position keeps the
        counter and the list in step with it. */
    ghost predicate Valid()
      reads this, board
    {
      board.Length0 == Rows && board.Length1 == Cols && IsBoard(cells) &&
      (forall i, j {:trigger board[i, j]} :: InBounds(i, j) ==> board[i, j] == cells[i][j]) &&
      Consistent(State())
    }

    /** Reads the board out as a value, for the functions that read
        currentBoard. */
    method Snapshot() returns (g: Board)
      requires Valid()
      ensures g == cells
    {
      g := seq(Rows, i requires 0 <= i < Rows reads board =>
        seq(Cols, j requires 0 <= j < Cols reads board => board[i, j]));
      BoardExt(g, cells);
    }

    /** A new game: the field initialisers and the bottom-row entries that
        initializeButtons adds. */
    constructor ()
      ensures Valid() && fresh(board)
      ensures State() == InitialPosition()
    {
      var g := EmptyBoard();
      var s := InitialPlayable();
      InitialConsistent(g, s);
      board := new int[Rows, Cols]((i, j) => EmptyCell);
      emptySpaces := Rows * Cols;
      playable := s;
      cells := g;
    }

    /** updatePlayableButtons(forward, rowIndex, colIndex, buttonIndex). */
    method UpdatePlayableButtons(forward: bool, r: int, c: int, index: int)
      requires !forward ==> 0 <= index <= |playable|
      modifies this`playable, this`emptySpaces
      ensures forward ==> playable == Advance(old(playable), r, c) && emptySpaces == old(emptySpaces) - 1
      ensures !forward ==> playable == Retract(old(playable), r, c, index) && emptySpaces == old(emptySpaces) + 1
    {
      if forward {
        playable := RemoveFirst(playable, (r, c));
        if r > 0 {
          playable := playable + [(r - 1, c)];
        }
        emptySpaces := emptySpaces - 1;
      } else {
        emptySpaces := emptySpaces + 1;
        playable := InsertAt(playable, index, (r, c));
        if r > 0 {
          playable := RemoveFirst(playable, (r - 1, c));
        }
      }
    }

    /** One trial of the search loops: put piece into playable entry i, search
        the reply, then clear the cell and undo the list edit. */
    method TryEntry(i: int, piece: int, isMaximizing: bool, depth: nat, alpha: int, beta: int)
      returns (value: int)
      requires Valid() && 0 <= i < |playable| && piece != EmptyCell
      modifies board, this`emptySpaces, this`playable, this`cells
      ensures Valid() && State() == old(State())
      ensures value == Child(old(State()), i, piece, isMaximizing, depth, alpha, beta)
      decreases depth, 2
    {
      ghost var p := State();
      var (r, c) := playable[i];
      assert playable[i] in playable;

      board[r, c] := piece;
      cells := Place(cells, r, c, piece);
      UpdatePlayableButtons(true, r, c, 0);
      assert State() == Play(p, i, piece);
      PlayConsistent(p, i, piece);

      value := MiniMax(isMaximizing, depth, alpha, beta);

      UndoPlay(p, i, piece);
      board[r, c] := EmptyCell;
      cells := Place(cells, r, c, EmptyCell);
      UpdatePlayableButtons(false, r, c, i);
    }

    /** MiniMax(isMaximizing, depth, alpha, beta): the pruned search value, with
        the board, the list and the counter as they were on every return. */
    method MiniMax(isMaximizing: bool, depth: nat, alpha: int, beta: int) returns (value: int)
      requires Valid()
      modifies board, this`emptySpaces, this`playable, this`cells
      ensures Valid() && State() == old(State())
      ensures forall i, j :: InBounds(i, j) ==> board[i, j] == old(board[i, j])
      ensures value == AlphaBeta(old(State()), isMaximizing, depth, alpha, beta)
      ensures LossScore <= value <= WinScore
      decreases depth, 1
    {
      ghost var p := State();
      var g := Snapshot();
      var x := CheckForWinner(g, emptySpaces, Mover(isMaximizing));
      if x != Ongoing || depth == 0 {
        if x == Draw {
          return 0;
        } else if x == RedPiece {
          return WinScore;
        } else if x == YellowPiece {
          return LossScore;
        } else {
          return ScorePosition(g, Red);
        }
      }

      assert g == cells;
      if isMaximizing {
        value := MaxSearch(depth, alpha, beta);
      } else {
        value := MinSearch(depth, alpha, beta);
      }
    }

    /** The maximising branch of MiniMax: Red tries each playable entry in
        list order, raising alpha, until beta <= alpha or the list ends. */
    method MaxSearch(depth: nat, alpha: int, beta: int) returns (bestValue: int)
      requires Valid() && 0 < depth && CheckForWinner(cells, emptySpaces, Red) == Ongoing
      modifies board, this`emptySpaces, this`playable, this`cells
      ensures Valid() && State() == old(State())
      ensures bestValue == AlphaBeta(old(State()), true, depth, alpha, beta)
      decreases depth, 0
    {
      ghost var p := State();
      bestValue := LossScore;
      var a := alpha;
      var i := 0;
      while i < |playable|
        invariant Valid() && State() == p
        invariant 0 <= i <= |playable|
        invariant AlphaBeta(p, true, depth, alpha, beta) == MaxLoop(p, depth, a, beta, i, bestValue)
        decreases |playable| - i
      {
        var v := TryEntry(i, RedPiece, false, depth - 1, a, beta);
        MaxLoopNext(p, depth, a, beta, i, bestValue, v);
        bestValue := Max(bestValue, v);
        a := Max(a, bestValue);
        if beta <= a {
          break;
        }
        i := i + 1;
      }
    }

    /** The minimising branch of MiniMax: Yellow tries each playable entry,
        lowering beta, until beta <= alpha or the list ends. */
    method MinSearch(depth: nat, alpha: int, beta: int) returns (bestValue: int)
      requires Valid() && 0 < depth && CheckForWinner(cells, emptySpaces, Yellow) == Ongoing
      modifies board, this`emptySpaces, this`playable, this`cells
      ensures Valid() && State() == old(State())
      ensures bestValue == AlphaBeta(old(State()), false, depth, alpha, beta)
      decreases depth, 0
    {
      ghost var p := State();
      bestValue := WinScore;
      var b := beta;
      var i := 0;
      while i < |playable|
        invariant Valid() && State() == p
        invariant 0 <= i <= |playable|
        invariant AlphaBeta(p, false, depth, alpha, beta) == MinLoop(p, depth, alpha, b, i, bestValue)
        decreases |playable| - i
      {
        var v := TryEntry(i, YellowPiece, true, depth - 1, alpha, b);
        MinLoopNext(p, depth, alpha, b, i, bestValue, v);
        bestValue := Min(bestValue, v);
        b := Min(b, bestValue);
        if b <= alpha {
          break;
        }
        i := i + 1;
      }
    }

    /** AiFunction(searchingDepth): try every playable entry for Red, keep the
        first entry reaching the largest value, and return its button number
        instead of firing the button. */
    method AiFunction(searchingDepth: nat) returns (bestButtonIndex: int)
      requires Valid()
      modifies board, this`emptySpaces, this`playable, this`cells
      ensures Valid() && State() == old(State())
      ensures forall i, j :: InBounds(i, j) ==> board[i, j] == old(board[i, j])
      ensures bestButtonIndex == Select(RootValues(old(State()), searchingDepth), old(playable)).1
    {
      ghost var p := State();
      ghost var seen: seq<int> := [];
      var bestValue := LossScore;
      bestButtonIndex := 0;
      var i := 0;
      while i < |playable|
        invariant Valid() && State() == p
        invariant 0 <= i <= |playable| && |seen| == i
        invariant RootPrefix(p, searchingDepth, seen)
        invariant bestValue == Select(seen, p.playable).0 && bestButtonIndex == Select(seen, p.playable).1
      {
        var (r, c) := playable[i];
        var value := TryEntry(i, RedPiece, false, searchingDepth, LossScore, WinScore);
        assert 7 * r + c == ButtonIndex(p.playable[i]);
        SelectNext(seen, p.playable, value);
        RootPrefixNext(p, searchingDepth, seen, value);
        seen := seen + [value];
        if value > bestValue {
          bestValue := value;
          bestButtonIndex := 7 * r + c;
        }
        i := i + 1;
      }
      RootPrefixFull(p, searchingDepth, seen);
    }
  }
}
