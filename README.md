# Connect-4 engine of Connect4Application, in Dafny

This project models the game engine of `Connect4Application.java`, a Connect-4 game
where a human plays Yellow against an AI that plays Red. The engine state has three parts:

- `currentBoard`: a 6 x 7 matrix. Cell code 1 is Red, -1 is Yellow and 0 is empty. Row 0 is at the top.
- `emptySpacesOnBoard`: a counter of the empty cells.
- `playableButtons`: an ordered list of the cells a piece may go into next.

The engine has these operations on that state:

- `checkForWinner` looks for four in a row of one player.
- `evaluate_window` and `scorePosition` give a heuristic score.
- `updatePlayableButtons` edits the list forwards and backwards.
- `MiniMax` is a depth-bounded alpha-beta search. It places pieces on the shared board and takes them back.
- `AiFunction` is the root driver. It picks the button the AI presses.

The model has six modules:

- `Grid` (grid.dfy) holds the board as a value `seq<seq<int>>`, the cell codes and the colours. It also holds the placement rule of the button handler, `Pressable`, and the count of empty cells.
- `Winner` (winner.dfy) holds `checkForWinner` as a function over the board. The function is proved to answer "this player has a line" exactly when some scanned run of four cells holds the player's code.
- `Evaluator` (evaluator.dfy) holds `evaluate_window` and `scorePosition` as functions. It proves the window scores and the bound on the position score.
- `Playable` (playable.dfy) holds the two list edits of `updatePlayableButtons`, their round trip, and the rule of one entry per column.
- `Search` (search.dfy) holds the value `MiniMax` computes, written as ghost functions over a `Position` value, and plain minimax beside it. On a consistent position the pruned search is the one the source runs, with its `break`s. On a position that breaks the invariant, the source's list edits need not restore the list and the model does not follow them. `Search` proves that pruning is sound. It also holds the invariant of the game state: no piece floats, the counter counts the empty cells, and the list holds exactly the legal moves. A new game satisfies it and every placement into a list entry keeps it. The source can still break it: on the `fire()` path left out below, the AI may press button 0 on an occupied cell. Finally it holds the selection rule of `AiFunction`.
- `Engine` (engine.dfy) holds the class `Connect4`. Its fields are an `array2<int>` board, the counter and the list. Its methods update them in place as the source does, and they are proved against the `Search` functions. The search methods (`TryEntry`, `MiniMax`, `MaxSearch`, `MinSearch` and `AiFunction`) also prove that the board, list and counter are restored on every return path, including after a cutoff.

Some details of the source are kept as they are:

- The two diagonal loops of `scorePosition` rebuild their window inside the loop over its four cells. So each window holds only the last cell, and such a window always scores 0.
- `MiniMax` asks `checkForWinner` only about the side to move.
- `checkForWinner` returns 0 for a draw and 2 for a game that goes on. The header comment at Connect4Application.java:39 calls 2 a draw; the model follows the code.
- `AiFunction` keeps the first entry that reaches the largest value, if that value is above -999; otherwise it keeps button 0.

## Model

| member | source | states |
|---|---|---|
| Grid.Color.Piece | Connect4Application.java:257 | Red's code is 1 and Yellow's -1, and the code is 1 exactly for Red |
| Grid.Color.Opponent | Connect4Application.java:403-410 | the opponent is the other colour and its code is the negation of the player's code |
| Grid.Place | Connect4Application.java:349-354 | writing a code into cell (r, c) changes that cell and no other |
| Grid.PlaceUndo | Connect4Application.java:354 | writing back the value a cell held restores the board exactly |
| Grid.Count | Connect4Application.java:411-412 | the number of cells holding a value is at most the window length, and it is 0 exactly when the value is absent |
| Grid.CountDisjoint | Connect4Application.java:411-418 | own, empty and opponent cells are counted disjointly, so together they count at most the window length |
| Grid.EmptyCount | Connect4Application.java:100 | the number of empty cells is at most 42, and it is 0 exactly when every cell is occupied |
| Grid.PlaceEmptyInRows | Connect4Application.java:226 | putting a piece into an empty cell lowers the number of empty cells by exactly one, as the counter's decrement assumes |
| Grid.EmptyBoardCount | Connect4Application.java:100 | a board of empty cells has 42 empty cells, the counter's starting value |
| Grid.EmptyBoard | Connect4Application.java:98 | the new board has every cell empty |
| Grid.Pressable | Connect4Application.java:170 | on a board where no piece floats, an empty cell passes the placement rule exactly when every cell below it is occupied, so the piece lands on top of its column |
| Winner.LineAt | Connect4Application.java:261-289 | the four cells one scan tests at one loop position hold the player's code exactly when the run of four cells from that position, stepping along the scan's direction, holds it |
| Winner.RunIsLine | Connect4Application.java:261-289 | four cells of the player in a row anywhere on the board, in any of the eight directions, make a line, so the scan bounds miss no run |
| Winner.ScanInner | Connect4Application.java:262-266 | the inner scan loop finds a line exactly when some position from n on holds four cells of the player |
| Winner.ScanOuter | Connect4Application.java:261-267 | the outer scan loop finds a line exactly when some scanned position from o on holds four cells of the player |
| Winner.ScanAll | Connect4Application.java:260-289 | the four scans find a line exactly when the player has a line in some orientation |
| Winner.CheckForWinner | Connect4Application.java:256-290 | the result is the player's code exactly when the player has a line; 0 exactly when there is no line and the counter is 0; 2 exactly when there is no line and the counter is not 0; never the opponent's code |
| Search.DrawMeansFull | Connect4Application.java:290 | with the counter in step with the board, a draw is reported exactly when the board is full and the player has no line |
| Evaluator.EvaluateWindow | Connect4Application.java:397-420 | any window scores between -4 and 5, and a window of at most one cell scores 0; a 4-cell window scores one of -4, 0, 2 or 5: 5 exactly for 3 own pieces and 1 empty cell, 2 exactly for 2 own and 2 empty, and -4 exactly for 3 opponent pieces and 1 empty |
| Evaluator.Column | Connect4Application.java:453 | the column array holds the six cells of column c from top to bottom |
| Evaluator.WindowAt | Connect4Application.java:439-488 | horizontal and vertical windows have four cells, and the diagonal ones have one cell |
| Evaluator.SumInner | Connect4Application.java:444-447 | the inner window loop adds between -4 and 5 per window, and 0 in total on a diagonal |
| Evaluator.SumOuter | Connect4Application.java:439-488 | each window loop adds between -4 and 5 per window, and the diagonal loops add 0 |
| Evaluator.CenterBonus | Connect4Application.java:432-436 | the centre term is even, lies in [0, 12], and is 0 exactly when column 3 holds no piece of the player |
| Evaluator.ScorePosition | Connect4Application.java:426-492 | the score is the centre term plus the horizontal and vertical windows only, because the diagonal windows add nothing; the score is in [-180, 237], inside (-999, 999) |
| Playable.RemoveFirst | Connect4Application.java:224 | removing a cell shortens the list by one exactly when the cell is in it, adds no entry, keeps every other entry, and leaves the list alone when the cell is absent |
| Playable.RemoveFirstAt | Connect4Application.java:224 | when index i holds the first occurrence, removal cuts out exactly index i |
| Playable.InsertAt | Connect4Application.java:231 | inserting at index i puts the cell at i and shifts the rest up by one |
| Playable.Advance | Connect4Application.java:222-226 | after the forward edit every entry was already in the list or is the cell above the pressed one; every other entry stays, and the cell above, if any, is the last entry, which decides its place in the search order |
| Playable.Retract | Connect4Application.java:230-232 | the backward edit puts the cell back, adds nothing else, keeps every other entry except the cell above, and grows the list by one unless the cell above was in it |
| Playable.AdvanceRetract | Connect4Application.java:220-234 | the backward edit at the entry's own index undoes the forward edit exactly, when no other entry shares the column |
| Playable.DropDistinct | Connect4Application.java:224 | dropping an entry keeps one entry per column, and what remains avoids the dropped entry's column |
| Playable.AdvanceDistinct | Connect4Application.java:224-225 | the forward edit keeps one entry per column, and the only entry in the pressed column is the cell above it |
| Playable.InitialPlayable | Connect4Application.java:140-152 | the first list is row 5, columns 0 to 6, in order |
| Search.InitialPosition | Connect4Application.java:96-100 | a new game has an empty board, a counter of 42 and the bottom row playable, and this state satisfies the invariant |
| Search.InitialConsistent | Connect4Application.java:140-152 | an empty board with the bottom row playable satisfies the invariant: no piece floats, the counter counts the empty cells, and each column has exactly one entry, its bottom cell |
| Search.Play | Connect4Application.java:305-306 | placing a piece into a playable entry gives a well-formed position |
| Search.PlayConsistent | Connect4Application.java:349-350 | a placement keeps the invariant: no piece floats, the counter equals the number of empty cells, each entry is the lowest empty cell of its column, one per column, and every column with an empty top cell has its entry |
| Search.UndoPlay | Connect4Application.java:354-355 | clearing the cell, incrementing the counter and the backward edit at index i give back the position exactly |
| Search.PlayablePressable | Connect4Application.java:170 | a cell is in the list exactly when it is empty and passes the placement rule, so the AI tries every legal move and only those; the list has at most 7 entries |
| Search.Mover | Connect4Application.java:329-330 | a maximising step checks Red's code and a minimising step checks Yellow's |
| Search.Leaf | Connect4Application.java:332-338 | the value where the search stops lies in [-999, 999] |
| Search.AlphaBetaLeaves | Connect4Application.java:332-338 | a Red line of the side to move is worth 999, a Yellow line -999, a full board without a line 0, and a depth-0 node scores from Red's side |
| Search.AlphaBeta | Connect4Application.java:325-388 | the pruned search value lies in [-999, 999] |
| Search.Child | Connect4Application.java:349-355 | the value of one trial lies in [-999, 999] |
| Search.MaxLoop | Connect4Application.java:343-362 | the maximising loop never ends below its running best, and it stays in [-999, 999] |
| Search.MinLoop | Connect4Application.java:366-386 | the minimising loop never ends above its running best, and it stays in [-999, 999] |
| Search.Max | Connect4Application.java:357-358 | Math.max: the result is one of the two arguments and at least both |
| Search.Min | Connect4Application.java:381-382 | Math.min: the result is one of the two arguments and at most both |
| Search.MaxLoopNext | Connect4Application.java:357-359 | one step of the maximising loop raises best and alpha and stops once beta <= alpha |
| Search.MinLoopNext | Connect4Application.java:381-383 | one step of the minimising loop lowers best and beta and stops once beta <= alpha |
| Search.Minimax | Connect4Application.java:325-388 | the plain minimax value, with no pruning, lies in [-999, 999] |
| Search.PlainChild | Connect4Application.java:349-355 | the plain value of one trial lies in [-999, 999] |
| Search.PlainMax | Connect4Application.java:343-362 | the plain maximising loop never ends below its running best |
| Search.PlainMin | Connect4Application.java:366-386 | the plain minimising loop never ends above its running best |
| Search.PlainMaxClamp | Connect4Application.java:357 | plain maximising loops started from values equal up to clamping end equal up to clamping |
| Search.PlainMinClamp | Connect4Application.java:381 | plain minimising loops started from values equal up to clamping end equal up to clamping |
| Search.AlphaBetaSound | Connect4Application.java:341-387 | for alpha < beta, the pruned value and the plain minimax value agree once both are clamped to [alpha, beta] |
| Search.ChildSound | Connect4Application.java:352 | the same for one trial |
| Search.MaxCut | Connect4Application.java:359 | a cutoff in the maximising loop gives the clamped plain value |
| Search.MaxGo | Connect4Application.java:358 | continuing with the raised alpha gives the clamped plain value |
| Search.MinCut | Connect4Application.java:383 | a cutoff in the minimising loop gives the clamped plain value |
| Search.MinGo | Connect4Application.java:382 | continuing with the lowered beta gives the clamped plain value |
| Search.MaxLoopSound | Connect4Application.java:343-362 | the maximising loop with its breaks agrees with the plain one up to clamping |
| Search.MinLoopSound | Connect4Application.java:366-386 | the minimising loop with its breaks agrees with the plain one up to clamping |
| Search.AlphaBetaExact | Connect4Application.java:357-383 | when the plain value lies strictly between alpha and beta, the pruned search returns exactly that value |
| Search.FullWindowExact | Connect4Application.java:308 | with the window (-999, 999) that AiFunction passes, pruning never changes the value |
| Search.RootValues | Connect4Application.java:300-312 | AiFunction gets one value per playable entry, each in [-999, 999] |
| Search.RootValueMinimax | Connect4Application.java:308 | each root value is the plain minimax value of Yellow's reply to Red's move |
| Search.ButtonIndex | Connect4Application.java:315 | the button number of a board cell lies in [0, 42) and gives back its row and column, matching the row-by-row creation of the buttons |
| Search.Select | Connect4Application.java:313-316 | the kept value is at least -999 and at least every value seen; while it is -999 the button is 0 |
| Search.SelectMax | Connect4Application.java:313-316 | when the kept value is above -999, it and its button belong to the first entry reaching the maximum |
| Search.SelectNext | Connect4Application.java:313-316 | one more value replaces the kept pair exactly when it is strictly greater |
| Search.SelectChosen | Connect4Application.java:297-318 | the selection ends with the button of the first entry that reaches the largest value, or 0 when no value beats -999 |
| Search.ChosenWellDefined | Connect4Application.java:315 | there is at most one first best entry, and the chosen button is in [0, 42) |
| Search.AiFunctionChoice | Connect4Application.java:295-321 | the button AiFunction computes is the one the selection rule allows for the root values |
| Engine.Connect4.constructor | Connect4Application.java:96-100 | a new game has the initial position and the class invariant |
| Engine.Connect4.Snapshot | Connect4Application.java:329-330 | reading the array out gives exactly the abstract board |
| Engine.Connect4.UpdatePlayableButtons | Connect4Application.java:220-234 | forward: the pressed cell leaves the list, the cell above joins at the end, and the counter drops by one; backward: the cell returns at the given index, the cell above leaves, and the counter rises by one |
| Engine.Connect4.TryEntry | Connect4Application.java:346-355 | one trial returns the search value of the child position and leaves board, list and counter as they were |
| Engine.Connect4.MiniMax | Connect4Application.java:325-388 | the result is the pruned search value, in [-999, 999]; board, list and counter are as they were on every return path |
| Engine.Connect4.MaxSearch | Connect4Application.java:341-364 | the maximising branch returns the pruned value and restores the state, also after a break |
| Engine.Connect4.MinSearch | Connect4Application.java:365-387 | the minimising branch returns the pruned value and restores the state, also after a break |
| Engine.Connect4.AiFunction | Connect4Application.java:295-321 | the button is the selection over the root values in list order, and the board, list and counter are restored |

## Left out

- The JavaFX interface is not modelled: `start`, the creation and layout of the buttons in `initializeButtons`, colours, labels, and enabling or disabling buttons. It is presentation only.
- The debug printing in `updatePlayableButtons` and `main` are left out, because they are console output and application start-up.
- The human button handler is modelled only through its placement rule, `Grid.Pressable`, and `Search.PlayablePressable`. The colouring, the turn switch and the call to `AiFunction` are not modelled. The handler calls `checkForWinner` before `updatePlayableButtons` lowers the counter, so its draw test sees a count one too high. The model does not reproduce this.
- Engine.Connect4.AiFunction: the model returns the button number. It does not call `fire()` on that button, which would run the button handler. When every root value is -999 the button is 0 even if cell (0, 0) is occupied. The handler then passes the placement rule and overwrites the cell. Its forward list edit removes nothing, but it still lowers the counter, so the counter drops one below the number of empty cells and the game state is no longer consistent. The model does not follow the game past that point.
- The strings of the source are replaced by values. Turns become `Color`, and the `"r c"` list entries become pairs `(r, c)`. The reference comparison `turn == "Red"` in the handler is not modelled.
- Java's `short` and `int` are modelled as unbounded integers. Every value involved stays small: scores are in [-180, 237] or ±999, the counter is in [0, 42] and a button number is below 42.
- Engine.Connect4.MiniMax: `depth` is a natural number. The source never passes a negative depth, because the search stops at 0.
- Engine.Connect4.UpdatePlayableButtons: for the backward edit the index must lie within the list. Java's `ArrayList.add(index, e)` throws an exception outside that range, and the model does not represent the exception.
- Engine.Connect4.TryEntry, Engine.Connect4.MaxSearch, Engine.Connect4.MinSearch and Engine.Connect4.Snapshot are not separate methods in the source. TryEntry is one trial of a search loop. MaxSearch and MinSearch are the two branches of `MiniMax`. Snapshot is the reading of `currentBoard` that `checkForWinner` and `scorePosition` do.
- Search.AlphaBeta: the function is defined on every well-formed position, but it matches the source only on consistent positions, where the backward list edit restores the list exactly (`Search.UndoPlay`). All search methods of the engine require the class invariant, which includes consistency.
