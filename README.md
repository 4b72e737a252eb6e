# Tic-tac-toe board, game and alpha-beta engine

A Dafny model of the logic of an Android tic-tac-toe app.
- **Board**: nine `Player` cells in an array, addressed by `x * 3 + y`, plus a move counter.
- **Game**: the state machine of one game: whose turn it is, whether the game is over, and who won.
- **Computer player**: a recursive minimax with alpha-beta pruning. It runs on copies of the board. X is always the minimiser and O the maximiser. A move that wins, or that fills the board, is returned at once. At a cut-off the candidate is returned with the window bound as its score. Otherwise the first candidate with the best score is kept.

Modules, one file each:

- `Players` (players.dfy): the three-valued player enum, with its turn rule, ids and glyphs.
- `Moves` (moves.dfy): a cell coordinate `Move(x, y)` and the scored `AIMove(x, y, score)`. The record is rebound where the Java code reassigns `score`.
- `Grids` (grid.dfy): the nine cells as a value, with counting, placing, the row-major list of empty cells, and the four lines a move can complete. These functions specify the board.
- `Boards` (board.dfy): `class Board`, with an `array<Player>` and a `numMoves` field. Every method is proved against the `Grids` functions. `Consistent()` is the invariant that the counter equals the number of filled cells.
- `Games` (game.dfy): `class Game`, with its `board`, `currentPlayer`, `gameOver` and `winner` fields.
- `SearchSpec` (search_spec.dfy): the search as pure functions.
  - `Search`, `SearchLoop`, `CandidateStep` and `TryMove` follow the engine's loop step by step.
  - `Minimax` is the plain game value under the same terminal scores.
- `AI` (ai_player.dfy): `class AIPlayer`. Its methods work on `Board` objects and are proved equal to the `SearchSpec` functions.

The main results:
- **`SearchSpec.SearchWindow`**: for any window `MinValue <= alpha < beta <= MaxValue`, the engine's score is a fail-hard alpha-beta answer for the position's minimax value. It equals the value inside the window, and lies on the correct side of the window outside it.
- **`SearchSpec.SearchIsMinimax`**: with the full window, the score is exactly the minimax value.
- **`AI.AIPlayer.GetNextMove`** (through `SearchSpec.SearchMoveOptimal`): the engine returns an optimal move. It is an empty cell of the board it was given, its minimax value is the position's, and no empty cell is better for the player. The method has no `modifies` clause, so the board object is left untouched.

Three behaviours of the code that are easy to miss, all kept in the model:
- `isWinningMove` always looks at both diagonals, whichever cell was played. It is not limited to the lines through the played cell (`IsWin`).
- `Game.setMove` validates nothing. The model allows any on-board coordinate, in a finished game too, and states the consequences.
- The first immediately winning candidate is not always the one returned. `ForcedWinEndsLoop` proves that, for any window, a searched candidate whose value is already the mover's win ends the loop with a cut-off and is the move returned, so the candidates after it are never tried, even one that would win at once. `ForcedWinCutsOff` adds that under the full window it is returned with exactly the win score. The model states the local short-circuit of an immediate win (`WinningCandidate`), not a global "first win" property.

## Model

| member | source | states |
|---|---|---|
| Players.Player.Next | app/src/main/java/com/tictactoe/models/Player.java:14-16 | the successor is never None, and it is X exactly when the player is not X |
| Players.Player.Id | app/src/main/java/com/tictactoe/models/Player.java:18-20 | the id is 0 for None, 1 for X, and otherwise 2, within 0..2 |
| Players.Player.ToString | app/src/main/java/com/tictactoe/models/Player.java:23-32 | the glyph is "X" exactly for X, "O" exactly for O, and empty exactly for None |
| Players.NextAlternates | app/src/main/java/com/tictactoe/models/Player.java:14-16 | X is followed by O, O by X, and None by X |
| Players.NextInvolution | app/src/main/java/com/tictactoe/models/Player.java:14-16 | on the two movers, `next` changes the player and applying it twice gives the player back |
| Players.IdInjective | app/src/main/java/com/tictactoe/models/Player.java:7-12 | distinct players have distinct ids and distinct glyphs |
| Moves.Index | app/src/main/java/com/tictactoe/models/Board.java:120-122 | the array position of an on-board cell lies in 0..8, and dividing it by 3 gives back the row and the column |
| Moves.MoveAt | app/src/main/java/com/tictactoe/models/Board.java:96-98 | position k is the on-board cell whose index is k |
| Moves.MoveAtIndex | app/src/main/java/com/tictactoe/models/Board.java:120-122 | converting a cell to its position and back gives the cell again |
| Moves.IndexInjective | app/src/main/java/com/tictactoe/models/Board.java:130-133 | distinct cells have distinct positions, so placing on one cell never touches another |
| Moves.AIMove.ToMove | app/src/main/java/com/tictactoe/AI/AIMove.java:9 | a scored move used as a Move carries exactly its x and y |
| Moves.NewAIMove | app/src/main/java/com/tictactoe/AI/AIMove.java:12-15 | the scored move has the coordinates of the given Move and the given score |
| Moves.RescoreKeepsMove | app/src/main/java/com/tictactoe/AI/AIMove.java:10 | reassigning the score changes only the score, and the coordinates stay fixed |
| Grids.EmptyGrid | app/src/main/java/com/tictactoe/models/Board.java:33-38 | nine cells, all None |
| Grids.CountFilled | app/src/main/java/com/tictactoe/models/Board.java:15 | the number of filled cells is at most the number of cells |
| Grids.CountFilledExtremes | app/src/main/java/com/tictactoe/models/Board.java:44-46 | the count is 0 exactly when every cell is None, and equals the length exactly when no cell is None |
| Grids.CountFilledUpdate | app/src/main/java/com/tictactoe/models/Board.java:140-143 | overwriting one cell changes the count by the filled status lost and gained in that cell |
| Grids.PlaceCounts | app/src/main/java/com/tictactoe/models/Board.java:130-143 | placing a mover on an empty cell fills exactly one more cell |
| Grids.ClearCounts | app/src/main/java/com/tictactoe/models/Board.java:149-152 | clearing a filled cell leaves exactly one fewer filled cell |
| Grids.PlaceThenClear | app/src/main/java/com/tictactoe/models/Board.java:149-152 | undoing a placement on an empty cell gives back the exact previous grid |
| Grids.AvailUpToSpec | app/src/main/java/com/tictactoe/models/Board.java:96-102 | the list for the first n positions holds exactly their empty cells, each on the board, in increasing position, and its length is n minus the filled count |
| Grids.AvailUpToStep | app/src/main/java/com/tictactoe/models/Board.java:98-101 | visiting cell (x, y) appends it exactly when it is empty |
| Grids.AvailSpec | app/src/main/java/com/tictactoe/models/Board.java:94-105 | the available list holds exactly the empty on-board cells, in strictly increasing row-major position (so each appears once), and there are 9 minus the filled count of them |
| Grids.LineCountNext | app/src/main/java/com/tictactoe/models/Board.java:70-83 | counting one more cell of a line adds one exactly when that cell holds the player |
| Grids.LineCountOwned | app/src/main/java/com/tictactoe/models/Board.java:85-86 | a count of three along a line means the player owns all three of its cells, and conversely |
| Grids.CountsDecideWin | app/src/main/java/com/tictactoe/models/Board.java:67-87 | a win (row of m, column of m, main or anti-diagonal) is exactly a full count on one of the four lines |
| Boards.Board.constructor | app/src/main/java/com/tictactoe/models/Board.java:17-19 | a fresh 9-cell array and a zero counter |
| Boards.Board.Copy | app/src/main/java/com/tictactoe/models/Board.java:25-28 | the copy has its own fresh array with equal cells and an equal counter, so later changes to the copy cannot reach the original |
| Boards.Board.InitializeNewBoard | app/src/main/java/com/tictactoe/models/Board.java:33-38 | all nine cells become None and the counter 0, which establishes the counter invariant |
| Boards.Board.IsFull | app/src/main/java/com/tictactoe/models/Board.java:44-46 | the counter test `numMoves == 9`. On a consistent board, FullIffNoEmptyCell proves it holds exactly when the available list (AvailSpec: the empty cells) is empty |
| Boards.Board.IsValidMove | app/src/main/java/com/tictactoe/models/Board.java:53-55 | the cell of m is None. FullIffNoEmptyCell proves that on a consistent board some move is valid exactly when the board is not full, and AvailSpec that the valid moves are exactly the available list |
| Boards.Board.GetPlayerAt | app/src/main/java/com/tictactoe/models/Board.java:120-122 | reads the array cell at x * 3 + y. What it means is stated through GetPlayerFromBoard (the cell of the abstract grid) and IsWinningMove (the lines it reads) |
| Boards.Board.GetPlayerFromBoard | app/src/main/java/com/tictactoe/models/Board.java:113-122 | the result is the cell at position x * 3 + y |
| Boards.Board.IsWinningMove | app/src/main/java/com/tictactoe/models/Board.java:67-87 | the four counting loop returns true exactly when the player owns the row of m, the column of m, the main diagonal or the anti-diagonal |
| Boards.Board.GetAvailableSpaces | app/src/main/java/com/tictactoe/models/Board.java:94-105 | the nested loop returns exactly the available list of the current cells (see Grids.AvailSpec) |
| Boards.Board.SetMoveAt | app/src/main/java/com/tictactoe/models/Board.java:140-143 | the cell at the position takes the player, every other cell is unchanged, the counter goes up by one, and the invariant is kept when a mover fills an empty cell |
| Boards.Board.SetMove | app/src/main/java/com/tictactoe/models/Board.java:130-133 | the same as SetMoveAt, at position x * 3 + y of the move, with no occupancy check |
| Boards.Board.ResetMove | app/src/main/java/com/tictactoe/models/Board.java:149-152 | the cell of m becomes None, the counter goes down by one, and the invariant is kept when the cell was filled |
| Boards.Board.FullIffNoEmptyCell | app/src/main/java/com/tictactoe/models/Board.java:44-55 | on a consistent board, `isFull` holds exactly when there is no available cell, and exactly when no on-board move is valid |
| Games.Game.constructor | app/src/main/java/com/tictactoe/models/Game.java:7-20 | an empty consistent board, the given player to move, the game running and no winner |
| Games.Game.SetMove | app/src/main/java/com/tictactoe/models/Game.java:31-42 | the move is placed and counted. A completed line ends the game with the mover as winner and the turn kept. Otherwise a full board ends the game with the winner unchanged. Otherwise the turn passes via `next`. The counter invariant is kept when a mover fills an empty cell |
| Games.Game.IsGameOver | app/src/main/java/com/tictactoe/models/Game.java:54-56 | returns the `gameOver` field. The constructor, SetMove and Reset state that field's value after each of them, and Valid says a running game has no winner |
| Games.Game.Reset | app/src/main/java/com/tictactoe/models/Game.java:47-52 | the same board object is emptied with counter 0, the game runs again with no winner, and X is to move, whatever the first player was |
| SearchSpec.Search | app/src/main/java/com/tictactoe/AI/AIPlayer.java:47-99 | the step-by-step search: the candidate loop over `Avail` of the board, starting with no kept candidates. It terminates because every recursive call is on a board with one more filled cell. Its meaning is proved by SearchWindow, SearchIsMinimax, SearchPicksEmptyCell and SearchMoveOptimal |
| SearchSpec.SearchLoop | app/src/main/java/com/tictactoe/AI/AIPlayer.java:53-98 | the loop from candidate i on. At the end it returns the first best kept candidate (LoopEnd), and otherwise it tries candidate i. LoopWindow, LoopPicksCandidate and LoopScoreIsValue state its results |
| SearchSpec.TryMove | app/src/main/java/com/tictactoe/AI/AIPlayer.java:56-67 | places the candidate and reports a win, a full board, or the opponent's searched answer on the placed board. TryMoveValue relates each outcome to the candidate's minimax value |
| SearchSpec.CandidateStep | app/src/main/java/com/tictactoe/AI/AIPlayer.java:54-90 | one candidate of the loop: the immediate-win and full-board returns, the alpha/beta update, the cut-off return, or keeping the candidate. WinningCandidate, FillingCandidate and SearchedCandidate state each branch |
| SearchSpec.BestIndex | app/src/main/java/com/tictactoe/AI/AIPlayer.java:108-120 | the kept element's score is at least every score (max) or at most every score (min), and every earlier element is strictly worse, so ties go to the first |
| SearchSpec.BestIndexPrefix | app/src/main/java/com/tictactoe/AI/AIPlayer.java:111-117 | one more element replaces the kept one only when it is strictly better |
| SearchSpec.SelectedScoreAppend | app/src/main/java/com/tictactoe/AI/AIPlayer.java:93-98 | appending a candidate folds its score into the kept score with the mover's min or max |
| SearchSpec.Minimax | app/src/main/java/com/tictactoe/AI/AIPlayer.java:34-45 | the plain game value lies between the two sentinels |
| SearchSpec.ValueFrom | app/src/main/java/com/tictactoe/AI/AIPlayer.java:53-91 | the mover's best value over the remaining candidates lies between the sentinels |
| SearchSpec.ChildValue | app/src/main/java/com/tictactoe/AI/AIPlayer.java:56-67 | a candidate's value (win score, 0 for a full board, or the opponent's minimax value) lies between the sentinels |
| SearchSpec.SearchWindow | app/src/main/java/com/tictactoe/AI/AIPlayer.java:47-99 | for every window between the sentinels, the engine's score is the minimax value when that value is inside the window, at most alpha when the value is at most alpha, and at least beta when it is at least beta |
| SearchSpec.LoopWindow | app/src/main/java/com/tictactoe/AI/AIPlayer.java:53-98 | the loop from candidate i on answers, fail-hard within the original window, the combination of the kept candidates' value and the remaining candidates' minimax values |
| SearchSpec.LoopWindowStep | app/src/main/java/com/tictactoe/AI/AIPlayer.java:67-90 | the same for a candidate whose subtree is searched, whether it ends with a cut-off or is kept |
| SearchSpec.LoopWindowKeep | app/src/main/java/com/tictactoe/AI/AIPlayer.java:89-90 | the same when the searched candidate is kept and the loop goes on with the tightened window |
| SearchSpec.CandidateIsEmpty | app/src/main/java/com/tictactoe/AI/AIPlayer.java:53 | every candidate the loop visits is an empty on-board cell |
| SearchSpec.WinningCandidate | app/src/main/java/com/tictactoe/AI/AIPlayer.java:58-60 | a candidate that wins for the mover is returned at once, with MinValue for X and MaxValue for O, and later candidates play no part |
| SearchSpec.FillingCandidate | app/src/main/java/com/tictactoe/AI/AIPlayer.java:61-63 | a candidate that fills the board without winning is returned with score 0, and it is the only candidate |
| SearchSpec.LoopEnd | app/src/main/java/com/tictactoe/AI/AIPlayer.java:93-98 | after every candidate was kept, the list is non-empty and the first best-scored one is returned |
| SearchSpec.SearchedValue | app/src/main/java/com/tictactoe/AI/AIPlayer.java:67 | a candidate that neither wins nor fills recurses on a board with one more filled cell, and its value is the opponent's minimax value |
| SearchSpec.SearchedCandidate | app/src/main/java/com/tictactoe/AI/AIPlayer.java:74-90 | X lowers beta and O raises alpha to the subtree's score. Once alpha >= beta the candidate is returned with beta (X) or alpha (O) as its score. Otherwise it is kept with the subtree score and the loop continues in the new window |
| SearchSpec.EndStep | app/src/main/java/com/tictactoe/AI/AIPlayer.java:93-98 | at the loop's end, the kept score is a fail-hard answer for the candidates' value |
| SearchSpec.WinStep | app/src/main/java/com/tictactoe/AI/AIPlayer.java:58-60 | the win sentinel is a fail-hard answer for any value that includes that win |
| SearchSpec.WindowStep | app/src/main/java/com/tictactoe/AI/AIPlayer.java:74-87 | after one searched candidate, a cut-off score answers fail-hard, and a tightened bound combines the window with the candidate's true value |
| SearchSpec.TryMoveValue | app/src/main/java/com/tictactoe/AI/AIPlayer.java:56-67 | a win outcome means the candidate's value is the win score, and a full board means 0. Otherwise the recursion is on a non-full board with one more filled cell, and the candidate's value is the opponent's minimax value there |
| SearchSpec.ForcedWinEndsLoop | app/src/main/java/com/tictactoe/AI/AIPlayer.java:74-87 | for any window between the sentinels, a searched candidate whose value is already the mover's win causes a cut-off and is the move the loop returns, so no later candidate is tried |
| SearchSpec.ForcedWinCutsOff | app/src/main/java/com/tictactoe/AI/AIPlayer.java:74-87 | while the opponent's bound is still at the mover's win score (alpha == MinValue for X, beta == MaxValue for O), as it stays throughout the top-level loop under the full window, a searched candidate whose value is already the mover's win is returned at once with the win score |
| SearchSpec.CutOffIsForcedWin | app/src/main/java/com/tictactoe/AI/AIPlayer.java:84-87 | while the opponent's bound is still at the mover's win score (alpha == MinValue for X, beta == MaxValue for O), a cut-off happens only for a candidate whose value is the mover's win |
| SearchSpec.KeptBestIsExact | app/src/main/java/com/tictactoe/AI/AIPlayer.java:93-98 | when every kept candidate is exact or no better than an earlier one, the first best one holds its true minimax value |
| SearchSpec.KeptExactAppend | app/src/main/java/com/tictactoe/AI/AIPlayer.java:89-90 | keeping a candidate that is exact, or no better than the best kept so far, preserves that property of the list |
| SearchSpec.SearchedKeptExact | app/src/main/java/com/tictactoe/AI/AIPlayer.java:67-90 | under the full window, a kept searched candidate's score is its true value, unless it is no better than the best kept so far |
| SearchSpec.LoopScoreIsValue | app/src/main/java/com/tictactoe/AI/AIPlayer.java:53-98 | under the full window, the loop returns an empty cell whose score is its true minimax value |
| SearchSpec.SearchedScoreIsValue | app/src/main/java/com/tictactoe/AI/AIPlayer.java:67-90 | the same for a searched candidate, whether it cuts off or is kept |
| SearchSpec.KeptScoreIsValue | app/src/main/java/com/tictactoe/AI/AIPlayer.java:89-90 | the same when the searched candidate is kept and the loop goes on |
| SearchSpec.ValueFromIsBest | app/src/main/java/com/tictactoe/AI/AIPlayer.java:53-91 | no remaining candidate is better for the mover than the best value over them |
| SearchSpec.MinimaxIsBest | app/src/main/java/com/tictactoe/AI/AIPlayer.java:34-45 | no empty cell is better for the mover than the position's minimax value |
| SearchSpec.SearchMoveOptimal | app/src/main/java/com/tictactoe/AI/AIPlayer.java:38-45 | with the full window, the returned move is an empty cell whose minimax value equals the position's, and no empty cell is better for the mover |
| SearchSpec.SearchIsMinimax | app/src/main/java/com/tictactoe/AI/AIPlayer.java:29-31 | with the full window (MIN_VALUE, MAX_VALUE), the top-level score equals the minimax value |
| SearchSpec.LoopPicksCandidate | app/src/main/java/com/tictactoe/AI/AIPlayer.java:53-98 | whichever way the loop returns, the move it returns is one of its candidates |
| SearchSpec.SearchPicksEmptyCell | app/src/main/java/com/tictactoe/AI/AIPlayer.java:47-99 | for any window, the returned coordinate is an empty on-board cell of the searched board |
| AI.AIPlayer.constructor | app/src/main/java/com/tictactoe/AI/AIPlayer.java:20-23 | the player keeps the given board and mover |
| AI.AIPlayer.GetNextMove | app/src/main/java/com/tictactoe/AI/AIPlayer.java:29-31 | the move is the full-window search's answer. It is an empty cell of the player's board, its minimax value is the position's, and no empty cell is better for the player |
| AI.AIPlayer.GetOptimalMove | app/src/main/java/com/tictactoe/AI/AIPlayer.java:47-99 | the copy-set-recurse-reset loop returns exactly `Search` of the given board, and it may modify nothing that existed before the call, so the caller's board is untouched |
| AI.AIPlayer.TryCandidate | app/src/main/java/com/tictactoe/AI/AIPlayer.java:56-70 | placing a candidate on the working board gives the `TryMove` outcome, and after a searched candidate the working board's cells and counter are back as they were |
| AI.AIPlayer.GetMinOrMaxMove | app/src/main/java/com/tictactoe/AI/AIPlayer.java:108-120 | the loop returns a member of the list whose score is extremal, the first such member (`BestIndex`) |

## Left out

- `TicTacToeGame.java` (the Android activity: buttons, dialogs, colours, the mapping from button tags to coordinates) is not part of this model. It asks the computer player for moves, and it removes the click listener from a cell once it is played, so an occupied cell cannot be submitted again; it validates nothing else.
- `Move.java` is not part of this model. A move is the pair `(x, y)`, and `OnBoard` says both coordinates lie in 0..2.
- Java `int`: the sentinels are the exact 32-bit extremes, but scores and counters are unbounded integers. The engine only compares scores and takes their minimum or maximum, never adds them, and the counter stays between 0 and 9 on a consistent board.
- Boards.Board.constructor: `new Board()` in Java fills the array with `null`. The model leaves the fresh array's contents unspecified until `InitializeNewBoard`, and every board the game or the engine uses is initialised first.
- AI.AIPlayer.GetOptimalMove: it requires a consistent board (counter equal to the filled cells), a board that is not full, and a real mover. Consistency is the invariant every board in the program keeps. The board is not full whenever the engine is called: the activity asks for a move only while the game is not over (TicTacToeGame.java:120-131), and `Game.setMove` ends the game as soon as the board is full. On a full board the Java code asks for element 0 of an empty list and throws. A `None` mover is never passed.
- AI.AIPlayer.GetNextMove: the same requirements as GetOptimalMove, on the player's own board.
- AI.AIPlayer.TryCandidate is not a Java method. It holds the body of the candidate loop (place, test for a win, test for a full board, recurse, undo), split out of GetOptimalMove to keep each proof small. When it reports a win or a full board, the working copy keeps the placed mark, as in Java, where the method returns at that point.
- Whole-game claims, such as engine-against-engine play from the empty board always ending in a draw, are not modelled. No code promises them, and they would need the whole game tree evaluated.
