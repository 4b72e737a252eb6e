/**
 * The computer player: alpha-beta minimax run on copies of a board.  Each
 * method is proved equal to its specification function in SearchSpec.
 */
module AI {
  import opened Players
  import opened Moves
  import opened Grids
  import opened Boards
  import opened SearchSpec

  class AIPlayer {
    var board: Board
    var player: Player

    constructor (board: Board, player: Player)
      ensures this.board == board && this.player == player
    {
      this.board := board;
      this.player := player;
    }

    /**
     * The move the computer makes: the search over the whole window
     * (MinValue, MaxValue).  It is an empty cell of optimal value for the
     * player: its minimax value is the position's, and no empty cell is
     * better.  The board it was given is left as it was.
     */
    method GetNextMove() returns (move: Move)
      requires board.Valid() && board.Consistent() && !board.IsFull() && player != None
      ensures move == Search(board.Cells(), MinValue, MaxValue, player).ToMove()
      ensures OnBoard(move) && board.cells[Index(move)] == None
      ensures ChildValue(board.Cells(), move, player) == Minimax(board.Cells(), player)
      ensures forall n :: OnBoard(n) && board.cells[Index(n)] == None ==>
        Better(player, ChildValue(board.Cells(), n, player), ChildValue(board.Cells(), move, player))
          == ChildValue(board.Cells(), move, player)
    {
      var best := GetOptimalMove(board, MinValue, MaxValue, player);
      move := best.ToMove();
      SearchMoveOptimal(board.Cells(), player);
    }

    /**
     * Tries every empty cell of a copy of `board` for p, in row-major order,
     * and returns the scored move that Search describes: an immediate win or
     * the move that fills the board at once, a candidate at a cut-off, or the
     * first best-scored candidate.
     */
    method GetOptimalMove(board: Board, alpha: int, beta: int, p: Player) returns (move: AIMove)
      requires board.Valid() && board.Consistent() && !board.IsFull() && p != None
      ensures move == Search(board.Cells(), alpha, beta, p)
      decreases 9 - board.numMoves, 1
    {
      ghost var g := board.Cells();
      ghost var target := Search(g, alpha, beta, p);
      var moves: seq<AIMove> := [];
      var alphaNow, betaNow := alpha, beta;

      // Work on a copy so that the caller's board is never touched.
      var newBoard := new Board.Copy(board);
      var spaces := newBoard.GetAvailableSpaces();
      var i := 0;
      while i < |spaces|
        invariant 0 <= i <= |spaces| && |moves| == i && spaces == Avail(g)
        invariant fresh(newBoard) && fresh(newBoard.cells) && newBoard.Valid()
        invariant newBoard.Cells() == g && newBoard.numMoves == board.numMoves
        invariant SearchLoop(g, spaces, i, alphaNow, betaNow, p, moves) == target
      {
        var availableMove := spaces[i];
        CandidateIsEmpty(g, spaces, i);
        var candidate := NewAIMove(availableMove, if p == X then MaxValue else MinValue);

        var outcome := TryCandidate(newBoard, availableMove, alphaNow, betaNow, p);
        if outcome.Won? {
          move := candidate.(score := if p == X then MinValue else MaxValue);
          WinningCandidate(g, spaces, i, alphaNow, betaNow, p, moves);
          return;
        } else if outcome.Filled? {
          move := candidate.(score := 0);
          FillingCandidate(g, spaces, i, alphaNow, betaNow, p, moves);
          return;
        }
        var moveResult := outcome.result;
        ghost var alphaWas, betaWas := alphaNow, betaNow;

        if p == X {
          candidate := candidate.(score := Min(candidate.score, moveResult.score));
          betaNow := Min(betaNow, moveResult.score);
        } else {
          candidate := candidate.(score := Max(candidate.score, moveResult.score));
          alphaNow := Max(alphaNow, moveResult.score);
        }

        SearchedCandidate(g, spaces, i, alphaWas, betaWas, p, moves, moveResult.score,
                          alphaNow, betaNow, candidate);

        // A cut-off: no other candidate can change the outcome higher up.
        if alphaNow >= betaNow {
          move := candidate.(score := if p == X then betaNow else alphaNow);
          return;
        }

        moves := moves + [candidate];
        i := i + 1;
      }

      LoopEnd(g, spaces, alphaNow, betaNow, p, moves);
      if p == X {
        move := GetMinOrMaxMove(moves, false);
      } else {
        move := GetMinOrMaxMove(moves, true);
      }
    }

    /**
     * One pass of the candidate loop on the working board: m is placed for p
     * and tested for a win and for a full board; when neither, the
     * opponent's answer is searched on the placed board and m is taken back.
     * The board is left with m placed when the loop returns at once.
     */
    method TryCandidate(newBoard: Board, m: Move, alpha: int, beta: int, p: Player)
      returns (outcome: Outcome)
      requires newBoard.Valid() && newBoard.Consistent() && !newBoard.IsFull() && p != None
      requires OnBoard(m) && newBoard.Cells()[Index(m)] == None
      modifies newBoard, newBoard.cells
      ensures newBoard.Valid() && newBoard.cells == old(newBoard.cells)
      ensures outcome == TryMove(old(newBoard.Cells()), m, alpha, beta, p)
      ensures outcome.Searched? ==>
        && newBoard.Cells() == old(newBoard.Cells())
        && newBoard.numMoves == old(newBoard.numMoves)
      decreases 9 - newBoard.numMoves, 0
    {
      ghost var g := newBoard.Cells();
      newBoard.SetMove(m, p);
      PlaceCounts(g, m, p);

      var won := newBoard.IsWinningMove(m, p);
      if won {
        return Won;
      } else if newBoard.IsFull() {
        return Filled;
      }

      // Consider the placed board and search all the opponent's answers on it.
      var moveResult := GetOptimalMove(newBoard, alpha, beta, p.Next());

      // Take the move back before the next candidate.
      newBoard.ResetMove(m);
      PlaceThenClear(g, m, p);
      outcome := Searched(moveResult);
    }

    /**
     * The first element with the highest (isMax) or lowest (!isMax) score:
     * the running best is replaced only by a strictly better score.
     */
    method GetMinOrMaxMove(moves: seq<AIMove>, isMax: bool) returns (best: AIMove)
      requires |moves| > 0
      ensures best == moves[BestIndex(moves, isMax)]
      ensures best in moves
      ensures forall j :: 0 <= j < |moves| ==>
        if isMax then moves[j].score <= best.score else best.score <= moves[j].score
    {
      best := moves[0];
      ghost var k := 0;
      var i := 1;
      while i < |moves|
        invariant 1 <= i <= |moves| && 0 <= k < i
        invariant k == BestIndex(moves[..i], isMax) && best == moves[k]
      {
        BestIndexPrefix(moves, i, isMax);
        if isMax && moves[i].score > best.score {
          best, k := moves[i], i;
        } else if !isMax && moves[i].score < best.score {
          best, k := moves[i], i;
        }
        i := i + 1;
      }
      assert moves[..i] == moves;
    }
  }
}
