/** A game: one board, whose turn it is, and whether and how the game ended. */
module Games {
  import opened Players
  import opened Moves
  import opened Grids
  import opened Boards

  class Game {
    var board: Board
    var currentPlayer: Player
    var gameOver: bool
    /** None until somebody completes a line; a drawn game keeps None. */
    var winner: Player

    ghost predicate Valid()
      reads this, board
    {
      && board.Valid()
      && (!gameOver ==> winner == None)
    }

    /** A fresh game on an empty board, with the given player to move. */
    constructor (humanPlayer: Player)
      ensures Valid() && board.Consistent() && fresh(board) && fresh(board.cells)
      ensures board.Cells() == EmptyGrid() && board.numMoves == 0
      ensures currentPlayer == humanPlayer && !gameOver && winner == None
    {
      var b := new Board();
      b.InitializeNewBoard();
      board := b;
      currentPlayer := humanPlayer;
      gameOver := false;
      winner := None;
    }

    /**
     * Places p on the cell of m, then either records p as the winner,
     * records a draw when the board is now full, or passes the turn.
     * Nothing is checked first: the move counter stays in step with the
     * cells only when an empty cell is filled.
     */
    method SetMove(m: Move, p: Player)
      requires Valid() && OnBoard(m)
      modifies this, board, board.cells
      ensures Valid() && board == old(board) && board.cells == old(board.cells)
      ensures board.Cells() == Place(old(board.Cells()), m, p)
      ensures board.numMoves == old(board.numMoves) + 1
      ensures old(board.Consistent()) && old(board.cells[Index(m)]) == None && p != None ==>
        board.Consistent()
      ensures IsWin(board.Cells(), m, p) ==>
        gameOver && winner == p && currentPlayer == old(currentPlayer)
      ensures !IsWin(board.Cells(), m, p) && board.IsFull() ==>
        gameOver && winner == old(winner) && currentPlayer == old(currentPlayer)
      ensures !IsWin(board.Cells(), m, p) && !board.IsFull() ==>
        && gameOver == old(gameOver) && winner == old(winner)
        && currentPlayer == old(currentPlayer).Next()
    {
      board.SetMove(m, p);
      var won := board.IsWinningMove(m, p);
      if won {
        gameOver := true;
        winner := p;
      } else if board.IsFull() {
        gameOver := true;
      } else {
        currentPlayer := currentPlayer.Next();
      }
    }

    /** Starts over on the same board object: empty, running, X to move. */
    method Reset()
      requires Valid()
      modifies this, board.cells, board`numMoves
      ensures Valid() && board.Consistent() && board == old(board) && board.cells == old(board.cells)
      ensures board.Cells() == EmptyGrid() && board.numMoves == 0
      ensures !gameOver && winner == None && currentPlayer == X
    {
      board.InitializeNewBoard();
      gameOver := false;
      winner := None;
      currentPlayer := X;
    }

    predicate IsGameOver()
      reads this
    {
      gameOver
    }
  }
}
