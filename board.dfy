/** The mutable board: nine cells in an array plus a counter of moves made. */
module Boards {
  import opened Players
  import opened Moves
  import opened Grids

  class Board {
    /** Cell (x, y) lives at position x * 3 + y. */
    var cells: array<Player>
    /** Incremented by every placement and decremented by every undo. */
    var numMoves: int

    ghost predicate Valid()
      reads this
    {
      cells.Length == 9
    }

    /** The cells as a value. */
    function Cells(): Grid
      reads this, cells
      requires Valid()
    {
      cells[..]
    }

    /** The counter agrees with the number of filled cells. */
    ghost predicate Consistent()
      reads this, cells
      requires Valid()
    {
      numMoves == CountFilled(Cells())
    }

    /** A board whose cells are not yet set up; InitializeNewBoard clears them. */
    constructor ()
      ensures Valid() && fresh(cells) && numMoves == 0
    {
      cells := new Player[9];
      numMoves := 0;
    }

    /** A copy with its own array: equal cells and counter, no shared state. */
    constructor Copy(other: Board)
      requires other.Valid()
      ensures Valid() && fresh(cells)
      ensures Cells() == other.Cells() && numMoves == other.numMoves
    {
      var a := new Player[9];
      var i := 0;
      while i < 9
        invariant 0 <= i <= 9
        invariant forall k :: 0 <= k < i ==> a[k] == other.cells[k]
      {
        a[i] := other.cells[i];
        i := i + 1;
      }
      cells := a;
      numMoves := other.numMoves;
    }

    /** Empties every cell and zeroes the counter. */
    method InitializeNewBoard()
      requires Valid()
      modifies cells, this`numMoves
      ensures Valid() && Consistent()
      ensures Cells() == EmptyGrid() && numMoves == 0
    {
      var i := 0;
      while i < 9
        invariant 0 <= i <= 9
        invariant forall k :: 0 <= k < i ==> cells[k] == None
      {
        cells[i] := None;
        i := i + 1;
      }
      numMoves := 0;
      CountFilledExtremes(Cells());
    }

    /** The board is full when the counter reaches nine. */
    predicate IsFull()
      reads this
    {
      numMoves == 9
    }

    /** The player in cell (x, y). */
    function GetPlayerAt(x: int, y: int): (c: Player)
      reads this, cells
      requires Valid() && 0 <= x * 3 + y < 9
    {
      cells[x * 3 + y]
    }

    /** The player in the cell of m. */
    function GetPlayerFromBoard(m: Move): (c: Player)
      reads this, cells
      requires Valid() && OnBoard(m)
      ensures c == Cells()[Index(m)]
    {
      GetPlayerAt(m.x, m.y)
    }

    /** The cell of m is empty. */
    predicate IsValidMove(m: Move)
      reads this, cells
      requires Valid() && OnBoard(m)
    {
      GetPlayerFromBoard(m) == None
    }

    /**
     * Whether p holds the row of m, the column of m or either diagonal,
     * found by counting p's cells along the four lines at once.
     */
    method IsWinningMove(m: Move, p: Player) returns (won: bool)
      requires Valid() && OnBoard(m)
      ensures won == IsWin(Cells(), m, p)
    {
      var g := Cells();
      var adiagonal, diagonal, horizontal, vertical := 0, 0, 0, 0;
      var i := 0;
      while i < 3
        invariant 0 <= i <= 3
        invariant diagonal == LineCount(g, 0, 4, i, p)
        invariant horizontal == LineCount(g, m.x * 3, 1, i, p)
        invariant vertical == LineCount(g, m.y, 3, i, p)
        invariant adiagonal == LineCount(g, 2, 2, i, p)
      {
        LineCountNext(g, 0, 4, i, p);
        LineCountNext(g, m.x * 3, 1, i, p);
        LineCountNext(g, m.y, 3, i, p);
        LineCountNext(g, 2, 2, i, p);
        if GetPlayerAt(i, i) == p {
          diagonal := diagonal + 1;
        }
        if GetPlayerAt(m.x, i) == p {
          horizontal := horizontal + 1;
        }
        if GetPlayerAt(i, m.y) == p {
          vertical := vertical + 1;
        }
        if GetPlayerAt(i, 3 - i - 1) == p {
          adiagonal := adiagonal + 1;
        }
        i := i + 1;
      }
      won := diagonal == 3 || horizontal == 3 || vertical == 3 || adiagonal == 3;
      CountsDecideWin(g, m, p);
    }

    /** The empty cells, row by row and column by column within a row. */
    method GetAvailableSpaces() returns (spaces: seq<Move>)
      requires Valid()
      ensures spaces == Avail(Cells())
    {
      ghost var g := Cells();
      spaces := [];
      var i := 0;
      while i < 3
        invariant 0 <= i <= 3
        invariant spaces == AvailUpTo(g, i * 3)
      {
        var j := 0;
        while j < 3
          invariant 0 <= j <= 3
          invariant spaces == AvailUpTo(g, i * 3 + j)
        {
          var move := Move(i, j);
          AvailUpToStep(g, i, j);
          if IsValidMove(move) {
            spaces := spaces + [move];
          }
          j := j + 1;
        }
        i := i + 1;
      }
    }

    /** Writes p into cell `hash` and counts one more move; nothing else changes. */
    method SetMoveAt(hash: int, p: Player)
      requires Valid() && 0 <= hash < 9
      modifies cells, this`numMoves
      ensures Valid()
      ensures Cells() == old(Cells())[hash := p]
      ensures numMoves == old(numMoves) + 1
      ensures old(Consistent()) && old(cells[hash]) == None && p != None ==> Consistent()
    {
      cells[hash] := p;
      numMoves := numMoves + 1;
      CountFilledUpdate(old(Cells()), hash, p);
    }

    /**
     * Writes p into the cell of m and counts one more move; the cell is
     * not checked first.
     */
    method SetMove(m: Move, p: Player)
      requires Valid() && OnBoard(m)
      modifies cells, this`numMoves
      ensures Valid()
      ensures Cells() == Place(old(Cells()), m, p)
      ensures numMoves == old(numMoves) + 1
      ensures old(Consistent()) && old(cells[Index(m)]) == None && p != None ==> Consistent()
    {
      var hash := m.x * 3 + m.y;
      SetMoveAt(hash, p);
    }

    /** Undo: empties the cell of m and counts one move fewer. */
    method ResetMove(m: Move)
      requires Valid() && OnBoard(m)
      modifies cells, this`numMoves
      ensures Valid()
      ensures Cells() == Place(old(Cells()), m, None)
      ensures numMoves == old(numMoves) - 1
      ensures old(Consistent()) && old(cells[Index(m)]) != None ==> Consistent()
    {
      cells[m.x * 3 + m.y] := None;
      numMoves := numMoves - 1;
      CountFilledUpdate(old(Cells()), Index(m), None);
    }

    /** On a consistent board, the counter says full exactly when no cell is empty. */
    lemma FullIffNoEmptyCell()
      requires Valid() && Consistent()
      ensures IsFull() <==> Avail(Cells()) == []
      ensures IsFull() <==> forall m :: OnBoard(m) ==> !IsValidMove(m)
    {
      AvailSpec(Cells());
      CountFilledExtremes(Cells());
      if !IsFull() {
        var k :| 0 <= k < 9 && cells[k] == None;
        assert IsValidMove(MoveAt(k));
      }
    }
  }
}
