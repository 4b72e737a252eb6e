/**
 * The nine cells of a board as a value: counting, placing, the row-major
 * list of empty cells and the four lines a move can complete.  These are
 * the functions the Board class is specified by.
 */
module Grids {
  import opened Players
  import opened Moves

  /** Nine cells in row-major order: cell (x, y) is at position x * 3 + y. */
  type Grid = g: seq<Player> | |g| == 9 witness EmptyGrid()

  function EmptyGrid(): (g: seq<Player>)
    ensures |g| == 9
    ensures forall k :: 0 <= k < 9 ==> g[k] == None
  {
    [None, None, None, None, None, None, None, None, None]
  }

  /** 1 for a filled cell, 0 for an empty one. */
  function Filled(c: Player): nat
  {
    if c != None then 1 else 0
  }

  /** The number of filled cells in s. */
  function CountFilled(s: seq<Player>): (n: nat)
    ensures n <= |s|
  {
    if s == [] then 0 else CountFilled(s[..|s| - 1]) + Filled(s[|s| - 1])
  }

  /** No cell is filled exactly when the count is zero, and every cell exactly when it is |s|. */
  lemma {:induction false} CountFilledExtremes(s: seq<Player>)
    ensures CountFilled(s) == 0 <==> forall k :: 0 <= k < |s| ==> s[k] == None
    ensures CountFilled(s) == |s| <==> forall k :: 0 <= k < |s| ==> s[k] != None
  {
    if s != [] {
      CountFilledExtremes(s[..|s| - 1]);
    }
  }

  /** Overwriting one cell changes the count by exactly what was lost and gained. */
  lemma {:induction false} CountFilledUpdate(s: seq<Player>, k: int, c: Player)
    requires 0 <= k < |s|
    ensures CountFilled(s[k := c]) == CountFilled(s) - Filled(s[k]) + Filled(c)
  {
    var t := s[k := c];
    if k == |s| - 1 {
      assert t[..|t| - 1] == s[..|s| - 1];
    } else {
      assert t[..|t| - 1] == s[..|s| - 1][k := c];
      CountFilledUpdate(s[..|s| - 1], k, c);
    }
  }

  /** The grid after `p` is written into the cell of `m`. */
  function Place(g: Grid, m: Move, p: Player): (r: Grid)
    requires OnBoard(m)
  {
    g[Index(m) := p]
  }

  /** Placing a mover on an empty cell fills exactly one more cell. */
  lemma PlaceCounts(g: Grid, m: Move, p: Player)
    requires OnBoard(m) && g[Index(m)] == None && p != None
    ensures CountFilled(Place(g, m, p)) == CountFilled(g) + 1
  {
    CountFilledUpdate(g, Index(m), p);
  }

  /** Clearing a filled cell empties exactly one cell. */
  lemma ClearCounts(g: Grid, m: Move)
    requires OnBoard(m) && g[Index(m)] != None
    ensures CountFilled(Place(g, m, None)) == CountFilled(g) - 1
  {
    CountFilledUpdate(g, Index(m), None);
  }

  /** Placing on an empty cell and then clearing it gives back the grid. */
  lemma PlaceThenClear(g: Grid, m: Move, p: Player)
    requires OnBoard(m) && g[Index(m)] == None
    ensures Place(Place(g, m, p), m, None) == g
  {
  }

  /**
   * The empty cells among positions 0 .. n-1, in increasing position,
   * that is row by row and, within a row, column by column.
   */
  function AvailUpTo(g: Grid, n: int): (ms: seq<Move>)
    requires 0 <= n <= 9
  {
    if n == 0 then []
    else AvailUpTo(g, n - 1) + (if g[n - 1] == None then [MoveAt(n - 1)] else [])
  }

  /** The prefix list holds exactly the empty cells below n, once each, in increasing position. */
  lemma {:induction false} AvailUpToSpec(g: Grid, n: int)
    requires 0 <= n <= 9
    ensures |AvailUpTo(g, n)| == n - CountFilled(g[..n])
    ensures forall i :: 0 <= i < |AvailUpTo(g, n)| ==> OnBoard(AvailUpTo(g, n)[i])
    ensures forall i :: 0 <= i < |AvailUpTo(g, n)| ==>
      Index(AvailUpTo(g, n)[i]) < n && g[Index(AvailUpTo(g, n)[i])] == None
    ensures forall i, j :: 0 <= i < j < |AvailUpTo(g, n)| ==> Index(AvailUpTo(g, n)[i]) < Index(AvailUpTo(g, n)[j])
    ensures forall k :: 0 <= k < n && g[k] == None ==> MoveAt(k) in AvailUpTo(g, n)
  {
    if n > 0 {
      AvailUpToSpec(g, n - 1);
      assert g[..n][..n - 1] == g[..n - 1];
    }
  }

  /** Moving on to cell (x, y) adds it to the list when it is empty. */
  lemma AvailUpToStep(g: Grid, x: int, y: int)
    requires 0 <= x < 3 && 0 <= y < 3
    ensures AvailUpTo(g, x * 3 + y + 1)
         == AvailUpTo(g, x * 3 + y) + (if g[x * 3 + y] == None then [Move(x, y)] else [])
  {
    MoveAtIndex(Move(x, y));
  }

  /** All empty cells of the grid in row-major order. */
  function Avail(g: Grid): (ms: seq<Move>)
  {
    AvailUpTo(g, 9)
  }

  /**
   * The available list holds exactly the empty cells, each once, in
   * row-major order, and there are as many as there are unfilled cells.
   */
  lemma AvailSpec(g: Grid)
    ensures |Avail(g)| == 9 - CountFilled(g)
    ensures forall m :: m in Avail(g) <==> OnBoard(m) && g[Index(m)] == None
    ensures forall i, j :: 0 <= i < j < |Avail(g)| ==> Index(Avail(g)[i]) < Index(Avail(g)[j])
  {
    var ms := Avail(g);
    AvailUpToSpec(g, 9);
    assert g[..9] == g;
    forall m | OnBoard(m) && g[Index(m)] == None
      ensures m in ms
    {
      MoveAtIndex(m);
    }
  }

  /** The cell t steps along the line that starts at `start` and moves by `step`. */
  function LineCell(g: Grid, start: int, step: int, t: int): Player
    requires 0 <= start && 0 <= step && 0 <= t <= 2 && start + 2 * step < 9
  {
    g[start + step * t]
  }

  /** How many of the first n cells of a line hold p. */
  function LineCount(g: Grid, start: int, step: int, n: int, p: Player): int
    requires 0 <= start && 0 <= step && 0 <= n <= 3 && start + 2 * step < 9
  {
    if n == 0 then 0
    else LineCount(g, start, step, n - 1, p) + (if LineCell(g, start, step, n - 1) == p then 1 else 0)
  }

  /** Counting one more cell of a line adds one exactly when that cell holds p. */
  lemma LineCountNext(g: Grid, start: int, step: int, n: int, p: Player)
    requires 0 <= start && 0 <= step && 0 <= n < 3 && start + 2 * step < 9
    ensures LineCount(g, start, step, n + 1, p) ==
      LineCount(g, start, step, n, p) + (if g[start + step * n] == p then 1 else 0)
  {
  }

  /** p holds all three cells of the line. */
  predicate LineOwned(g: Grid, start: int, step: int, p: Player)
    requires 0 <= start && 0 <= step && start + 2 * step < 9
  {
    g[start] == p && g[start + step] == p && g[start + 2 * step] == p
  }

  /** Counting three of p along a line is owning the line. */
  lemma LineCountOwned(g: Grid, start: int, step: int, p: Player)
    requires 0 <= start && 0 <= step && start + 2 * step < 9
    ensures LineCount(g, start, step, 3, p) == 3 <==> LineOwned(g, start, step, p)
  {
    LineCountNext(g, start, step, 0, p);
    LineCountNext(g, start, step, 1, p);
    LineCountNext(g, start, step, 2, p);
  }

  /**
   * p holds the whole row of m, the whole column of m, the main diagonal
   * or the anti-diagonal.  Both diagonals are looked at whatever m is.
   */
  predicate IsWin(g: Grid, m: Move, p: Player)
    requires OnBoard(m)
  {
    || LineOwned(g, m.x * 3, 1, p)
    || LineOwned(g, m.y, 3, p)
    || LineOwned(g, 0, 4, p)
    || LineOwned(g, 2, 2, p)
  }

  /** Full counts along the row, column and both diagonals decide a win. */
  lemma CountsDecideWin(g: Grid, m: Move, p: Player)
    requires OnBoard(m)
    ensures IsWin(g, m, p) <==>
      || LineCount(g, m.x * 3, 1, 3, p) == 3
      || LineCount(g, m.y, 3, 3, p) == 3
      || LineCount(g, 0, 4, 3, p) == 3
      || LineCount(g, 2, 2, 3, p) == 3
  {
    LineCountOwned(g, m.x * 3, 1, p);
    LineCountOwned(g, m.y, 3, p);
    LineCountOwned(g, 0, 4, p);
    LineCountOwned(g, 2, 2, p);
  }
}
