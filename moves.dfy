/** Grid coordinates and the scored moves the search engine ranks. */
module Moves {

  /** A cell coordinate: row x and column y, each meant to be in 0..2. */
  datatype Move = Move(x: int, y: int)

  /** The coordinate names a cell of the 3x3 grid. */
  predicate OnBoard(m: Move)
  {
    0 <= m.x < 3 && 0 <= m.y < 3
  }

  /** The position of a cell in the row-major 9-cell array. */
  function Index(m: Move): (k: int)
    requires OnBoard(m)
    ensures 0 <= k < 9
    ensures k / 3 == m.x && k % 3 == m.y
  {
    m.x * 3 + m.y
  }

  /** The coordinate of array position k. */
  function MoveAt(k: int): (m: Move)
    requires 0 <= k < 9
    ensures OnBoard(m) && Index(m) == k
  {
    Move(k / 3, k % 3)
  }

  /** Position and coordinate determine each other. */
  lemma MoveAtIndex(m: Move)
    requires OnBoard(m)
    ensures MoveAt(Index(m)) == m
  {
  }

  /** Distinct cells have distinct array positions. */
  lemma IndexInjective(m: Move, n: Move)
    requires OnBoard(m) && OnBoard(n) && m != n
    ensures Index(m) != Index(n)
  {
  }

  /**
   * A move together with the score the search gave it.  In the search
   * only the score is ever rebound; the coordinates stay those of the
   * move it was built from.
   */
  datatype AIMove = AIMove(x: int, y: int, score: int) {

    /** The plain coordinate, which is all a board ever reads of a scored move. */
    function ToMove(): (m: Move)
      ensures m.x == x && m.y == y
    {
      Move(x, y)
    }
  }

  /** A scored move built from a coordinate and a score. */
  function NewAIMove(m: Move, score: int): (r: AIMove)
    ensures r.ToMove() == m
    ensures r.score == score
  {
    AIMove(m.x, m.y, score)
  }

  /** Rebinding the score keeps the coordinate. */
  lemma RescoreKeepsMove(r: AIMove, s: int)
    ensures r.(score := s).ToMove() == r.ToMove()
    ensures r.(score := s).score == s
  {
  }
}
