/** The three markers a cell of the board can hold, and the turn rule. */
module Players {

  /** X and O are the two movers; None marks an empty cell. */
  datatype Player = X | O | None {

    /** The player who moves after this one: X is followed by O, anything else by X. */
    function Next(): (r: Player)
      ensures r != None
      ensures r == X <==> this != X
    {
      if this == X then O else X
    }

    /** The display id: X is 1, O is 2, None is 0. */
    function Id(): (r: int)
      ensures 0 <= r <= 2
      ensures r == 0 <==> this == None
      ensures r == 1 <==> this == X
    {
      match this
      case X => 1
      case O => 2
      case None => 0
    }

    /** The glyph shown on a cell: "X", "O", or the empty string for None. */
    function ToString(): (r: string)
      ensures |r| <= 1
      ensures r == [] <==> this == None
      ensures r == "X" <==> this == X
      ensures r == "O" <==> this == O
    {
      match this
      case X => "X"
      case O => "O"
      case None => ""
    }
  }

  /** Next alternates the two movers and sends None to X. */
  lemma NextAlternates()
    ensures X.Next() == O && O.Next() == X
    ensures None.Next() == X
  {
  }

  /** Next is an involution on the two movers. */
  lemma NextInvolution(p: Player)
    requires p != None
    ensures p.Next() != p
    ensures p.Next().Next() == p
  {
  }

  /** Distinct players have distinct ids and distinct glyphs. */
  lemma IdInjective(p: Player, q: Player)
    requires p != q
    ensures p.Id() != q.Id()
    ensures p.ToString() != q.ToString()
  {
  }
}
