/**
 * The rules of initial_code/game_logic.py. Its board has no items, so its
 * apply_move follows the same rule as main.py's (PlainApply); the
 * completion test is the `all(...)` comprehension rather than a loop.
 */
module InitialCode {
  import opened HexGrid
  import opened PlainRules

  /** is_terminal: every edge has an owner; equivalently no move is possible. */
  predicate IsTerminal(b: Board) {
    AllOwned(b)
  }

  lemma TerminalIffNoMoves(t: Topology, b: Board)
    requires TopologyWF(t) && BoardWF(t, b)
    ensures IsTerminal(b) <==> PossibleMoves(t, b) == []
  {
    PossibleMovesExact(t, b);
  }

  /**
   * apply_move: an already drawn edge returns an unchanged copy and no extra
   * turn; otherwise the edge is drawn, every adjacent unclaimed cell that is
   * now complete is claimed for one point, and the turn passes unless one was.
   */
  method ApplyMove(t: Topology, b: Board, move: Edge, player: Player) returns (next: Board, extraTurn: bool)
    requires TopologyWF(t) && BoardWF(t, b) && move in t.edgeCells
    ensures (next, extraTurn) == PlainApply(t, b, move, player)
  {
    next := b;
    extraTurn := false;
    if next.edges[move] != UNCLAIMED {
      return next, false;
    }
    next := next.(edges := next.edges[move := player], lastMove := Some(move));
    ghost var edges' := next.edges;
    var adj := t.edgeCells[move];
    var i := 0;
    ghost var won: seq<Cell> := [];
    while i < |adj|
      invariant 0 <= i <= |adj| && won == Won(t, b.cells, edges', adj[..i])
      invariant next.edges == edges' && next.lastMove == Some(move) && next.turn == b.turn
      invariant next.cells == ClaimAll(b.cells, won, player)
      invariant next.score.At(player) == b.score.At(player) + |won| && next.score.At(Opponent(player)) == b.score.At(Opponent(player))
      invariant extraTurn <==> |won| > 0
    {
      var cell := adj[i];
      ScanStep(t, b.cells, edges', adj, i, player);
      if next.cells[cell] == UNCLAIMED {
        if AllDrawn(next.edges, t.cellEdges[cell]) {
          next := next.(cells := next.cells[cell := player]);
          next := next.(score := next.score.With(player, next.score.At(player) + 1));
          extraTurn := true;
          won := won + [cell];
        }
      }
      i := i + 1;
    }
    assert adj[..i] == adj;
    PerPlayerExt(next.score, b.score.With(player, b.score.At(player) + |won|), player);
    if !extraTurn {
      next := next.(turn := Opponent(player));
    }
  }
}
