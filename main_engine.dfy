/**
 * The game rules of main.py: board cell enumeration (the integer part of
 * init_state), get_possible_moves, apply_move, is_terminal and evaluate.
 */
module MainEngine {
  import opened HexGrid
  import opened PlainRules

  /** Strict lexicographic order on (q, r), the order of the two nested range loops. */
  predicate Before(a: Cell, b: Cell) {
    a.q < b.q || (a.q == b.q && a.r < b.r)
  }

  /**
   * The cells of a board of the given radius, as init_state lists them:
   * exactly the (q, r) with max(|q|, |r|, |q + r|) <= radius, in increasing
   * (q, r) order (so each once), and the owner map that starts each unclaimed.
   */
  method InitCells(radius: int) returns (validCells: seq<Cell>, owners: map<Cell, int>)
    ensures forall c :: c in validCells <==> InDisk(c, radius)
    ensures forall i, j :: 0 <= i < j < |validCells| ==> Before(validCells[i], validCells[j])
    ensures owners.Keys == SetOf(validCells)
    ensures forall c :: c in owners ==> owners[c] == UNCLAIMED
  {
    validCells := [];
    var q := -radius;
    while q <= radius
      invariant -radius <= q && (radius >= 0 ==> q <= radius + 1)
      invariant forall c :: c in validCells <==> InDisk(c, radius) && c.q < q
      invariant forall i, j :: 0 <= i < j < |validCells| ==> Before(validCells[i], validCells[j])
      invariant forall c :: c in validCells ==> c.q < q
      decreases radius + 1 - q
    {
      var r := -radius;
      while r <= radius
        invariant -radius <= r <= radius + 1
        invariant forall c :: c in validCells <==> InDisk(c, radius) && (c.q < q || (c.q == q && c.r < r))
        invariant forall i, j :: 0 <= i < j < |validCells| ==> Before(validCells[i], validCells[j])
        invariant forall c :: c in validCells ==> Before(c, Cell(q, r))
        decreases radius + 1 - r
      {
        var s := -q - r;
        if Abs(q) <= radius && Abs(r) <= radius && Abs(s) <= radius {
          validCells := validCells + [Cell(q, r)];
        }
        r := r + 1;
      }
      q := q + 1;
    }
    owners := map[];
    var i := 0;
    while i < |validCells|
      invariant 0 <= i <= |validCells|
      invariant owners.Keys == SetOf(validCells[..i])
      invariant forall c :: c in owners ==> owners[c] == UNCLAIMED
    {
      assert validCells[..i + 1] == validCells[..i] + [validCells[i]];
      owners := owners[validCells[i] := UNCLAIMED];
      i := i + 1;
    }
    assert validCells[..i] == validCells;
  }

  /** get_possible_moves: the undrawn edges, in the edge dictionary's order, each once. */
  method GetPossibleMoves(t: Topology, b: Board) returns (moves: seq<Edge>)
    requires TopologyWF(t) && BoardWF(t, b)
    ensures moves == PossibleMoves(t, b)
    ensures forall e :: e in moves <==> e in b.edges && b.edges[e] == UNCLAIMED
    ensures Distinct(moves)
  {
    moves := [];
    var i := 0;
    while i < |t.edgeOrder|
      invariant 0 <= i <= |t.edgeOrder|
      invariant moves == Undrawn(t.edgeOrder[..i], b.edges)
    {
      var edge := t.edgeOrder[i];
      assert t.edgeOrder[..i + 1][..i] == t.edgeOrder[..i];
      if b.edges[edge] == UNCLAIMED {
        moves := moves + [edge];
      }
      i := i + 1;
    }
    assert t.edgeOrder[..i] == t.edgeOrder;
    PossibleMovesExact(t, b);
  }

  /** is_terminal of main.py: no possible move is left. */
  predicate IsTerminal(t: Topology, b: Board) {
    |PossibleMoves(t, b)| == 0
  }

  /** main.py's "no moves left" and the other snapshots' "every edge owned" are the same test. */
  lemma TerminalMeansAllOwned(t: Topology, b: Board)
    requires TopologyWF(t) && BoardWF(t, b)
    ensures IsTerminal(t, b) <==> AllOwned(b)
  {
    PossibleMovesExact(t, b);
  }

  /** A board with every edge drawn and scores [3, 5] is terminal and evaluates to 2. */
  lemma TerminalEvaluation(t: Topology, b: Board)
    requires TopologyWF(t) && BoardWF(t, b)
    requires forall e :: e in b.edges ==> b.edges[e] != UNCLAIMED
    requires b.score == PerPlayer(3, 5)
    ensures IsTerminal(t, b) && Evaluate(b) == 2
  {
    TerminalMeansAllOwned(t, b);
  }

  /** The completion test inside apply_move: scans a cell's edges and stops at the first undrawn one. */
  method CellCompleted(t: Topology, edges: map<Edge, int>, cell: Cell) returns (completed: bool)
    requires cell in t.cellEdges && forall e | e in t.cellEdges[cell] :: e in edges
    ensures completed <==> AllDrawn(edges, t.cellEdges[cell])
  {
    var es := t.cellEdges[cell];
    completed := true;
    var j := 0;
    while j < |es|
      invariant 0 <= j <= |es|
      invariant forall k :: 0 <= k < j ==> Drawn(edges, es[k])
    {
      if edges[es[j]] == UNCLAIMED {
        assert es[j] in es && !Drawn(edges, es[j]);
        completed := false;
        break;
      }
      j := j + 1;
    }
  }

  /**
   * The scan over the cells beside the drawn edge: each one still
   * unclaimed whose edges are now all drawn goes to `player` for one point,
   * in the order the edge lists its cells; the mover earns an extra turn
   * exactly when some cell was claimed.
   */
  method ClaimAround(t: Topology, s0: Board, move: Edge, player: Player) returns (s: Board, extraTurn: bool)
    requires AroundEdge(t, s0, move) && Distinct(t.edgeCells[move])
    ensures var won := Won(t, s0.cells, s0.edges, t.edgeCells[move]);
      && s == s0.(cells := ClaimAll(s0.cells, won, player), score := s0.score.With(player, s0.score.At(player) + |won|))
      && (extraTurn <==> |won| > 0)
  {
    s := s0;
    extraTurn := false;
    var adj := t.edgeCells[move];
    var i := 0;
    ghost var won: seq<Cell> := [];
    while i < |adj|
      invariant 0 <= i <= |adj| && won == Won(t, s0.cells, s0.edges, adj[..i])
      invariant s.edges == s0.edges && s.lastMove == s0.lastMove && s.turn == s0.turn
      invariant s.cells == ClaimAll(s0.cells, won, player)
      invariant s.score.At(player) == s0.score.At(player) + |won| && s.score.At(Opponent(player)) == s0.score.At(Opponent(player))
      invariant extraTurn <==> |won| > 0
    {
      var cell := adj[i];
      ScanStep(t, s0.cells, s0.edges, adj, i, player);
      ghost var won' := Won(t, s0.cells, s0.edges, adj[..i + 1]);
      if s.cells[cell] == UNCLAIMED {
        var completed := CellCompleted(t, s.edges, cell);
        if completed {
          s := s.(cells := s.cells[cell := player]);
          s := s.(score := s.score.With(player, s.score.At(player) + 1));
          extraTurn := true;
          assert won' == won + [cell];
        } else {
          assert won' == won;
        }
      } else {
        assert won' == won;
      }
      won := won';
      i := i + 1;
    }
    PerPlayerExt(s.score, s0.score.With(player, s0.score.At(player) + |won|), player);
    assert adj[..i] == adj;
  }

  /**
   * apply_move of main.py: refuses an already drawn edge, otherwise draws
   * it, scans the adjacent cells with an early-exit completion check, and
   * passes the turn unless a cell was claimed. Its result is PlainApply.
   */
  method ApplyMove(t: Topology, b: Board, move: Edge, player: Player) returns (next: Board, extraTurn: bool)
    requires TopologyWF(t) && BoardWF(t, b) && move in t.edgeCells
    ensures (next, extraTurn) == PlainApply(t, b, move, player)
  {
    var s := b;
    extraTurn := false;
    if s.edges[move] != UNCLAIMED {
      return s, false;
    }
    s := s.(edges := s.edges[move := player]);
    s := s.(lastMove := Some(move));
    AroundEdgeHolds(t, s, move);
    s, extraTurn := ClaimAround(t, s, move, player);
    if !extraTurn {
      s := s.(turn := Opponent(player));
    }
    next := s;
  }
}
