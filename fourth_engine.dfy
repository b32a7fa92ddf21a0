/**
 * The rules of fourth_unstable/game_logic.py: apply_move draws the edge
 * without a validity check and without recording last_move, scores only
 * the treasure value of a completed cell (no base point), records the
 * revealed items, and turns a picked-up gauntlet into a plain availability
 * flag; use_gauntlet steals once and clears only that flag.
 */
module FourthUnstable {
  import opened HexGrid
  import opened ItemLayer

  /**
   * The state after the cells `won` are claimed, in order, from `g`: owner
   * and treasure score, the revealed items (an artifact recorded over a
   * treasure), the last treasure value and the gauntlet flag.
   */
  function FourthClaims(g: Game, won: seq<Cell>, p: Player): Game {
    var it := g.items;
    Game(g.board.(cells := ClaimAll(g.board.cells, won, p),
                  score := g.board.score.With(p, g.board.score.At(p) + TreasureSum(won, it.treasures))),
         it.(claimedItems := Reveal(it.claimedItems, won, it.treasures, it.artifacts, true),
             lastTreasureValue := it.lastTreasureValue.With(p, LastTreasure(won, it.treasures, it.lastTreasureValue.At(p))),
             gauntletAvailable := it.gauntletAvailable.With(p, it.gauntletAvailable.At(p) || CountArtifact(won, it.artifacts, Gauntlet) > 0)))
  }

  /** The reference definition of this snapshot's apply_move. */
  function FourthApply(t: Topology, g: Game, move: Edge, p: Player): (Game, bool)
    requires GameWF(t, g) && move in t.edgeCells
  {
    var g1 := g.(board := g.board.(edges := g.board.edges[move := p]));
    var won := Won(t, g1.board.cells, g1.board.edges, t.edgeCells[move]);
    var g2 := FourthClaims(g1, won, p);
    var extra := |won| > 0;
    (if extra then g2 else g2.(board := g2.board.(turn := Opponent(p))), extra)
  }

  /** Claiming no cell changes nothing. */
  lemma FourthClaimsNothing(g: Game, p: Player)
    ensures FourthClaims(g, [], p) == g
  {
    assert ClaimAll(g.board.cells, [], p) == g.board.cells;
  }

  /** One more claimed cell, field by field: what the claiming branch has to produce from the state before it. */
  lemma FourthClaimsStep(g: Game, won: seq<Cell>, cell: Cell, p: Player)
    requires cell in g.board.cells && cell !in won
    ensures var s := FourthClaims(g, won, p); var r := FourthClaims(g, won + [cell], p); var it := g.items;
      && s.items.treasures == it.treasures && s.items.artifacts == it.artifacts
      && r.board.cells == s.board.cells[cell := p]
      && r.board.score.At(p) == s.board.score.At(p) + TreasureAt(it.treasures, cell)
      && r.board.score.At(Opponent(p)) == s.board.score.At(Opponent(p))
      && r.items.claimedItems == (match Revealed(it.treasures, it.artifacts, cell, true)
                                  case Some(x) => s.items.claimedItems[cell := x]
                                  case None => s.items.claimedItems)
      && r.items.lastTreasureValue.At(p) == (if cell in it.treasures then TreasureValue(it.treasures[cell]) else s.items.lastTreasureValue.At(p))
      && r.items.lastTreasureValue.At(Opponent(p)) == s.items.lastTreasureValue.At(Opponent(p))
      && r.items.gauntletAvailable.At(p) == (s.items.gauntletAvailable.At(p) || (cell in it.artifacts && it.artifacts[cell] == Gauntlet))
      && r.items.gauntletAvailable.At(Opponent(p)) == s.items.gauntletAvailable.At(Opponent(p))
      && r.board.(cells := s.board.cells, score := s.board.score) == s.board
      && r.items.(claimedItems := s.items.claimedItems, lastTreasureValue := s.items.lastTreasureValue,
                  gauntletAvailable := s.items.gauntletAvailable) == s.items
  {
    ClaimAllStep(g.board.cells, won, cell, p);
    SnocFolds(won, cell, g.items.treasures, g.items.artifacts, Gauntlet, g.items.claimedItems, true,
              g.items.lastTreasureValue.At(p), None);
  }

  /** The body of the claiming branch: one completed cell is claimed and its item revealed. */
  method ClaimCell(ghost g1: Game, ghost won: seq<Cell>, s: Game, cell: Cell, player: Player) returns (next: Game)
    requires s == FourthClaims(g1, won, player)
    requires cell in g1.board.cells && cell !in won
    ensures next == FourthClaims(g1, won + [cell], player)
  {
    FourthClaimsStep(g1, won, cell, player);
    next := s;
    next := next.(board := next.board.(cells := next.board.cells[cell := player]));
    if cell in next.items.treasures {
      var tr := next.items.treasures[cell];
      var val := TreasureValue(tr);
      next := next.(board := next.board.(score := next.board.score.With(player, next.board.score.At(player) + val)));
      next := next.(items := next.items.(claimedItems := next.items.claimedItems[cell := TreasureItem(tr)]));
      next := next.(items := next.items.(lastTreasureValue := next.items.lastTreasureValue.With(player, val)));
    }
    if cell in next.items.artifacts {
      var a := next.items.artifacts[cell];
      next := next.(items := next.items.(claimedItems := next.items.claimedItems[cell := ArtifactItem(a)]));
      if a == Gauntlet {
        next := next.(items := next.items.(gauntletAvailable := next.items.gauntletAvailable.With(player, true)));
      }
    }
    ghost var target := FourthClaims(g1, won + [cell], player);
    PerPlayerExt(next.board.score, target.board.score, player);
    PerPlayerExt(next.items.lastTreasureValue, target.items.lastTreasureValue, player);
    PerPlayerExt(next.items.gauntletAvailable, target.items.gauntletAvailable, player);
    assert next.items.claimedItems == target.items.claimedItems;
  }

  /** apply_move of fourth_unstable: its result is FourthApply. */
  method ApplyMove(t: Topology, g: Game, move: Edge, player: Player) returns (next: Game, extraTurn: bool)
    requires TopologyWF(t) && GameWF(t, g) && move in t.edgeCells
    ensures (next, extraTurn) == FourthApply(t, g, move, player)
  {
    var s := g;
    extraTurn := false;
    s := s.(board := s.board.(edges := s.board.edges[move := player]));
    ghost var g1 := s;
    FourthClaimsNothing(g1, player);
    var adj := t.edgeCells[move];
    var i := 0;
    assert adj[..0] == [];
    assert Won(t, g1.board.cells, g1.board.edges, adj[..0]) == [];
    assert s == FourthClaims(g1, Won(t, g1.board.cells, g1.board.edges, adj[..0]), player);
    while i < |adj|
      invariant 0 <= i <= |adj|
      invariant s == FourthClaims(g1, Won(t, g1.board.cells, g1.board.edges, adj[..i]), player)
      invariant extraTurn <==> |Won(t, g1.board.cells, g1.board.edges, adj[..i])| > 0
    {
      var cell := adj[i];
      ghost var before := Won(t, g1.board.cells, g1.board.edges, adj[..i]);
      WonStep(t, g1.board.cells, g1.board.edges, adj, i);
      WonMembership(t, g1.board.cells, g1.board.edges, adj[..i], cell);
      assert cell !in adj[..i];
      assert cell in g1.board.cells;
      ClaimAllStep(g1.board.cells, before, cell, player);
      assert s.board.cells[cell] == g1.board.cells[cell] && s.board.edges == g1.board.edges;
      if s.board.cells[cell] == UNCLAIMED && AllDrawn(s.board.edges, t.cellEdges[cell]) {
        assert Won(t, g1.board.cells, g1.board.edges, adj[..i + 1]) == before + [cell];
        s := ClaimCell(g1, before, s, cell, player);
        extraTurn := true;
      } else {
        assert Won(t, g1.board.cells, g1.board.edges, adj[..i + 1]) == before;
      }
      i := i + 1;
    }
    assert adj[..i] == adj;
    if !extraTurn {
      s := s.(board := s.board.(turn := Opponent(player)));
    }
    next := s;
  }

  /**
   * The board effect of apply_move in this snapshot: the edge becomes
   * `player`'s whatever its owner was, last_move is untouched, cells are
   * claimed by the shared rule, the mover's score rises by the treasure
   * values of the claimed cells only, the opponent's score does not move,
   * the turn passes exactly when nothing was claimed, and the
   * claimed-iff-complete invariant is kept.
   */
  lemma FourthMoveBoard(t: Topology, g: Game, move: Edge, player: Player)
    requires TopologyWF(t) && GameWF(t, g) && move in t.edgeCells
    ensures var (n, extra) := FourthApply(t, g, move, player);
      var won := Won(t, g.board.cells, n.board.edges, t.edgeCells[move]);
      && GameWF(t, n)
      && n.board.edges == g.board.edges[move := player]
      && n.board.lastMove == g.board.lastMove
      && (forall c :: c in g.board.cells ==>
            n.board.cells[c] == if c in t.edgeCells[move] && g.board.cells[c] == UNCLAIMED && Complete(t, n.board.edges, c)
                                then player else g.board.cells[c])
      && SetOf(won) == NewlyClaimed(g.board.cells, n.board.cells)
      && n.board.score.At(player) == g.board.score.At(player) + TreasureSum(won, g.items.treasures)
      && n.board.score.At(Opponent(player)) == g.board.score.At(Opponent(player))
      && (extra <==> NewlyClaimed(g.board.cells, n.board.cells) != {})
      && n.board.turn == (if extra then g.board.turn else Opponent(player))
      && (Consistent(t, g.board) ==> Consistent(t, n.board))
  {
    var (n, extra) := FourthApply(t, g, move, player);
    var won := Won(t, g.board.cells, n.board.edges, t.edgeCells[move]);
    ClaimLaw(t, g.board, move, player);
    if won != [] {
      assert won[0] in NewlyClaimed(g.board.cells, n.board.cells);
    }
  }

  /**
   * The item effect of apply_move in this snapshot: each claimed cell's
   * item is recorded (an artifact over a treasure), the last treasure value
   * is one of the claimed treasures (or unchanged), the gauntlet flag is
   * raised exactly when a gauntlet was claimed, and no other tracker changes.
   */
  lemma FourthMoveItems(t: Topology, g: Game, move: Edge, player: Player)
    requires GameWF(t, g) && move in t.edgeCells
    ensures var (n, extra) := FourthApply(t, g, move, player);
      var won := Won(t, g.board.cells, n.board.edges, t.edgeCells[move]);
      var it := g.items;
      && (forall c :: c in won && Revealed(it.treasures, it.artifacts, c, true).Some? ==>
            c in n.items.claimedItems && n.items.claimedItems[c] == Revealed(it.treasures, it.artifacts, c, true).value)
      && ((exists c :: c in won && c in it.treasures) ==>
            exists c :: c in won && c in it.treasures && n.items.lastTreasureValue.At(player) == TreasureValue(it.treasures[c]))
      && ((forall c :: c in won ==> c !in it.treasures) ==> n.items.lastTreasureValue == it.lastTreasureValue)
      && n.items.lastTreasureValue.At(Opponent(player)) == it.lastTreasureValue.At(Opponent(player))
      && (n.items.gauntletAvailable.At(player) <==>
            it.gauntletAvailable.At(player) || exists c :: c in won && c in it.artifacts && it.artifacts[c] == Gauntlet)
      && n.items.gauntletAvailable.At(Opponent(player)) == it.gauntletAvailable.At(Opponent(player))
      && n.items.(claimedItems := it.claimedItems, lastTreasureValue := it.lastTreasureValue, gauntletAvailable := it.gauntletAvailable) == it
  {
    var (n, extra) := FourthApply(t, g, move, player);
    var won := Won(t, g.board.cells, n.board.edges, t.edgeCells[move]);
    var it := g.items;
    forall c | c in won && Revealed(it.treasures, it.artifacts, c, true).Some?
      ensures c in n.items.claimedItems && n.items.claimedItems[c] == Revealed(it.treasures, it.artifacts, c, true).value
    {
      RevealExact(it.claimedItems, won, it.treasures, it.artifacts, true, c);
    }
    LastTreasureSource(won, it.treasures, it.lastTreasureValue.At(player));
    LastArtifactCellSource(won, it.artifacts, Gauntlet, None);
  }

  /** Drawing an undrawn edge uses up exactly one possible move; redrawing a drawn one uses up none. */
  lemma FourthProgress(t: Topology, g: Game, move: Edge, player: Player)
    requires TopologyWF(t) && GameWF(t, g) && move in t.edgeCells
    ensures var n := FourthApply(t, g, move, player).0;
      |PossibleMoves(t, n.board)| == |PossibleMoves(t, g.board)| - (if g.board.edges[move] == UNCLAIMED then 1 else 0)
  {
    UndrawnAfterDraw(t.edgeOrder, g.board.edges, move, player);
  }

  /** use_gauntlet of this snapshot, on values: one capped steal that clears only the availability flag. */
  function FourthGauntlet(g: Game, p: Player, amount: Option<int>): (r: Game)
    ensures r.board.score.zero + r.board.score.one == g.board.score.zero + g.board.score.one
    ensures !g.items.gauntletAvailable.At(p) || g.items.lastTreasureValue.At(Opponent(p)) <= 0 ==> r == g
    ensures g.items.gauntletAvailable.At(p) && g.items.lastTreasureValue.At(Opponent(p)) > 0 ==>
      && r.board.score.At(Opponent(p)) >= 0
      && r.board.score.At(p) - g.board.score.At(p) <= g.items.lastTreasureValue.At(Opponent(p))
      && ((amount.None? || amount.value >= 0) && g.board.score.At(Opponent(p)) >= 0 ==> r.board.score.At(p) >= g.board.score.At(p))
      && (amount.Some? && amount.value >= 0 ==> r.board.score.At(p) - g.board.score.At(p) <= amount.value)
      && !r.items.gauntletAvailable.At(p)
      && r.items.gauntletTimer == g.items.gauntletTimer && r.items.gauntletCell == g.items.gauntletCell
      && r.items.artifacts == g.items.artifacts && r.items.claimedItems == g.items.claimedItems
      && r.board.cells == g.board.cells && r.board.edges == g.board.edges
    ensures g.items.gauntletAvailable.At(p) && g.items.lastTreasureValue.At(Opponent(p)) > 0 ==>
      var steal := StealAmount(amount, g.items.lastTreasureValue.At(Opponent(p)), g.board.score.At(Opponent(p)));
      && r.board.score.At(p) == g.board.score.At(p) + steal
      && r.board.score.At(Opponent(p)) == g.board.score.At(Opponent(p)) - steal
      && r.board == g.board.(score := r.board.score)
      && r.items.gauntletAvailable.At(Opponent(p)) == g.items.gauntletAvailable.At(Opponent(p))
      && r.items == g.items.(gauntletAvailable := r.items.gauntletAvailable)
  {
    var opponent := Opponent(p);
    var lastVal := g.items.lastTreasureValue.At(opponent);
    if !g.items.gauntletAvailable.At(p) || lastVal <= 0 then g
    else
      var steal := StealAmount(amount, lastVal, g.board.score.At(opponent));
      g.(board := g.board.(score := Transfer(g.board.score, opponent, steal)),
         items := g.items.(gauntletAvailable := g.items.gauntletAvailable.With(p, false)))
  }

  /** use_gauntlet of this snapshot, changing the state object in place. */
  method UseGauntlet(st: GameState, player: Player, amount: Option<int>)
    modifies st
    ensures st.Value() == FourthGauntlet(old(st.Value()), player, amount)
  {
    if !st.items.gauntletAvailable.At(player) {
      return;
    }
    var opponent := Opponent(player);
    var lastVal := st.items.lastTreasureValue.At(opponent);
    if lastVal <= 0 {
      return;
    }
    var steal := StealAmount(amount, lastVal, st.board.score.At(opponent));
    st.board := st.board.(score := st.board.score.With(opponent, st.board.score.At(opponent) - steal));
    st.board := st.board.(score := st.board.score.With(player, st.board.score.At(player) + steal));
    st.items := st.items.(gauntletAvailable := st.items.gauntletAvailable.With(player, false));
  }
}
