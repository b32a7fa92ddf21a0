/**
 * The rules of second_code/game_logic.py: apply_move refuses a drawn edge,
 * claims completed cells for their treasure value only (no base point),
 * and looks at a cell's artifact only when it holds no treasure; a gauntlet
 * steals up to three points at once, and a compass swaps the owners of one
 * opponent cell and one own cell picked at random.
 */
module SecondCode {
  import opened HexGrid
  import opened ItemLayer

  /** The artifacts this snapshot can reveal: those on cells without a treasure (the `elif`). */
  function ElifArtifacts(tr: map<Cell, Treasure>, arts: map<Cell, Artifact>): map<Cell, Artifact> {
    map c | c in arts && c !in tr :: arts[c]
  }

  /** The immediate gauntlet: min(3, opponent's score) moves to `p` when the opponent has points. */
  function GauntletSteal(sc: PerPlayer<int>, p: Player): (r: PerPlayer<int>)
    ensures r.zero + r.one == sc.zero + sc.one
    ensures sc.At(Opponent(p)) <= 0 ==> r == sc
    ensures sc.At(Opponent(p)) > 0 ==>
      && 0 <= r.At(Opponent(p)) < sc.At(Opponent(p))
      && 0 < r.At(p) - sc.At(p) <= 3
      && (r.At(p) - sc.At(p) == 3 || r.At(Opponent(p)) == 0)
  {
    var opponent := Opponent(p);
    if sc.At(opponent) > 0 then
      var steal := if 3 < sc.At(opponent) then 3 else sc.At(opponent);
      Transfer(sc, opponent, steal)
    else sc
  }

  /** The score effect of claiming `c`: its treasure value for `p`, or else a gauntlet's steal, or nothing. */
  function ScoreStep(sc: PerPlayer<int>, c: Cell, tr: map<Cell, Treasure>, arts: map<Cell, Artifact>, p: Player): PerPlayer<int> {
    if c in tr then sc.With(p, sc.At(p) + TreasureValue(tr[c]))
    else if c in arts && arts[c] == Gauntlet then GauntletSteal(sc, p)
    else sc
  }

  /** The scores after claiming the cells `won` in order, each with its ScoreStep. */
  function ClaimedScore(sc: PerPlayer<int>, won: seq<Cell>, tr: map<Cell, Treasure>, arts: map<Cell, Artifact>, p: Player): PerPlayer<int>
    decreases |won|
  {
    if won == [] then sc
    else ScoreStep(ClaimedScore(sc, won[..|won| - 1], tr, arts, p), won[|won| - 1], tr, arts, p)
  }

  /**
   * What the claims do to the scores: the sum grows by the treasures
   * claimed; the mover gains at least those, and exactly those when no
   * gauntlet was revealed; the opponent never gains and, starting from a
   * non-negative score, never drops below zero.
   */
  lemma {:induction false} ClaimedScoreFacts(sc: PerPlayer<int>, won: seq<Cell>, tr: map<Cell, Treasure>, arts: map<Cell, Artifact>, p: Player)
    ensures var r := ClaimedScore(sc, won, tr, arts, p);
      && r.zero + r.one == sc.zero + sc.one + TreasureSum(won, tr)
      && r.At(p) >= sc.At(p) + TreasureSum(won, tr)
      && r.At(Opponent(p)) <= sc.At(Opponent(p))
      && (sc.At(Opponent(p)) >= 0 ==> r.At(Opponent(p)) >= 0)
      && (CountArtifact(won, ElifArtifacts(tr, arts), Gauntlet) == 0 ==> r == sc.With(p, sc.At(p) + TreasureSum(won, tr)))
    decreases |won|
  {
    if won != [] {
      var init := won[..|won| - 1];
      ClaimedScoreFacts(sc, init, tr, arts, p);
      var prev := ClaimedScore(sc, init, tr, arts, p);
      var c := won[|won| - 1];
      if CountArtifact(won, ElifArtifacts(tr, arts), Gauntlet) == 0 {
        assert CountArtifact(init, ElifArtifacts(tr, arts), Gauntlet) == 0;
        assert !(c in ElifArtifacts(tr, arts) && ElifArtifacts(tr, arts)[c] == Gauntlet);
        PerPlayerExt(ScoreStep(prev, c, tr, arts, p), sc.With(p, sc.At(p) + TreasureSum(won, tr)), p);
      }
    }
  }

  /** Claiming a cell whose only item is a gauntlet takes min(3, opponent score) from an opponent with points. */
  lemma GauntletClaimSteals(sc: PerPlayer<int>, c: Cell, tr: map<Cell, Treasure>, arts: map<Cell, Artifact>, p: Player)
    requires c !in tr && c in arts && arts[c] == Gauntlet && sc.At(Opponent(p)) > 0
    ensures var steal := if sc.At(Opponent(p)) < 3 then sc.At(Opponent(p)) else 3;
      var r := ClaimedScore(sc, [c], tr, arts, p);
      r.At(p) == sc.At(p) + steal && r.At(Opponent(p)) == sc.At(Opponent(p)) - steal
  {
    assert [c][..0] == [];
  }

  /** A legal compass pick: `from` is an opponent cell and `to` a cell of `p`. */
  predicate SwapPick(cells: map<Cell, int>, p: Player, from: Cell, to: Cell) {
    from in cells && cells[from] == Opponent(p) && to in cells && cells[to] == p
  }

  /** The compass swap keeps the owner map's keys, which cells are claimed, and both players' counts. */
  lemma SwapKeepsCounts(cells: map<Cell, int>, p: Player, from: Cell, to: Cell)
    requires SwapPick(cells, p, from, to)
    ensures var after := cells[from := p][to := Opponent(p)];
      && after.Keys == cells.Keys
      && (forall c :: c in cells ==> (after[c] != UNCLAIMED <==> cells[c] != UNCLAIMED))
      && OwnedCount(after, p) == OwnedCount(cells, p)
      && OwnedCount(after, Opponent(p)) == OwnedCount(cells, Opponent(p))
  {
    var after := cells[from := p][to := Opponent(p)];
    var mine := set c | c in cells && cells[c] == p;
    var theirs := set c | c in cells && cells[c] == Opponent(p);
    assert (set c | c in after && after[c] == p) == mine - {to} + {from};
    assert (set c | c in after && after[c] == Opponent(p)) == theirs - {from} + {to};
  }

  /**
   * What claiming the cells `won` from `g` leaves fixed, whatever the
   * compass picks: the claimed cells, the counts, and the exact owners
   * while no compass was revealed; the exact scores (ClaimedScore); items
   * recorded treasure-first.
   */
  ghost predicate ClaimsDone(s: Game, g: Game, p: Player, won: seq<Cell>) {
    ClaimsCells(s, g, p, won) && ClaimsScore(s, g, p, won) && ClaimsItems(s, g, won)
  }

  /** The owner map after the claims: same keys, claimed cells, counts, and the exact map while no compass was revealed. */
  ghost predicate ClaimsCells(s: Game, g: Game, p: Player, won: seq<Cell>) {
    var cells0 := g.board.cells;
    && s.board.cells.Keys == cells0.Keys
    && (forall c :: c in cells0 ==> (s.board.cells[c] != UNCLAIMED <==> cells0[c] != UNCLAIMED || c in won))
    && OwnedCount(s.board.cells, p) == OwnedCount(cells0, p) + |won|
    && OwnedCount(s.board.cells, Opponent(p)) == OwnedCount(cells0, Opponent(p))
    && (CountArtifact(won, ElifArtifacts(g.items.treasures, g.items.artifacts), Compass) == 0 ==> s.board.cells == ClaimAll(cells0, won, p))
  }

  /** The scores after the claims: each claimed cell's treasure or gauntlet applied in order. */
  ghost predicate ClaimsScore(s: Game, g: Game, p: Player, won: seq<Cell>) {
    s.board.score == ClaimedScore(g.board.score, won, g.items.treasures, g.items.artifacts, p)
  }

  /** The items after the claims: only the record of revealed items grows, treasure-first. */
  ghost predicate ClaimsItems(s: Game, g: Game, won: seq<Cell>) {
    s.items == g.items.(claimedItems := Reveal(g.items.claimedItems, won, g.items.treasures, g.items.artifacts, false))
  }

  /**
   * The owners after claiming `cell` for `p` from `cells`: the cell becomes
   * `p`'s, and when its item is a compass (a treasure on the same cell
   * shadows it) and both players own cells, one opponent cell and one cell
   * of `p`, whichever are picked, trade owners.
   */
  ghost predicate ClaimStep(cells: map<Cell, int>, cell: Cell, p: Player, tr: map<Cell, Treasure>, arts: map<Cell, Artifact>, after: map<Cell, int>) {
    var claimed := cells[cell := p];
    var elif := ElifArtifacts(tr, arts);
    if cell in elif && elif[cell] == Compass
       && (exists c | c in claimed :: claimed[c] == Opponent(p)) && (exists c | c in claimed :: claimed[c] == p)
    then exists from, to | SwapPick(claimed, p, from, to) :: after == claimed[from := p][to := Opponent(p)]
    else after == claimed
  }

  /** The owners after claiming the cells `won` in order from `cells0`, each by ClaimStep. */
  ghost predicate OwnersAfter(cells0: map<Cell, int>, won: seq<Cell>, p: Player, tr: map<Cell, Treasure>, arts: map<Cell, Artifact>, cells: map<Cell, int>)
    decreases |won|
  {
    if won == [] then cells == cells0
    else
      var init, last := won[..|won| - 1], won[|won| - 1];
      exists mid :: OwnersAfter(cells0, init, p, tr, arts, mid) && ClaimStep(mid, last, p, tr, arts, cells)
  }

  /** One more ClaimStep extends OwnersAfter by that cell. */
  lemma OwnersSnoc(cells0: map<Cell, int>, won: seq<Cell>, cell: Cell, p: Player, tr: map<Cell, Treasure>, arts: map<Cell, Artifact>,
                   mid: map<Cell, int>, cells: map<Cell, int>)
    requires OwnersAfter(cells0, won, p, tr, arts, mid) && ClaimStep(mid, cell, p, tr, arts, cells)
    ensures OwnersAfter(cells0, won + [cell], p, tr, arts, cells)
  {
    assert (won + [cell])[..|won|] == won;
  }

  /** Without a compass among the claimed cells, OwnersAfter is the plain map that gives each of them to `p`. */
  lemma {:induction false} OwnersWithoutCompass(cells0: map<Cell, int>, won: seq<Cell>, p: Player, tr: map<Cell, Treasure>, arts: map<Cell, Artifact>,
                                                cells: map<Cell, int>)
    requires forall c | c in won :: c in cells0
    requires CountArtifact(won, ElifArtifacts(tr, arts), Compass) == 0
    requires OwnersAfter(cells0, won, p, tr, arts, cells)
    ensures cells == ClaimAll(cells0, won, p)
    decreases |won|
  {
    if won == [] {
      assert ClaimAll(cells0, won, p) == cells0;
    } else {
      var init, last := won[..|won| - 1], won[|won| - 1];
      var mid :| OwnersAfter(cells0, init, p, tr, arts, mid) && ClaimStep(mid, last, p, tr, arts, cells);
      OwnersWithoutCompass(cells0, init, p, tr, arts, mid);
      assert ClaimAll(cells0, init, p)[last := p] == ClaimAll(cells0, won, p);
    }
  }

  /**
   * apply_move of second_code. A drawn edge gives back the state unchanged
   * and no extra turn. Otherwise only the edge changes (to `player`),
   * last_move is set, the claims of the completed adjacent cells satisfy
   * ClaimsDone whatever the compass picks, and the turn passes exactly when
   * nothing was claimed.
   */
  method ApplyMove(t: Topology, g: Game, move: Edge, player: Player) returns (next: Game, extraTurn: bool)
    requires TopologyWF(t) && GameWF(t, g) && move in t.edgeCells
    ensures g.board.edges[move] != UNCLAIMED ==> next == g && !extraTurn
    ensures g.board.edges[move] == UNCLAIMED ==>
      var edges' := g.board.edges[move := player];
      var won := Won(t, g.board.cells, edges', t.edgeCells[move]);
      && next.board.edges == edges'
      && next.board.lastMove == Some(move)
      && ClaimsDone(next, g, player, won)
      && OwnersAfter(g.board.cells, won, player, g.items.treasures, g.items.artifacts, next.board.cells)
      && (extraTurn <==> |won| > 0)
      && next.board.turn == (if extraTurn then g.board.turn else Opponent(player))
  {
    var s := g;
    if s.board.edges[move] != UNCLAIMED {
      return s, false;
    }
    s := s.(board := s.board.(edges := s.board.edges[move := player]));
    s := s.(board := s.board.(lastMove := Some(move)));
    s, extraTurn := ClaimAround(t, g, s, t.edgeCells[move], player);
    if !extraTurn {
      s := s.(board := s.board.(turn := Opponent(player)));
    }
    next := s;
  }

  /**
   * The loop of apply_move over the cells next to the drawn edge: every
   * claimable one is claimed by ClaimCell, in order, and an extra turn is
   * earned exactly when one was.
   */
  method ClaimAround(t: Topology, g: Game, s0: Game, adj: seq<Cell>, player: Player) returns (s: Game, extraTurn: bool)
    requires Distinct(adj) && forall c | c in adj :: c in g.board.cells && c in t.cellEdges
    requires s0.board == g.board.(edges := s0.board.edges, lastMove := s0.board.lastMove) && s0.items == g.items
    ensures var won := Won(t, g.board.cells, s0.board.edges, adj);
      && s.board.edges == s0.board.edges && s.board.lastMove == s0.board.lastMove && s.board.turn == g.board.turn
      && ClaimsDone(s, g, player, won)
      && OwnersAfter(g.board.cells, won, player, g.items.treasures, g.items.artifacts, s.board.cells)
      && (extraTurn <==> |won| > 0)
  {
    s := s0;
    extraTurn := false;
    ghost var edges' := s0.board.edges;
    ghost var cells0 := g.board.cells;
    var i := 0;
    ghost var won: seq<Cell> := [];
    assert ClaimAll(cells0, [], player) == cells0;
    while i < |adj|
      invariant 0 <= i <= |adj| && won == Won(t, cells0, edges', adj[..i])
      invariant s.board.edges == edges' && s.board.lastMove == s0.board.lastMove && s.board.turn == g.board.turn
      invariant ClaimsDone(s, g, player, won)
      invariant OwnersAfter(cells0, won, player, g.items.treasures, g.items.artifacts, s.board.cells)
      invariant extraTurn <==> |won| > 0
    {
      var cell := adj[i];
      WonStep(t, cells0, edges', adj, i);
      WonMembership(t, cells0, edges', adj[..i], cell);
      assert cell !in adj[..i];
      UnclaimedOutsideClaims(s, g, player, won, cell);
      ghost var won' := Won(t, cells0, edges', adj[..i + 1]);
      if s.board.cells[cell] == UNCLAIMED && AllDrawn(s.board.edges, t.cellEdges[cell]) {
        assert won' == won + [cell];
        ghost var mid := s.board.cells;
        s := ClaimCell(s, cell, player, g, won);
        OwnersSnoc(cells0, won, cell, player, g.items.treasures, g.items.artifacts, mid, s.board.cells);
        extraTurn := true;
      } else {
        assert won' == won;
      }
      won := won';
      i := i + 1;
    }
    assert adj[..i] == adj;
  }

  /** A cell outside the claims is unclaimed exactly when it was at the start, whatever the compass did. */
  lemma UnclaimedOutsideClaims(s: Game, g: Game, p: Player, won: seq<Cell>, c: Cell)
    requires ClaimsCells(s, g, p, won) && c in g.board.cells && c !in won
    ensures c in s.board.cells && (s.board.cells[c] == UNCLAIMED <==> g.board.cells[c] == UNCLAIMED)
  {
  }

  /**
   * Claiming one more cell keeps ClaimsDone: its owner becomes `p`, its
   * ScoreStep is applied, and its item is recorded treasure-first.
   */
  lemma ClaimsDoneClaim(s: Game, next: Game, g: Game, p: Player, before: seq<Cell>, cell: Cell)
    requires ClaimsDone(s, g, p, before)
    requires cell in g.board.cells && g.board.cells[cell] == UNCLAIMED && cell !in before
    requires next.board == s.board.(cells := s.board.cells[cell := p],
                                    score := ScoreStep(s.board.score, cell, g.items.treasures, g.items.artifacts, p))
    requires next.items == s.items.(claimedItems := match Revealed(g.items.treasures, g.items.artifacts, cell, false)
                                                    case Some(x) => s.items.claimedItems[cell := x]
                                                    case None => s.items.claimedItems)
    ensures ClaimsDone(next, g, p, before + [cell])
  {
    ClaimCells(s, next, g, p, before, cell);
    ClaimScore(s, next, g, p, before, cell);
    ClaimItems(s, next, g, p, before, cell);
  }

  /** The owner-map part of ClaimsDoneClaim. */
  lemma ClaimCells(s: Game, next: Game, g: Game, p: Player, before: seq<Cell>, cell: Cell)
    requires ClaimsDone(s, g, p, before)
    requires cell in g.board.cells && g.board.cells[cell] == UNCLAIMED && cell !in before
    requires next.board == s.board.(cells := s.board.cells[cell := p],
                                    score := ScoreStep(s.board.score, cell, g.items.treasures, g.items.artifacts, p))
    requires next.items == s.items.(claimedItems := match Revealed(g.items.treasures, g.items.artifacts, cell, false)
                                                    case Some(x) => s.items.claimedItems[cell := x]
                                                    case None => s.items.claimedItems)
    ensures ClaimsCells(next, g, p, before + [cell])
  {
    var it := g.items;
    var elif := ElifArtifacts(it.treasures, it.artifacts);
    SnocFolds(before, cell, it.treasures, elif, Compass, it.claimedItems, false, 0, None);
    ClaimOneCounts(s.board.cells, cell, p);
    if CountArtifact(before, elif, Compass) == 0 {
      ClaimAllStep(g.board.cells, before, cell, p);
    }
  }

  /** The score part of ClaimsDoneClaim. */
  lemma ClaimScore(s: Game, next: Game, g: Game, p: Player, before: seq<Cell>, cell: Cell)
    requires ClaimsDone(s, g, p, before)
    requires cell in g.board.cells && g.board.cells[cell] == UNCLAIMED && cell !in before
    requires next.board == s.board.(cells := s.board.cells[cell := p],
                                    score := ScoreStep(s.board.score, cell, g.items.treasures, g.items.artifacts, p))
    requires next.items == s.items.(claimedItems := match Revealed(g.items.treasures, g.items.artifacts, cell, false)
                                                    case Some(x) => s.items.claimedItems[cell := x]
                                                    case None => s.items.claimedItems)
    ensures ClaimsScore(next, g, p, before + [cell])
  {
    assert (before + [cell])[..|before|] == before;
  }

  /** The item part of ClaimsDoneClaim. */
  lemma ClaimItems(s: Game, next: Game, g: Game, p: Player, before: seq<Cell>, cell: Cell)
    requires ClaimsDone(s, g, p, before)
    requires cell in g.board.cells && g.board.cells[cell] == UNCLAIMED && cell !in before
    requires next.board == s.board.(cells := s.board.cells[cell := p],
                                    score := ScoreStep(s.board.score, cell, g.items.treasures, g.items.artifacts, p))
    requires next.items == s.items.(claimedItems := match Revealed(g.items.treasures, g.items.artifacts, cell, false)
                                                    case Some(x) => s.items.claimedItems[cell := x]
                                                    case None => s.items.claimedItems)
    ensures ClaimsItems(next, g, before + [cell])
  {
    var it := g.items;
    SnocFolds(before, cell, it.treasures, it.artifacts, Compass, it.claimedItems, false, 0, None);
  }

  /** A compass swap after a compass was revealed keeps ClaimsDone. */
  lemma ClaimsDoneSwap(s: Game, g: Game, p: Player, won: seq<Cell>, from: Cell, to: Cell)
    requires ClaimsDone(s, g, p, won) && SwapPick(s.board.cells, p, from, to)
    requires CountArtifact(won, ElifArtifacts(g.items.treasures, g.items.artifacts), Compass) > 0
    ensures ClaimsDone(s.(board := s.board.(cells := s.board.cells[from := p][to := Opponent(p)])), g, p, won)
  {
    SwapKeepsCounts(s.board.cells, p, from, to);
  }

  /**
   * The body of the claiming branch: the cell becomes `player`'s; a
   * treasure adds its value and is recorded; otherwise an artifact is
   * recorded and a gauntlet steals or a compass swaps two owners.
   */
  method ClaimCell(s: Game, cell: Cell, player: Player, ghost g: Game, ghost before: seq<Cell>) returns (next: Game)
    requires cell in g.board.cells && g.board.cells[cell] == UNCLAIMED && cell !in before
    requires ClaimsDone(s, g, player, before)
    ensures ClaimsDone(next, g, player, before + [cell])
    ensures ClaimStep(s.board.cells, cell, player, g.items.treasures, g.items.artifacts, next.board.cells)
    ensures next.board.(cells := s.board.cells, score := s.board.score) == s.board
  {
    var opponent := Opponent(player);
    ghost var won := before + [cell];
    ghost var elif := ElifArtifacts(g.items.treasures, g.items.artifacts);
    assert s.items.treasures == g.items.treasures && s.items.artifacts == g.items.artifacts;
    next := s;
    next := next.(board := next.board.(cells := next.board.cells[cell := player]));
    if cell in next.items.treasures {
      var tv := next.items.treasures[cell];
      next := next.(board := next.board.(score := next.board.score.With(player, next.board.score.At(player) + TreasureValue(tv))));
      next := next.(items := next.items.(claimedItems := next.items.claimedItems[cell := TreasureItem(tv)]));
      ClaimsDoneClaim(s, next, g, player, before, cell);
    } else if cell in next.items.artifacts {
      var a := next.items.artifacts[cell];
      next := next.(items := next.items.(claimedItems := next.items.claimedItems[cell := ArtifactItem(a)]));
      if a == Gauntlet {
        next := next.(board := next.board.(score := GauntletSteal(next.board.score, player)));
      }
      ClaimsDoneClaim(s, next, g, player, before, cell);
      if a == Compass {
        SnocFolds(before, cell, g.items.treasures, elif, a, g.items.claimedItems, false, 0, None);
        var cells := next.board.cells;
        if (exists c | c in cells :: cells[c] == opponent) && (exists c | c in cells :: cells[c] == player) {
          var swapFrom :| swapFrom in cells && cells[swapFrom] == opponent;
          var swapTo :| swapTo in cells && cells[swapTo] == player;
          ClaimsDoneSwap(next, g, player, won, swapFrom, swapTo);
          assert SwapPick(cells, player, swapFrom, swapTo);
          next := next.(board := next.board.(cells := cells[swapFrom := player][swapTo := opponent]));
        }
      }
    } else {
      ClaimsDoneClaim(s, next, g, player, before, cell);
    }
  }
}
