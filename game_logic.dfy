/**
 * The rules of the top-level game_logic.py, the richest item variant:
 * apply_move first ages a held gauntlet, then draws the edge without a
 * validity check, claims completed cells for one point plus their treasure,
 * picks up artifacts (hourglass banks a bonus turn, gauntlet starts a
 * five-move lifetime, compass records its source cell), spends a banked
 * bonus when nothing was claimed, and passes the turn otherwise.
 * use_gauntlet and use_compass change the state object in place.
 */
module GameLogic {
  import opened HexGrid
  import opened ItemLayer

  /** The gauntlet lifetime is five of its holder's moves. */
  const GAUNTLET_LIFETIME: int := 5

  /**
   * The first step of apply_move: a held gauntlet with time left loses one
   * unit; at zero it expires, leaving the artifact and claimed-item maps
   * and clearing availability and the source cell.
   */
  function Tick(it: Items, p: Player): Items {
    if it.gauntletAvailable.At(p) && it.gauntletTimer.At(p) > 0 then
      var left := it.gauntletTimer.At(p) - 1;
      var it1 := it.(gauntletTimer := it.gauntletTimer.With(p, left));
      if left == 0 then
        var cell0 := it.gauntletCell.At(p);
        it1.(artifacts := Pop(it1.artifacts, cell0),
             claimedItems := Pop(it1.claimedItems, cell0),
             gauntletAvailable := it1.gauntletAvailable.With(p, false),
             gauntletCell := it1.gauntletCell.With(p, None))
      else it1
    else it
  }

  /** Picking up artifact `a` from cell `c`: recorded, then its kind's effect. */
  function PickUp(it: Items, c: Cell, p: Player, a: Artifact): Items {
    var it1 := it.(claimedItems := it.claimedItems[c := ArtifactItem(a)]);
    match a
    case Hourglass => it1.(hourglassBonus := it1.hourglassBonus.With(p, it1.hourglassBonus.At(p) + 1))
    case Gauntlet => it1.(gauntletAvailable := it1.gauntletAvailable.With(p, true),
                          gauntletTimer := it1.gauntletTimer.With(p, GAUNTLET_LIFETIME),
                          gauntletCell := it1.gauntletCell.With(p, Some(c)),
                          artifacts := it1.artifacts - {c})
    case Compass => it1.(compassAvailable := it1.compassAvailable.With(p, true),
                         compassCell := it1.compassCell.With(p, Some(c)))
  }

  /** Claiming one completed cell: owner, one point plus its treasure, then its artifact. */
  function ClaimStep(g: Game, c: Cell, p: Player): Game {
    var it := g.items;
    var b1 := g.board.(cells := g.board.cells[c := p],
                       score := g.board.score.With(p, g.board.score.At(p) + 1 + TreasureAt(it.treasures, c)));
    var it1 := if c in it.treasures
               then it.(claimedItems := it.claimedItems[c := TreasureItem(it.treasures[c])],
                        lastTreasureValue := it.lastTreasureValue.With(p, TreasureValue(it.treasures[c])))
               else it;
    Game(b1, if c in it.artifacts then PickUp(it1, c, p, it.artifacts[c]) else it1)
  }

  /** The state after the cells `won` are claimed in order from `g`. */
  function RootClaims(g: Game, won: seq<Cell>, p: Player): Game
    decreases |won|
  {
    if won == [] then g else ClaimStep(RootClaims(g, won[..|won| - 1], p), won[|won| - 1], p)
  }

  /** The state apply_move scans the cells from: gauntlet aged, edge drawn, last_move set. */
  function Drawn1(g: Game, move: Edge, p: Player): Game {
    Game(g.board.(edges := g.board.edges[move := p], lastMove := Some(move)), Tick(g.items, p))
  }

  /** The cells this move claims, in the edge's adjacency order. */
  function RootWon(t: Topology, g: Game, move: Edge, p: Player): seq<Cell>
    requires move in t.edgeCells
  {
    var g1 := Drawn1(g, move, p);
    Won(t, g1.board.cells, g1.board.edges, t.edgeCells[move])
  }

  /** The reference definition of apply_move. */
  function RootApply(t: Topology, g: Game, move: Edge, p: Player): (Game, bool)
    requires GameWF(t, g) && move in t.edgeCells
  {
    var won := RootWon(t, g, move, p);
    var g2 := RootClaims(Drawn1(g, move, p), won, p);
    var spend := |won| == 0 && g2.items.hourglassBonus.At(p) > 0;
    var g3 := if spend then g2.(items := g2.items.(hourglassBonus := g2.items.hourglassBonus.With(p, g2.items.hourglassBonus.At(p) - 1))) else g2;
    var extra := |won| > 0 || spend;
    (if extra then g3 else g3.(board := g3.board.(turn := Opponent(p))), extra)
  }

  /**
   * Claiming the cells `won` of the board gives each of them to `p` and
   * scores one point plus its treasure per cell; nothing else on the board
   * and no treasure moves.
   */
  lemma RootClaimsBoard(g: Game, won: seq<Cell>, p: Player)
    requires forall c :: c in won ==> c in g.board.cells
    ensures var r := RootClaims(g, won, p);
      && r.board == g.board.(cells := ClaimAll(g.board.cells, won, p),
                             score := g.board.score.With(p, g.board.score.At(p) + |won| + TreasureSum(won, g.items.treasures)))
      && r.items.treasures == g.items.treasures
  {
    RootClaimsCells(g, won, p);
    RootClaimsScore(g, won, p);
  }

  /** The owners after the claims; no other board field and no treasure moves. */
  lemma {:induction false} RootClaimsCells(g: Game, won: seq<Cell>, p: Player)
    requires forall c :: c in won ==> c in g.board.cells
    ensures var r := RootClaims(g, won, p);
      && r.board.(score := g.board.score) == g.board.(cells := ClaimAll(g.board.cells, won, p))
      && r.items.treasures == g.items.treasures
    decreases |won|
  {
    if won == [] {
      assert ClaimAll(g.board.cells, won, p) == g.board.cells;
    } else {
      var init := won[..|won| - 1];
      var c := won[|won| - 1];
      assert won == init + [c];
      RootClaimsCells(g, init, p);
      ClaimStepBoard(RootClaims(g, init, p), c, p);
      assert ClaimAll(g.board.cells, init, p)[c := p] == ClaimAll(g.board.cells, won, p);
    }
  }

  /** The scores after the claims: one point plus the treasure per claimed cell for `p`. */
  lemma {:induction false} RootClaimsScore(g: Game, won: seq<Cell>, p: Player)
    ensures var r := RootClaims(g, won, p);
      && r.board.score == g.board.score.With(p, g.board.score.At(p) + |won| + TreasureSum(won, g.items.treasures))
      && r.items.treasures == g.items.treasures
    decreases |won|
  {
    if won != [] {
      var init := won[..|won| - 1];
      var c := won[|won| - 1];
      var tr := g.items.treasures;
      RootClaimsScore(g, init, p);
      ClaimStepBoard(RootClaims(g, init, p), c, p);
      assert TreasureSum(won, tr) == TreasureSum(init, tr) + TreasureAt(tr, c);
      WithTwice(g.board.score, p, g.board.score.At(p) + |init| + TreasureSum(init, tr),
                g.board.score.At(p) + |won| + TreasureSum(won, tr));
    }
  }

  /** One claim on the board: the cell goes to `p`, who scores one point plus its treasure. */
  lemma ClaimStepBoard(g: Game, c: Cell, p: Player)
    ensures ClaimStep(g, c, p).board
         == g.board.(cells := g.board.cells[c := p],
                     score := g.board.score.With(p, g.board.score.At(p) + 1 + TreasureAt(g.items.treasures, c)))
    ensures ClaimStep(g, c, p).items.treasures == g.items.treasures
  {
  }

  /**
   * Claiming the distinct cells `won` records each one's item (an artifact
   * over a treasure), leaves the last treasure value of the last treasure
   * claimed, and takes out of the artifact map exactly the gauntlets picked up.
   */
  lemma {:induction false} RootClaimsRecords(g: Game, won: seq<Cell>, p: Player)
    requires Distinct(won)
    ensures var r := RootClaims(g, won, p); var it := g.items;
      && r.items.artifacts == DropArtifact(it.artifacts, won, Gauntlet)
      && r.items.claimedItems == Reveal(it.claimedItems, won, it.treasures, it.artifacts, true)
      && r.items.lastTreasureValue == it.lastTreasureValue.With(p, LastTreasure(won, it.treasures, it.lastTreasureValue.At(p)))
      && r.items.treasures == it.treasures
    decreases |won|
  {
    var it := g.items;
    if won == [] {
      assert DropArtifact(it.artifacts, won, Gauntlet) == it.artifacts;
    } else {
      var init := won[..|won| - 1];
      var c := won[|won| - 1];
      assert c !in init by {
        assert won == init + [c];
      }
      RootClaimsRecords(g, init, p);
      var r0 := RootClaims(g, init, p);
      assert RootClaims(g, won, p) == ClaimStep(r0, c, p);
      ClaimStepRecords(r0, c, p);
      DropArtifactStep(it.artifacts, init, c, Gauntlet);
      assert won == init + [c];
      assert Revealed(it.treasures, r0.items.artifacts, c, true) == Revealed(it.treasures, it.artifacts, c, true);
      assert DropArtifact(it.artifacts, won, Gauntlet)
          == if c in it.artifacts && it.artifacts[c] == Gauntlet then r0.items.artifacts - {c} else r0.items.artifacts;
    }
  }

  /** One claim on the records: the revealed item, a picked-up gauntlet leaving the map, the treasure value. */
  lemma ClaimStepRecords(g: Game, c: Cell, p: Player)
    ensures var it := g.items; var r := ClaimStep(g, c, p).items;
      && r.artifacts == (if c in it.artifacts && it.artifacts[c] == Gauntlet then it.artifacts - {c} else it.artifacts)
      && r.claimedItems == (match Revealed(it.treasures, it.artifacts, c, true)
                            case Some(x) => it.claimedItems[c := x]
                            case None => it.claimedItems)
      && r.lastTreasureValue == (if c in it.treasures then it.lastTreasureValue.With(p, TreasureValue(it.treasures[c]))
                                 else it.lastTreasureValue)
      && r.treasures == it.treasures
  {
  }

  /** One claim on the trackers: the effect of the artifact on `c`, if any. */
  lemma ClaimStepAbilities(g: Game, c: Cell, p: Player)
    ensures var it := g.items; var r := ClaimStep(g, c, p).items;
      var has := (a: Artifact) => c in it.artifacts && it.artifacts[c] == a;
      && r.hourglassBonus == (if has(Hourglass) then it.hourglassBonus.With(p, it.hourglassBonus.At(p) + 1) else it.hourglassBonus)
      && r.gauntletAvailable == (if has(Gauntlet) then it.gauntletAvailable.With(p, true) else it.gauntletAvailable)
      && r.gauntletTimer == (if has(Gauntlet) then it.gauntletTimer.With(p, GAUNTLET_LIFETIME) else it.gauntletTimer)
      && r.gauntletCell == (if has(Gauntlet) then it.gauntletCell.With(p, Some(c)) else it.gauntletCell)
      && r.compassAvailable == (if has(Compass) then it.compassAvailable.With(p, true) else it.compassAvailable)
      && r.compassCell == (if has(Compass) then it.compassCell.With(p, Some(c)) else it.compassCell)
  {
  }

  /** The artifact the last claimed cell shows is the one it was dealt: only gauntlets of earlier claims left the map. */
  lemma ArtifactStillThere(g: Game, won: seq<Cell>, p: Player, a: Artifact)
    requires Distinct(won) && won != []
    ensures var c := won[|won| - 1]; var arts := g.items.artifacts;
      var arts0 := RootClaims(g, won[..|won| - 1], p).items.artifacts;
      (c in arts0 && arts0[c] == a) <==> (c in arts && arts[c] == a)
  {
    var init := won[..|won| - 1];
    var c := won[|won| - 1];
    assert won == init + [c];
    assert c !in init;
    RootClaimsRecords(g, init, p);
    DropArtifactStep(g.items.artifacts, init, c, Gauntlet);
  }

  lemma {:induction false} RootClaimsHourglass(g: Game, won: seq<Cell>, p: Player)
    requires Distinct(won)
    ensures var r := RootClaims(g, won, p); var it := g.items;
      r.items.hourglassBonus == it.hourglassBonus.With(p, it.hourglassBonus.At(p) + CountArtifact(won, it.artifacts, Hourglass))
    decreases |won|
  {
    if won != [] {
      var init := won[..|won| - 1];
      var c := won[|won| - 1];
      RootClaimsHourglass(g, init, p);
      ClaimStepAbilities(RootClaims(g, init, p), c, p);
      ArtifactStillThere(g, won, p, Hourglass);
    }
  }

  lemma {:induction false} RootClaimsGauntlet(g: Game, won: seq<Cell>, p: Player)
    requires Distinct(won)
    ensures var r := RootClaims(g, won, p); var it := g.items; var arts := it.artifacts;
      var gotGauntlet := CountArtifact(won, arts, Gauntlet) > 0;
      && r.items.gauntletAvailable == it.gauntletAvailable.With(p, it.gauntletAvailable.At(p) || gotGauntlet)
      && r.items.gauntletTimer == it.gauntletTimer.With(p, if gotGauntlet then GAUNTLET_LIFETIME else it.gauntletTimer.At(p))
      && r.items.gauntletCell == it.gauntletCell.With(p, LastArtifactCell(won, arts, Gauntlet, it.gauntletCell.At(p)))
    decreases |won|
  {
    if won != [] {
      var init := won[..|won| - 1];
      var c := won[|won| - 1];
      RootClaimsGauntlet(g, init, p);
      ClaimStepAbilities(RootClaims(g, init, p), c, p);
      ArtifactStillThere(g, won, p, Gauntlet);
    }
  }

  lemma {:induction false} RootClaimsCompass(g: Game, won: seq<Cell>, p: Player)
    requires Distinct(won)
    ensures var r := RootClaims(g, won, p); var it := g.items; var arts := it.artifacts;
      && r.items.compassAvailable == it.compassAvailable.With(p, it.compassAvailable.At(p) || CountArtifact(won, arts, Compass) > 0)
      && r.items.compassCell == it.compassCell.With(p, LastArtifactCell(won, arts, Compass, it.compassCell.At(p)))
    decreases |won|
  {
    if won != [] {
      var init := won[..|won| - 1];
      var c := won[|won| - 1];
      RootClaimsCompass(g, init, p);
      ClaimStepAbilities(RootClaims(g, init, p), c, p);
      ArtifactStillThere(g, won, p, Compass);
    }
  }

  /**
   * Claiming the distinct cells `won` banks one bonus turn per hourglass
   * and, when a gauntlet or compass is among them, makes that ability
   * available with the last such cell as its source (a gauntlet with a full
   * lifetime); the other player's trackers do not move.
   */
  lemma RootClaimsAbilities(g: Game, won: seq<Cell>, p: Player)
    requires Distinct(won)
    ensures var r := RootClaims(g, won, p); var it := g.items; var arts := it.artifacts;
      var gotGauntlet := CountArtifact(won, arts, Gauntlet) > 0;
      && r.items.hourglassBonus == it.hourglassBonus.With(p, it.hourglassBonus.At(p) + CountArtifact(won, arts, Hourglass))
      && r.items.gauntletAvailable == it.gauntletAvailable.With(p, it.gauntletAvailable.At(p) || gotGauntlet)
      && r.items.gauntletTimer == it.gauntletTimer.With(p, if gotGauntlet then GAUNTLET_LIFETIME else it.gauntletTimer.At(p))
      && r.items.gauntletCell == it.gauntletCell.With(p, LastArtifactCell(won, arts, Gauntlet, it.gauntletCell.At(p)))
      && r.items.compassAvailable == it.compassAvailable.With(p, it.compassAvailable.At(p) || CountArtifact(won, arts, Compass) > 0)
      && r.items.compassCell == it.compassCell.With(p, LastArtifactCell(won, arts, Compass, it.compassCell.At(p)))
  {
    RootClaimsHourglass(g, won, p);
    RootClaimsGauntlet(g, won, p);
    RootClaimsCompass(g, won, p);
  }

  /**
   * One step of the scan: the next cell is not among those claimed so far,
   * the state after them still has its original owner and the drawn edges,
   * and Won grows by it exactly when it is claimable.
   */
  lemma ClaimAroundStep(t: Topology, g1: Game, adj: seq<Cell>, i: nat, p: Player)
    requires i < |adj| && Distinct(adj) && forall c | c in adj :: c in g1.board.cells
    ensures var won := Won(t, g1.board.cells, g1.board.edges, adj[..i]); var s := RootClaims(g1, won, p);
      && adj[i] !in won
      && adj[i] in s.board.cells && s.board.cells[adj[i]] == g1.board.cells[adj[i]] && s.board.edges == g1.board.edges
      && Won(t, g1.board.cells, g1.board.edges, adj[..i + 1])
         == won + (if Claimable(t, g1.board.cells, g1.board.edges, adj[i]) then [adj[i]] else [])
      && (won + [adj[i]])[..|won|] == won
  {
    var cells0, edges0 := g1.board.cells, g1.board.edges;
    var won := Won(t, cells0, edges0, adj[..i]);
    WonStep(t, cells0, edges0, adj, i);
    WonMembership(t, cells0, edges0, adj[..i], adj[i]);
    assert adj[i] !in adj[..i];
    forall c | c in won ensures c in cells0 {
      WonMembership(t, cells0, edges0, adj[..i], c);
    }
    RootClaimsBoard(g1, won, p);
    ClaimAllStep(cells0, won, adj[i], p);
  }

  /**
   * The loop of apply_move over the cells next to the drawn edge: every
   * claimable one is claimed by ClaimCell, in order, and an extra turn is
   * earned exactly when one was.
   */
  method ClaimAround(t: Topology, g1: Game, adj: seq<Cell>, player: Player) returns (s: Game, extraTurn: bool)
    requires Distinct(adj) && forall c | c in adj :: c in g1.board.cells && c in t.cellEdges
    ensures s == RootClaims(g1, Won(t, g1.board.cells, g1.board.edges, adj), player)
    ensures extraTurn <==> |Won(t, g1.board.cells, g1.board.edges, adj)| > 0
  {
    s := g1;
    extraTurn := false;
    ghost var cells0 := g1.board.cells;
    ghost var edges0 := g1.board.edges;
    var i := 0;
    ghost var won: seq<Cell> := [];
    while i < |adj|
      invariant 0 <= i <= |adj| && won == Won(t, cells0, edges0, adj[..i])
      invariant s == RootClaims(g1, won, player)
      invariant extraTurn <==> |won| > 0
    {
      var cell := adj[i];
      ClaimAroundStep(t, g1, adj, i, player);
      ghost var won' := Won(t, cells0, edges0, adj[..i + 1]);
      if s.board.cells[cell] == UNCLAIMED && AllDrawn(s.board.edges, t.cellEdges[cell]) {
        assert won' == won + [cell];
        assert (won + [cell])[..|won|] == won;
        s := ClaimCell(s, cell, player);
        extraTurn := true;
      } else {
        assert won' == won;
      }
      won := won';
      i := i + 1;
    }
    assert adj[..i] == adj;
  }

  /** The body of the claiming branch: one completed cell is claimed, scored and its item taken. */
  method ClaimCell(s: Game, cell: Cell, player: Player) returns (next: Game)
    ensures next == ClaimStep(s, cell, player)
  {
    next := s;
    next := next.(board := next.board.(cells := next.board.cells[cell := player]));
    next := next.(board := next.board.(score := next.board.score.With(player, next.board.score.At(player) + 1)));
    if cell in next.items.treasures {
      var tr := next.items.treasures[cell];
      var v := TreasureValue(tr);
      next := next.(board := next.board.(score := next.board.score.With(player, next.board.score.At(player) + v)));
      next := next.(items := next.items.(claimedItems := next.items.claimedItems[cell := TreasureItem(tr)]));
      next := next.(items := next.items.(lastTreasureValue := next.items.lastTreasureValue.With(player, v)));
    }
    if cell in next.items.artifacts {
      var a := next.items.artifacts[cell];
      next := next.(items := next.items.(claimedItems := next.items.claimedItems[cell := ArtifactItem(a)]));
      if a == Hourglass {
        next := next.(items := next.items.(hourglassBonus := next.items.hourglassBonus.With(player, next.items.hourglassBonus.At(player) + 1)));
      } else if a == Gauntlet {
        next := next.(items := next.items.(gauntletAvailable := next.items.gauntletAvailable.With(player, true)));
        next := next.(items := next.items.(gauntletTimer := next.items.gauntletTimer.With(player, GAUNTLET_LIFETIME)));
        next := next.(items := next.items.(gauntletCell := next.items.gauntletCell.With(player, Some(cell))));
        next := next.(items := next.items.(artifacts := next.items.artifacts - {cell}));
      } else {
        next := next.(items := next.items.(compassAvailable := next.items.compassAvailable.With(player, true)));
        next := next.(items := next.items.(compassCell := next.items.compassCell.With(player, Some(cell))));
      }
    }
  }

  /** apply_move of game_logic.py: its result is RootApply. */
  method ApplyMove(t: Topology, g: Game, move: Edge, player: Player) returns (next: Game, extraTurn: bool)
    requires TopologyWF(t) && GameWF(t, g) && move in t.edgeCells
    ensures (next, extraTurn) == RootApply(t, g, move, player)
  {
    var s := g;
    if s.items.gauntletAvailable.At(player) && s.items.gauntletTimer.At(player) > 0 {
      s := s.(items := s.items.(gauntletTimer := s.items.gauntletTimer.With(player, s.items.gauntletTimer.At(player) - 1)));
      if s.items.gauntletTimer.At(player) == 0 {
        var cell0 := s.items.gauntletCell.At(player);
        s := s.(items := s.items.(artifacts := Pop(s.items.artifacts, cell0)));
        s := s.(items := s.items.(claimedItems := Pop(s.items.claimedItems, cell0)));
        s := s.(items := s.items.(gauntletAvailable := s.items.gauntletAvailable.With(player, false)));
        s := s.(items := s.items.(gauntletCell := s.items.gauntletCell.With(player, None)));
      }
    }
    assert s.items == Tick(g.items, player);
    s := s.(board := s.board.(edges := s.board.edges[move := player]));
    s := s.(board := s.board.(lastMove := Some(move)));
    assert s == Drawn1(g, move, player);
    assert forall c | c in t.edgeCells[move] :: c in s.board.cells && c in t.cellEdges;
    s, extraTurn := ClaimAround(t, s, t.edgeCells[move], player);
    if !extraTurn && s.items.hourglassBonus.At(player) > 0 {
      extraTurn := true;
      s := s.(items := s.items.(hourglassBonus := s.items.hourglassBonus.With(player, s.items.hourglassBonus.At(player) - 1)));
    }
    if !extraTurn {
      s := s.(board := s.board.(turn := Opponent(player)));
    }
    next := s;
  }

  // ------------------------------------------------- what apply_move does

  /** The cells a move claims are listed once, when the edge lists its cells once. */
  lemma RootWonDistinct(t: Topology, g: Game, move: Edge, p: Player)
    requires move in t.edgeCells && Distinct(t.edgeCells[move])
    ensures Distinct(RootWon(t, g, move, p))
  {
    var g1 := Drawn1(g, move, p);
    WonDistinct(t, g1.board.cells, g1.board.edges, t.edgeCells[move]);
  }

  /** The closed form of the state after the claims of one move. */
  lemma RootClaimsOfMove(t: Topology, g: Game, move: Edge, p: Player)
    requires GameWF(t, g) && move in t.edgeCells && Distinct(t.edgeCells[move])
    ensures var g1 := Drawn1(g, move, p); var won := RootWon(t, g, move, p);
      var r := RootClaims(g1, won, p);
      && r.board == g1.board.(cells := ClaimAll(g1.board.cells, won, p),
                              score := g1.board.score.With(p, g1.board.score.At(p) + |won| + TreasureSum(won, g1.items.treasures)))
      && Distinct(won)
      && (forall c :: c in won ==> c in g.board.cells && g.board.cells[c] == UNCLAIMED)
  {
    var g1 := Drawn1(g, move, p);
    var won := RootWon(t, g, move, p);
    assert g1.board.cells == g.board.cells && g1.board.edges == g.board.edges[move := p];
    assert won == Won(t, g.board.cells, g1.board.edges, t.edgeCells[move]);
    forall c | c in won ensures c in g.board.cells && g.board.cells[c] == UNCLAIMED {
      WonMembership(t, g.board.cells, g1.board.edges, t.edgeCells[move], c);
    }
    WonDistinct(t, g.board.cells, g1.board.edges, t.edgeCells[move]);
    RootClaimsBoard(g1, won, p);
  }

  /**
   * The board effect of apply_move: the edge goes to the player whatever
   * its owner was and last_move is set; cells are claimed by the shared
   * rule; "claimed iff complete" is kept.
   */
  lemma RootMoveBoard(t: Topology, g: Game, move: Edge, player: Player)
    requires TopologyWF(t) && GameWF(t, g) && move in t.edgeCells
    ensures var n := RootApply(t, g, move, player).0;
      var won := RootWon(t, g, move, player);
      && GameWF(t, n)
      && n.board.edges == g.board.edges[move := player]
      && n.board.lastMove == Some(move)
      && (forall c :: c in g.board.cells ==>
            n.board.cells[c] == if c in t.edgeCells[move] && g.board.cells[c] == UNCLAIMED && Complete(t, n.board.edges, c)
                                then player else g.board.cells[c])
      && SetOf(won) == NewlyClaimed(g.board.cells, n.board.cells)
      && (Consistent(t, g.board) ==> Consistent(t, n.board))
  {
    RootClaimsOfMove(t, g, move, player);
    ClaimLaw(t, g.board, move, player);
  }

  /**
   * The score effect of apply_move: the mover gains one point plus the
   * treasure per claimed cell and the opponent's score does not move.
   */
  lemma RootMoveScore(t: Topology, g: Game, move: Edge, player: Player)
    requires GameWF(t, g) && move in t.edgeCells && Distinct(t.edgeCells[move])
    ensures var n := RootApply(t, g, move, player).0;
      var won := RootWon(t, g, move, player);
      && n.board.score.At(player) == g.board.score.At(player) + |won| + TreasureSum(won, g.items.treasures)
      && n.board.score.At(Opponent(player)) == g.board.score.At(Opponent(player))
  {
    var n := RootApply(t, g, move, player).0;
    var g1 := Drawn1(g, move, player);
    var won := RootWon(t, g, move, player);
    var r := RootClaims(g1, won, player);
    RootApplyParts(t, g, move, player);
    RootClaimsOfMove(t, g, move, player);
    assert n.board.(turn := r.board.turn) == r.board;
    assert g1.board.score == g.board.score && g1.items.treasures == g.items.treasures;
  }

  /** An undrawn edge uses up one possible move and a drawn one none. */
  lemma RootMovesLeft(t: Topology, g: Game, move: Edge, player: Player)
    requires TopologyWF(t) && GameWF(t, g) && move in t.edgeCells
    ensures var n := RootApply(t, g, move, player).0;
      |PossibleMoves(t, n.board)| == |PossibleMoves(t, g.board)| - (if g.board.edges[move] == UNCLAIMED then 1 else 0)
  {
    RootApplyParts(t, g, move, player);
    RootClaimsOfMove(t, g, move, player);
    UndrawnAfterDraw(t.edgeOrder, g.board.edges, move, player);
  }

  /**
   * The turn effect of apply_move: the extra turn is granted exactly when
   * a cell was claimed or a banked bonus was spent, the turn passes exactly
   * when it is not.
   */
  lemma RootMoveTurn(t: Topology, g: Game, move: Edge, player: Player)
    requires GameWF(t, g) && move in t.edgeCells && Distinct(t.edgeCells[move])
    ensures var (n, extra) := RootApply(t, g, move, player);
      var won := RootWon(t, g, move, player);
      && (extra <==> won != [] || g.items.hourglassBonus.At(player) > 0)
      && n.board.turn == (if extra then g.board.turn else Opponent(player))
  {
    var won := RootWon(t, g, move, player);
    RootClaimsOfMove(t, g, move, player);
    RootWonDistinct(t, g, move, player);
    RootClaimsHourglass(Drawn1(g, move, player), won, player);
  }

  /**
   * Hourglass banking: a move that claims nothing spends one banked bonus
   * if there is one (keeping the turn) and otherwise passes the turn; a move
   * that claims something keeps the turn, spends nothing and banks one bonus
   * per hourglass it picks up; the opponent's bank does not move.
   */
  lemma RootHourglassBanking(t: Topology, g: Game, move: Edge, player: Player)
    requires GameWF(t, g) && move in t.edgeCells && Distinct(t.edgeCells[move])
    ensures var (n, extra) := RootApply(t, g, move, player);
      var won := RootWon(t, g, move, player);
      var bonus := g.items.hourglassBonus.At(player);
      && (won == [] && bonus > 0 ==> extra && n.items.hourglassBonus.At(player) == bonus - 1)
      && (won == [] && bonus <= 0 ==> !extra && n.items.hourglassBonus.At(player) == bonus && n.board.turn == Opponent(player))
      && (won != [] ==> extra && n.items.hourglassBonus.At(player) == bonus + CountArtifact(won, Tick(g.items, player).artifacts, Hourglass))
      && n.items.hourglassBonus.At(Opponent(player)) == g.items.hourglassBonus.At(Opponent(player))
  {
    var won := RootWon(t, g, move, player);
    RootWonDistinct(t, g, move, player);
    RootClaimsHourglass(Drawn1(g, move, player), won, player);
  }

  /** apply_move's result is the claims' state with only the bonus bank and the turn settled afterwards. */
  lemma RootApplyParts(t: Topology, g: Game, move: Edge, player: Player)
    requires GameWF(t, g) && move in t.edgeCells
    ensures var n := RootApply(t, g, move, player).0;
      var r := RootClaims(Drawn1(g, move, player), RootWon(t, g, move, player), player);
      n.items.(hourglassBonus := r.items.hourglassBonus) == r.items && n.board.(turn := r.board.turn) == r.board
  {
  }

  /**
   * The gauntlet's lifetime without a pickup: a held gauntlet with time
   * left loses one unit per move of its holder, and on reaching zero it is
   * gone (unavailable, no source cell, its cell out of the artifact map
   * and, unless claimed again by this move, out of the claimed items); a
   * gauntlet not held keeps its trackers.
   */
  lemma RootGauntletLifetime(t: Topology, g: Game, move: Edge, player: Player)
    requires GameWF(t, g) && move in t.edgeCells && Distinct(t.edgeCells[move])
    requires var won := RootWon(t, g, move, player); var arts1 := Tick(g.items, player).artifacts;
      forall c :: c in won ==> !(c in arts1 && arts1[c] == Gauntlet)
    ensures var n := RootApply(t, g, move, player).0;
      var won := RootWon(t, g, move, player);
      var it := g.items;
      var held := it.gauntletAvailable.At(player) && it.gauntletTimer.At(player) > 0;
      && (held ==> n.items.gauntletTimer.At(player) == it.gauntletTimer.At(player) - 1)
      && (held && it.gauntletTimer.At(player) == 1 ==>
            && !n.items.gauntletAvailable.At(player) && n.items.gauntletCell.At(player) == None
            && (it.gauntletCell.At(player).Some? ==>
                  var cell0 := it.gauntletCell.At(player).value;
                  cell0 !in n.items.artifacts && (cell0 !in won ==> cell0 !in n.items.claimedItems)))
      && (held && it.gauntletTimer.At(player) > 1 ==>
            n.items.gauntletAvailable.At(player) && n.items.gauntletCell.At(player) == it.gauntletCell.At(player))
      && (!held ==>
            && n.items.gauntletAvailable.At(player) == it.gauntletAvailable.At(player)
            && n.items.gauntletTimer.At(player) == it.gauntletTimer.At(player)
            && n.items.gauntletCell.At(player) == it.gauntletCell.At(player))
  {
    var g1 := Drawn1(g, move, player);
    var won := RootWon(t, g, move, player);
    var it := g.items;
    var it0 := Tick(it, player);
    var r := RootClaims(g1, won, player);
    RootApplyParts(t, g, move, player);
    RootClaimsOfMove(t, g, move, player);
    RootClaimsRecords(g1, won, player);
    RootClaimsAbilities(g1, won, player);
    LastArtifactCellSource(won, it0.artifacts, Gauntlet, it0.gauntletCell.At(player));
    assert r.items.gauntletTimer.At(player) == it0.gauntletTimer.At(player);
    assert r.items.gauntletAvailable.At(player) == it0.gauntletAvailable.At(player);
    assert r.items.gauntletCell.At(player) == it0.gauntletCell.At(player);
    if it.gauntletCell.At(player).Some? {
      RevealExact(it0.claimedItems, won, it.treasures, it0.artifacts, true, it.gauntletCell.At(player).value);
    }
  }

  /**
   * Picking up gauntlets: the mover then holds one with a full lifetime
   * whose source is a claimed gauntlet cell; the opponent's gauntlet does
   * not move.
   */
  lemma RootGauntletPickup(t: Topology, g: Game, move: Edge, player: Player)
    requires GameWF(t, g) && move in t.edgeCells && Distinct(t.edgeCells[move])
    ensures var n := RootApply(t, g, move, player).0;
      var won := RootWon(t, g, move, player);
      var it := g.items;
      var arts1 := Tick(it, player).artifacts;
      && ((exists c :: c in won && c in arts1 && arts1[c] == Gauntlet) ==>
            && n.items.gauntletAvailable.At(player) && n.items.gauntletTimer.At(player) == GAUNTLET_LIFETIME
            && n.items.gauntletCell.At(player).Some?
            && var src := n.items.gauntletCell.At(player).value; src in won && src in arts1 && arts1[src] == Gauntlet)
      && n.items.gauntletAvailable.At(Opponent(player)) == it.gauntletAvailable.At(Opponent(player))
      && n.items.gauntletTimer.At(Opponent(player)) == it.gauntletTimer.At(Opponent(player))
      && n.items.gauntletCell.At(Opponent(player)) == it.gauntletCell.At(Opponent(player))
  {
    var g1 := Drawn1(g, move, player);
    var won := RootWon(t, g, move, player);
    var it0 := Tick(g.items, player);
    RootApplyParts(t, g, move, player);
    RootWonDistinct(t, g, move, player);
    RootClaimsGauntlet(g1, won, player);
    LastArtifactCellSource(won, it0.artifacts, Gauntlet, it0.gauntletCell.At(player));
  }

  /** Every gauntlet picked up leaves the artifact map, and the artifact map never grows. */
  lemma RootArtifactsShrink(t: Topology, g: Game, move: Edge, player: Player)
    requires GameWF(t, g) && move in t.edgeCells && Distinct(t.edgeCells[move])
    ensures var n := RootApply(t, g, move, player).0;
      var won := RootWon(t, g, move, player);
      var arts1 := Tick(g.items, player).artifacts;
      && (forall c :: c in won && c in arts1 && arts1[c] == Gauntlet ==> c !in n.items.artifacts)
      && n.items.artifacts.Keys <= g.items.artifacts.Keys
  {
    var g1 := Drawn1(g, move, player);
    var won := RootWon(t, g, move, player);
    RootApplyParts(t, g, move, player);
    RootClaimsOfMove(t, g, move, player);
    RootClaimsRecords(g1, won, player);
  }

  /**
   * Revealed treasures: every claimed cell records its item (an artifact
   * over a treasure); the last treasure value becomes that of a claimed
   * treasure, or stays when none was claimed; the opponent's does not move.
   */
  lemma RootTreasureRecords(t: Topology, g: Game, move: Edge, player: Player)
    requires GameWF(t, g) && move in t.edgeCells && Distinct(t.edgeCells[move])
    ensures var n := RootApply(t, g, move, player).0;
      var won := RootWon(t, g, move, player);
      var it := g.items;
      var arts1 := Tick(it, player).artifacts;
      && n.items.treasures == it.treasures
      && (forall c :: c in won && Revealed(it.treasures, arts1, c, true).Some? ==>
            c in n.items.claimedItems && n.items.claimedItems[c] == Revealed(it.treasures, arts1, c, true).value)
      && ((exists c :: c in won && c in it.treasures) ==>
            exists c :: c in won && c in it.treasures && n.items.lastTreasureValue.At(player) == TreasureValue(it.treasures[c]))
      && ((forall c :: c in won ==> c !in it.treasures) ==> n.items.lastTreasureValue == it.lastTreasureValue)
      && n.items.lastTreasureValue.At(Opponent(player)) == it.lastTreasureValue.At(Opponent(player))
  {
    var g1 := Drawn1(g, move, player);
    var won := RootWon(t, g, move, player);
    var it := g.items;
    var it0 := Tick(it, player);
    var r := RootClaims(g1, won, player);
    RootApplyParts(t, g, move, player);
    RootClaimsOfMove(t, g, move, player);
    RootClaimsRecords(g1, won, player);
    forall c | c in won && Revealed(it.treasures, it0.artifacts, c, true).Some?
      ensures c in r.items.claimedItems && r.items.claimedItems[c] == Revealed(it.treasures, it0.artifacts, c, true).value
    {
      RevealExact(it0.claimedItems, won, it.treasures, it0.artifacts, true, c);
    }
    LastTreasureSource(won, it.treasures, it.lastTreasureValue.At(player));
  }

  /**
   * Picking up a compass makes it available with a claimed compass cell as
   * its source; without one the compass trackers stay; the opponent's
   * compass does not move.
   */
  lemma RootCompassPickup(t: Topology, g: Game, move: Edge, player: Player)
    requires GameWF(t, g) && move in t.edgeCells && Distinct(t.edgeCells[move])
    ensures var n := RootApply(t, g, move, player).0;
      var won := RootWon(t, g, move, player);
      var it := g.items;
      var arts1 := Tick(it, player).artifacts;
      && ((exists c :: c in won && c in arts1 && arts1[c] == Compass) ==>
            && n.items.compassAvailable.At(player) && n.items.compassCell.At(player).Some?
            && var src := n.items.compassCell.At(player).value; src in won && src in arts1 && arts1[src] == Compass)
      && ((forall c :: c in won ==> !(c in arts1 && arts1[c] == Compass)) ==>
            n.items.compassAvailable == it.compassAvailable && n.items.compassCell == it.compassCell)
      && n.items.compassAvailable.At(Opponent(player)) == it.compassAvailable.At(Opponent(player))
      && n.items.compassCell.At(Opponent(player)) == it.compassCell.At(Opponent(player))
  {
    var g1 := Drawn1(g, move, player);
    var won := RootWon(t, g, move, player);
    var it0 := Tick(g.items, player);
    RootApplyParts(t, g, move, player);
    RootWonDistinct(t, g, move, player);
    RootClaimsCompass(g1, won, player);
    LastArtifactCellSource(won, it0.artifacts, Compass, it0.compassCell.At(player));
  }

  // ------------------------------------------------------ use_gauntlet

  /**
   * use_gauntlet on values: with a gauntlet and a positive last treasure
   * value of the opponent, min(requested or last value, last value,
   * opponent's score) moves from the opponent to the player and the gauntlet
   * is used up (its artifact and claimed-item entries go); otherwise nothing
   * changes. The score sum is kept and the opponent never goes below zero.
   */
  function RootGauntlet(g: Game, p: Player, amount: Option<int>): (r: Game)
    ensures r.board.score.zero + r.board.score.one == g.board.score.zero + g.board.score.one
    ensures !g.items.gauntletAvailable.At(p) || g.items.lastTreasureValue.At(Opponent(p)) <= 0 ==> r == g
    ensures g.items.gauntletAvailable.At(p) && g.items.lastTreasureValue.At(Opponent(p)) > 0 ==>
      && r.board.score.At(Opponent(p)) >= 0
      && r.board.score.At(p) - g.board.score.At(p) <= g.items.lastTreasureValue.At(Opponent(p))
      && ((amount.None? || amount.value >= 0) && g.board.score.At(Opponent(p)) >= 0 ==> r.board.score.At(p) >= g.board.score.At(p))
      && (amount.None? && g.board.score.At(Opponent(p)) >= g.items.lastTreasureValue.At(Opponent(p)) ==>
            r.board.score.At(p) == g.board.score.At(p) + g.items.lastTreasureValue.At(Opponent(p)))
      && !r.items.gauntletAvailable.At(p) && r.items.gauntletTimer.At(p) == 0 && r.items.gauntletCell.At(p) == None
      && (g.items.gauntletCell.At(p).Some? ==>
            g.items.gauntletCell.At(p).value !in r.items.artifacts && g.items.gauntletCell.At(p).value !in r.items.claimedItems)
      && r.board.cells == g.board.cells && r.board.edges == g.board.edges
    ensures g.items.gauntletAvailable.At(p) && g.items.lastTreasureValue.At(Opponent(p)) > 0 ==>
      var steal := StealAmount(amount, g.items.lastTreasureValue.At(Opponent(p)), g.board.score.At(Opponent(p)));
      var cell0 := g.items.gauntletCell.At(p);
      && r.board.score.At(p) == g.board.score.At(p) + steal
      && r.board.score.At(Opponent(p)) == g.board.score.At(Opponent(p)) - steal
      && r.board == g.board.(score := r.board.score)
      && r.items.artifacts == Pop(g.items.artifacts, cell0)
      && r.items.claimedItems == Pop(g.items.claimedItems, cell0)
      && r.items.gauntletAvailable.At(Opponent(p)) == g.items.gauntletAvailable.At(Opponent(p))
      && r.items.gauntletTimer.At(Opponent(p)) == g.items.gauntletTimer.At(Opponent(p))
      && r.items.gauntletCell.At(Opponent(p)) == g.items.gauntletCell.At(Opponent(p))
      && r.items == g.items.(artifacts := r.items.artifacts, claimedItems := r.items.claimedItems,
                             gauntletAvailable := r.items.gauntletAvailable, gauntletTimer := r.items.gauntletTimer,
                             gauntletCell := r.items.gauntletCell)
  {
    var opponent := Opponent(p);
    var lastVal := g.items.lastTreasureValue.At(opponent);
    if !g.items.gauntletAvailable.At(p) || lastVal <= 0 then g
    else
      var steal := StealAmount(amount, lastVal, g.board.score.At(opponent));
      var cell0 := g.items.gauntletCell.At(p);
      g.(board := g.board.(score := Transfer(g.board.score, opponent, steal)),
         items := g.items.(artifacts := Pop(g.items.artifacts, cell0),
                           claimedItems := Pop(g.items.claimedItems, cell0),
                           gauntletAvailable := g.items.gauntletAvailable.With(p, false),
                           gauntletTimer := g.items.gauntletTimer.With(p, 0),
                           gauntletCell := g.items.gauntletCell.With(p, None)))
  }

  /** The steal is capped by the opponent's score: with 2 points left and a last treasure of 5, exactly 2 move. */
  lemma RootGauntletCapped(g: Game, p: Player)
    requires g.items.gauntletAvailable.At(p)
    requires g.items.lastTreasureValue.At(Opponent(p)) == 5 && g.board.score.At(Opponent(p)) == 2
    ensures var r := RootGauntlet(g, p, None);
      r.board.score.At(p) == g.board.score.At(p) + 2 && r.board.score.At(Opponent(p)) == 0
  {
  }

  /** use_gauntlet, changing the state object in place. */
  method UseGauntlet(st: GameState, player: Player, amount: Option<int>)
    modifies st
    ensures st.Value() == RootGauntlet(old(st.Value()), player, amount)
  {
    var opponent := Opponent(player);
    if !st.items.gauntletAvailable.At(player) {
      return;
    }
    var lastVal := st.items.lastTreasureValue.At(opponent);
    if lastVal <= 0 {
      return;
    }
    var steal := StealAmount(amount, lastVal, st.board.score.At(opponent));
    st.board := st.board.(score := st.board.score.With(opponent, st.board.score.At(opponent) - steal));
    st.board := st.board.(score := st.board.score.With(player, st.board.score.At(player) + steal));
    var cell0 := st.items.gauntletCell.At(player);
    st.items := st.items.(artifacts := Pop(st.items.artifacts, cell0));
    st.items := st.items.(claimedItems := Pop(st.items.claimedItems, cell0));
    st.items := st.items.(gauntletAvailable := st.items.gauntletAvailable.With(player, false));
    st.items := st.items.(gauntletTimer := st.items.gauntletTimer.With(player, 0));
    st.items := st.items.(gauntletCell := st.items.gauntletCell.With(player, None));
  }

  // ------------------------------------------------------- use_compass

  /** The compass acts when the player holds one with a source cell and the target is the opponent's. */
  predicate CompassActs(g: Game, p: Player, target: Cell) {
    && g.items.compassAvailable.At(p) && g.items.compassCell.At(p).Some?
    && target in g.board.cells && g.board.cells[target] == Opponent(p)
  }

  /**
   * use_compass on values: when it acts, the source cell goes to the
   * opponent and then the target to the player, each cell's treasure value
   * follows its cell between the two scores, the source's artifact and
   * claimed-item entries go and the compass is used up; otherwise nothing
   * changes. The score sum is kept either way.
   */
  function RootCompass(g: Game, p: Player, target: Cell): (r: Game)
    ensures r.board.score.zero + r.board.score.one == g.board.score.zero + g.board.score.one
    ensures !CompassActs(g, p, target) ==> r == g
    ensures CompassActs(g, p, target) ==>
      var source := g.items.compassCell.At(p).value;
      && r.board.cells == g.board.cells[source := Opponent(p)][target := p]
      && r.board.score.At(p) == g.board.score.At(p) - TreasureAt(g.items.treasures, source) + TreasureAt(g.items.treasures, target)
      && r.board.score.At(Opponent(p)) == g.board.score.At(Opponent(p)) + TreasureAt(g.items.treasures, source) - TreasureAt(g.items.treasures, target)
      && r.items.artifacts == g.items.artifacts - {source} && r.items.claimedItems == g.items.claimedItems - {source}
      && !r.items.compassAvailable.At(p) && r.items.compassCell.At(p) == None
      && r.items.compassAvailable.At(Opponent(p)) == g.items.compassAvailable.At(Opponent(p))
      && r.items.compassCell.At(Opponent(p)) == g.items.compassCell.At(Opponent(p))
      && r.board == g.board.(cells := r.board.cells, score := r.board.score)
      && r.items == g.items.(artifacts := r.items.artifacts, claimedItems := r.items.claimedItems,
                             compassAvailable := r.items.compassAvailable, compassCell := r.items.compassCell)
  {
    if !CompassActs(g, p, target) then g
    else
      var source := g.items.compassCell.At(p).value;
      var opponent := Opponent(p);
      var sc1 := if source in g.items.treasures then Transfer(g.board.score, p, TreasureValue(g.items.treasures[source]))
                 else g.board.score;
      var sc2 := if target in g.items.treasures then Transfer(sc1, opponent, TreasureValue(g.items.treasures[target]))
                 else sc1;
      Game(g.board.(cells := g.board.cells[source := opponent][target := p], score := sc2),
           g.items.(artifacts := g.items.artifacts - {source},
                    claimedItems := g.items.claimedItems - {source},
                    compassAvailable := g.items.compassAvailable.With(p, false),
                    compassCell := g.items.compassCell.With(p, None)))
  }

  /** use_compass, changing the state object in place. */
  method UseCompass(st: GameState, player: Player, target: Cell)
    modifies st
    ensures st.Value() == RootCompass(old(st.Value()), player, target)
  {
    if !st.items.compassAvailable.At(player) || st.items.compassCell.At(player).None? {
      return;
    }
    ghost var g := st.Value();
    var source := st.items.compassCell.At(player).value;
    var opponent := Opponent(player);
    if target !in st.board.cells || st.board.cells[target] != opponent {
      return;
    }
    var cells := st.board.cells[source := opponent];
    cells := cells[target := player];
    var artifacts := st.items.artifacts;
    if source in artifacts {
      artifacts := artifacts - {source};
    }
    assert artifacts == g.items.artifacts - {source};
    var claimed := st.items.claimedItems;
    if source in claimed {
      claimed := claimed - {source};
    }
    assert claimed == g.items.claimedItems - {source};
    var score := st.board.score;
    if source in st.items.treasures {
      var v := TreasureValue(st.items.treasures[source]);
      score := score.With(player, score.At(player) - v);
      score := score.With(opponent, score.At(opponent) + v);
    }
    ghost var sc1 := score;
    assert sc1 == if source in g.items.treasures then Transfer(g.board.score, player, TreasureValue(g.items.treasures[source]))
                  else g.board.score;
    if target in st.items.treasures {
      var v := TreasureValue(st.items.treasures[target]);
      score := score.With(opponent, score.At(opponent) - v);
      score := score.With(player, score.At(player) + v);
    }
    assert score == if target in g.items.treasures then Transfer(sc1, opponent, TreasureValue(g.items.treasures[target]))
                    else sc1;
    st.board := st.board.(cells := cells, score := score);
    st.items := st.items.(artifacts := artifacts, claimedItems := claimed,
                          compassAvailable := st.items.compassAvailable.With(player, false),
                          compassCell := st.items.compassCell.With(player, None));
  }

  /**
   * When the compass source is still the player's own cell and differs from
   * the target, the swap keeps both players' cell counts.
   */
  lemma CompassKeepsCounts(g: Game, p: Player, target: Cell)
    requires CompassActs(g, p, target)
    requires var source := g.items.compassCell.At(p).value;
      source in g.board.cells && g.board.cells[source] == p && source != target
    ensures var r := RootCompass(g, p, target);
      OwnedCount(r.board.cells, p) == OwnedCount(g.board.cells, p)
      && OwnedCount(r.board.cells, Opponent(p)) == OwnedCount(g.board.cells, Opponent(p))
  {
    var source := g.items.compassCell.At(p).value;
    var r := RootCompass(g, p, target);
    var cells := g.board.cells;
    var mine := set c | c in cells && cells[c] == p;
    var theirs := set c | c in cells && cells[c] == Opponent(p);
    assert (set c | c in r.board.cells && r.board.cells[c] == p) == mine - {source} + {target};
    assert (set c | c in r.board.cells && r.board.cells[c] == Opponent(p)) == theirs - {target} + {source};
  }
}
