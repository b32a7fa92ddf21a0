/**
 * The move rule of the two snapshots without items (main.py and
 * initial_code/game_logic.py): a drawn edge is refused, an undrawn one is
 * drawn, each adjacent cell it completes is claimed for one point, and the
 * mover keeps the turn exactly when something was claimed.
 */
module PlainRules {
  import opened HexGrid

  /** The reference definition of apply_move for both item-free snapshots, in closed form. */
  function PlainApply(t: Topology, b: Board, move: Edge, player: Player): (Board, bool)
    requires BoardWF(t, b) && move in t.edgeCells
  {
    if b.edges[move] != UNCLAIMED then (b, false)
    else
      var edges' := b.edges[move := player];
      var won := Won(t, b.cells, edges', t.edgeCells[move]);
      var extra := |won| > 0;
      (Board(ClaimAll(b.cells, won, player), edges', if extra then b.turn else Opponent(player),
             b.score.With(player, b.score.At(player) + |won|), Some(move)),
       extra)
  }

  /** The state apply_move returns covers the same cells and edges. */
  lemma PlainApplyWF(t: Topology, b: Board, move: Edge, player: Player)
    requires BoardWF(t, b) && move in t.edgeCells
    ensures BoardWF(t, PlainApply(t, b, move, player).0)
  {
  }

  /** Score follows cells: each player's score is the number of cells they own. */
  ghost predicate ScoreTracksCells(b: Board) {
    b.score.zero == OwnedCount(b.cells, 0) && b.score.one == OwnedCount(b.cells, 1)
  }

  ghost predicate PlainInv(t: Topology, b: Board) {
    BoardWF(t, b) && Consistent(t, b) && ScoreTracksCells(b)
  }

  /** An already drawn edge leaves the state as it was, grants no extra turn and does not pass the turn. */
  lemma PlainRejectsDrawn(t: Topology, b: Board, move: Edge, player: Player)
    requires BoardWF(t, b) && move in t.edgeCells && b.edges[move] != UNCLAIMED
    ensures PlainApply(t, b, move, player) == (b, false)
  {
  }

  /**
   * On an undrawn edge: only that edge changes (to `player`), last_move is
   * the move, an adjacent unclaimed cell becomes `player`'s exactly when all
   * its edges are now drawn, no other cell changes, the mover gains one
   * point per newly claimed cell, the opponent's score is unchanged, the
   * extra turn is granted exactly when a cell was claimed, the turn passes
   * exactly when it is not, and one fewer move remains.
   */
  lemma PlainMoveEffect(t: Topology, b: Board, move: Edge, player: Player)
    requires TopologyWF(t) && BoardWF(t, b) && move in t.edgeCells && b.edges[move] == UNCLAIMED
    ensures var (next, extra) := PlainApply(t, b, move, player);
      && BoardWF(t, next)
      && next.edges[move] == player
      && (forall e :: e in b.edges && e != move ==> next.edges[e] == b.edges[e])
      && next.lastMove == Some(move)
      && (forall c :: c in b.cells ==>
            next.cells[c] == if c in t.edgeCells[move] && b.cells[c] == UNCLAIMED && Complete(t, next.edges, c)
                             then player else b.cells[c])
      && next.score.At(player) == b.score.At(player) + |NewlyClaimed(b.cells, next.cells)|
      && next.score.At(Opponent(player)) == b.score.At(Opponent(player))
      && (extra <==> NewlyClaimed(b.cells, next.cells) != {})
      && next.turn == (if extra then b.turn else Opponent(player))
      && |PossibleMoves(t, next)| == |PossibleMoves(t, b)| - 1
  {
    ClaimLaw(t, b, move, player);
    UndrawnAfterDraw(t.edgeOrder, b.edges, move, player);
  }

  /** On an undrawn edge, apply_move's state is the drawn edge plus the claims it completes. */
  lemma PlainApplyUndrawn(t: Topology, b: Board, move: Edge, player: Player)
    requires BoardWF(t, b) && move in t.edgeCells && b.edges[move] == UNCLAIMED
    ensures var edges' := b.edges[move := player];
      var won := Won(t, b.cells, edges', t.edgeCells[move]);
      var next := PlainApply(t, b, move, player).0;
      && next.cells == ClaimAll(b.cells, won, player)
      && next.edges == edges'
      && next.score == b.score.With(player, b.score.At(player) + |won|)
  {
  }

  /** Adding `k` cells to one player's holdings and `k` points to their score keeps score equal to cells owned. */
  lemma TracksAfterClaims(score: PerPlayer<int>, cells: map<Cell, int>, cells': map<Cell, int>, p: Player, k: int)
    requires score.zero == OwnedCount(cells, 0) && score.one == OwnedCount(cells, 1)
    requires OwnedCount(cells', p) == OwnedCount(cells, p) + k
    requires OwnedCount(cells', Opponent(p)) == OwnedCount(cells, Opponent(p))
    ensures var s' := score.With(p, score.At(p) + k); s'.zero == OwnedCount(cells', 0) && s'.one == OwnedCount(cells', 1)
  {
  }

  /** apply_move keeps "claimed iff complete" and "score equals cells owned". */
  lemma PlainKeepsInvariant(t: Topology, b: Board, move: Edge, player: Player)
    requires TopologyWF(t) && PlainInv(t, b) && move in t.edgeCells
    ensures PlainInv(t, PlainApply(t, b, move, player).0)
  {
    if b.edges[move] == UNCLAIMED {
      var next := PlainApply(t, b, move, player).0;
      var edges' := b.edges[move := player];
      var won := Won(t, b.cells, edges', t.edgeCells[move]);
      PlainApplyUndrawn(t, b, move, player);
      ClaimLaw(t, b, move, player);
      ClaimAllCounts(b.cells, won, player);
      TracksAfterClaims(b.score, b.cells, next.cells, player, |won|);
    }
  }

  /** Completing the last missing edge of an unclaimed cell claims it, scores and keeps the turn. */
  lemma ImmediateCapture(t: Topology, b: Board, move: Edge, player: Player, c: Cell)
    requires TopologyWF(t) && BoardWF(t, b) && move in t.edgeCells && b.edges[move] == UNCLAIMED
    requires c in t.cellEdges && move in t.cellEdges[c] && b.cells[c] == UNCLAIMED
    requires forall e :: e in t.cellEdges[c] && e != move ==> Drawn(b.edges, e)
    ensures var (next, extra) := PlainApply(t, b, move, player);
      next.cells[c] == player && next.score.At(player) >= b.score.At(player) + 1 && extra && next.turn == b.turn
  {
    PlainMoveEffect(t, b, move, player);
    var next := PlainApply(t, b, move, player).0;
    assert Complete(t, next.edges, c);
    assert c in NewlyClaimed(b.cells, next.cells);
  }

  // ------------------------------------------------------ whole matches

  /** Plays `moves` in order, each by the player whose turn it is. */
  function Play(t: Topology, b: Board, moves: seq<Edge>): Board
    requires forall e :: e in moves ==> e in t.edgeCells
    requires BoardWF(t, b)
    decreases |moves|
  {
    if moves == [] then b
    else
      var next := PlainApply(t, b, moves[0], b.turn).0;
      assert BoardWF(t, next);
      Play(t, next, moves[1..])
  }

  /** Every move of `moves` is an undrawn edge when it is played. */
  ghost predicate LegalRun(t: Topology, b: Board, moves: seq<Edge>)
    requires forall e :: e in moves ==> e in t.edgeCells
    requires BoardWF(t, b)
    decreases |moves|
  {
    moves != [] ==>
      b.edges[moves[0]] == UNCLAIMED && LegalRun(t, PlainApply(t, b, moves[0], b.turn).0, moves[1..])
  }

  /**
   * A legal run of moves keeps the invariant and uses up exactly one
   * possible move per move; so no legal run is longer than the number of
   * edges, and from a fresh board a match ends after exactly that many moves.
   */
  lemma {:induction false} MatchLength(t: Topology, b: Board, moves: seq<Edge>)
    requires TopologyWF(t) && PlainInv(t, b)
    requires forall e :: e in moves ==> e in t.edgeCells
    requires LegalRun(t, b, moves)
    ensures PlainInv(t, Play(t, b, moves))
    ensures |PossibleMoves(t, Play(t, b, moves))| == |PossibleMoves(t, b)| - |moves|
    ensures |moves| <= |PossibleMoves(t, b)|
    decreases |moves|
  {
    if moves != [] {
      var next := PlainApply(t, b, moves[0], b.turn).0;
      PlainMoveEffect(t, b, moves[0], b.turn);
      PlainKeepsInvariant(t, b, moves[0], b.turn);
      MatchLength(t, next, moves[1..]);
    }
  }
}
