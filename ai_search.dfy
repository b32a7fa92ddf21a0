/**
 * The search of third_checkpoint/ai.py: the same table, ordering and
 * alpha-beta loop as main.py, over the item game of the root
 * game_logic.py (GameLogic.ApplyMove), without main.py's defensive checks.
 */
module AiSearch {
  import opened HexGrid
  import opened ItemLayer
  import opened GameLogic
  import opened Search

  /** hash_state: the key of a state is its edge-ownership map. */
  function HashGame(g: Game): Key {
    HashState(g.board)
  }

  /** The scoring loops of order_moves for one move: the result is the move's ordering score. */
  method ScoreMove(t: Topology, b: Board, move: Edge) returns (score: int)
    requires AroundEdge(t, b, move)
    ensures score == MoveScore(t, b, move)
  {
    score := 0;
    var adj := t.edgeCells[move];
    var j := 0;
    while j < |adj|
      invariant 0 <= j <= |adj|
      invariant score == ScoreOver(t, b, adj[..j], move)
    {
      var cell := adj[j];
      assert adj[..j + 1][..j] == adj[..j];
      if b.cells[cell] == UNCLAIMED {
        var edgesDrawn := DrawnWith(b.edges, t.cellEdges[cell], move);
        if edgesDrawn == 6 {
          score := score + 100;
        } else if edgesDrawn == 5 {
          score := score + 50;
        }
      }
      j := j + 1;
    }
    assert adj[..j] == adj;
  }

  /**
   * order_moves: scores every move by summing, over its adjacent unclaimed
   * cells, the bonus for the number of edges drawn once the move is, then
   * sorts stably by score (descending when maximizing).
   */
  method OrderMoves(t: Topology, g: Game, moves: seq<Edge>, maximizing: bool) returns (ordered: seq<Edge>)
    requires TopologyWF(t) && GameWF(t, g)
    requires forall m | m in moves :: m in t.edgeCells
    ensures ordered == OrderedMoves(t, g.board, moves, maximizing)
  {
    var b := g.board;
    var moveScores: seq<(Edge, int)> := [];
    var i := 0;
    while i < |moves|
      invariant 0 <= i <= |moves|
      invariant moveScores == Scored(t, b, moves[..i])
    {
      var move := moves[i];
      AroundEdgeHolds(t, b, move);
      var score := ScoreMove(t, b, move);
      moveScores := moveScores + [(move, score)];
      i := i + 1;
    }
    assert moves[..i] == moves;
    ordered := Firsts(StableSort(moveScores, maximizing));
  }

  /** The position a level searches after `move`, and the flag it searches it with. */
  ghost predicate IsChild(t: Topology, g: Game, move: Edge, maximizing: bool, child: Game, flag: bool) {
    && GameWF(t, g) && move in t.edgeCells
    && RootApply(t, g, move, if maximizing then 1 else 0) == (child, flag == maximizing)
  }

  /**
   * The move of a level's loop: played by player 1 when maximizing and
   * player 0 otherwise; the flag stays after an extra turn and flips
   * otherwise.
   */
  method Play(t: Topology, g: Game, move: Edge, maximizing: bool) returns (child: Game, flag: bool)
    requires TopologyWF(t) && GameWF(t, g) && move in t.edgeCells
    ensures IsChild(t, g, move, maximizing, child, flag) && GameWF(t, child)
  {
    var player: Player := if maximizing then 1 else 0;
    RootMoveBoard(t, g, move, player);
    var extraTurn;
    child, extraTurn := ApplyMove(t, g, move, player);
    flag := if extraTurn then maximizing else !maximizing;
  }

  /**
   * The body of a level's loop before the bookkeeping: the move is played
   * as Play does and the position after it is searched one level shallower
   * with the flag Play returns.
   */
  method PlayAndSearch(t: Topology, tt: TranspositionTable, g: Game, depth: nat, alpha: ExtInt, beta: ExtInt, maximizing: bool, move: Edge)
    returns (child: Game, flag: bool, value: ExtInt, ghost childBest: Option<Edge>, ghost sub: seq<Step<Game>>)
    requires TopologyWF(t) && GameWF(t, g) && AllFinite(tt.entries) && depth > 0
    requires move in t.edgeCells
    modifies tt
    decreases depth - 1, 3
    ensures AllFinite(tt.entries) && value.Fin?
    ensures IsChild(t, g, move, maximizing, child, flag)
    ensures Searched(t, old(tt.entries), child, depth - 1, alpha, beta, flag, value, childBest, sub, tt.entries)
  {
    child, flag := Play(t, g, move, maximizing);
    var bestMove;
    value, bestMove, sub := Minimax(t, tt, child, depth - 1, alpha, beta, flag);
    childBest := bestMove;
  }

  /**
   * What minimax of third_checkpoint/ai.py computes from the table `table`:
   * the value, the move kept, the steps of the level it explored and the
   * table it leaves. An entry at least as deep as requested is returned as
   * stored and the table is left alone. Otherwise the result is stored
   * under the state's key with the requested depth: at depth 0 or once
   * every edge is owned it is evaluate(state) with no move, and otherwise
   * it is the first best value of the ordered moves explored, each step
   * being the search of its child.
   */
  ghost predicate Searched(t: Topology, table: map<Key, Entry>, g: Game, depth: nat, alpha: ExtInt, beta: ExtInt, maximizing: bool,
                           value: ExtInt, bestMove: Option<Edge>, steps: seq<Step<Game>>, after: map<Key, Entry>)
    decreases depth, 1
  {
    var key := HashGame(g);
    if Hit(table, key, depth) then
      value == table[key].value && bestMove == table[key].move && steps == [] && after == table
    else if depth == 0 || AllOwned(g.board) then
      value == Fin(Evaluate(g.board)) && bestMove == None && steps == [] && after == table[key := Entry(value, None, depth)]
    else
      var ordered := OrderedMoves(t, g.board, PossibleMoves(t, g.board), maximizing);
      && Explored(steps, |ordered|, alpha, beta, maximizing)
      && FirstBest(steps, value, bestMove, maximizing)
      && LevelSearched(t, table, g, depth, alpha, beta, maximizing, ordered, steps)
      && after == LevelTable(steps, table)[key := Entry(value, bestMove, depth)]
  }

  /**
   * The steps of a level follow the ordered moves: each step plays the next
   * move and holds the search of its child one level shallower, from the
   * table and with the window the earlier steps left.
   */
  ghost predicate LevelSearched(t: Topology, table: map<Key, Entry>, g: Game, depth: nat, alpha: ExtInt, beta: ExtInt, maximizing: bool,
                                ordered: seq<Edge>, steps: seq<Step<Game>>)
    decreases depth, 0, |steps|
  {
    && depth > 0 && |steps| <= |ordered|
    && (steps != [] ==>
          var init, last := steps[..|steps| - 1], steps[|steps| - 1];
          && LevelSearched(t, table, g, depth, alpha, beta, maximizing, ordered, init)
          && last.move == ordered[|init|]
          && IsChild(t, g, last.move, maximizing, last.child, last.maximizing)
          && Searched(t, LevelTable(init, table), last.child, depth - 1,
                      AlphaAfter(init, alpha, beta, maximizing), BetaAfter(init, alpha, beta, maximizing),
                      last.maximizing, last.value, last.bestMove, last.sub, last.after))
  }

  /** One more step, for the next move in order and searched from where the level stands, extends a level. */
  lemma LevelSnoc(t: Topology, table: map<Key, Entry>, g: Game, depth: nat, alpha: ExtInt, beta: ExtInt, maximizing: bool,
                  ordered: seq<Edge>, steps: seq<Step<Game>>, step: Step<Game>)
    requires LevelSearched(t, table, g, depth, alpha, beta, maximizing, ordered, steps)
    requires |steps| < |ordered| && step.move == ordered[|steps|]
    requires IsChild(t, g, step.move, maximizing, step.child, step.maximizing)
    requires Searched(t, LevelTable(steps, table), step.child, depth - 1,
                      AlphaAfter(steps, alpha, beta, maximizing), BetaAfter(steps, alpha, beta, maximizing),
                      step.maximizing, step.value, step.bestMove, step.sub, step.after)
    ensures LevelSearched(t, table, g, depth, alpha, beta, maximizing, ordered, steps + [step])
  {
    assert (steps + [step])[..|steps|] == steps;
  }

  /** Step `k` of a level plays the k-th ordered move, and its child is the position after it. */
  lemma {:induction false} LevelMoves(t: Topology, table: map<Key, Entry>, g: Game, depth: nat, alpha: ExtInt, beta: ExtInt, maximizing: bool,
                                      ordered: seq<Edge>, steps: seq<Step<Game>>)
    requires LevelSearched(t, table, g, depth, alpha, beta, maximizing, ordered, steps)
    ensures forall k | 0 <= k < |steps| ::
      steps[k].move == ordered[k] && IsChild(t, g, steps[k].move, maximizing, steps[k].child, steps[k].maximizing)
    decreases |steps|
  {
    if steps != [] {
      var init := steps[..|steps| - 1];
      LevelMoves(t, table, g, depth, alpha, beta, maximizing, ordered, init);
      forall k | 0 <= k < |init|
        ensures steps[k] == init[k]
      {
      }
    }
  }

  /** The next ordered move of a level, played and searched from where the level stands, as one more step. */
  method Explore(t: Topology, tt: TranspositionTable, g: Game, depth: nat, alpha0: ExtInt, beta0: ExtInt, maximizing: bool,
                 ordered: seq<Edge>, ghost table: map<Key, Entry>, ghost steps: seq<Step<Game>>, alpha: ExtInt, beta: ExtInt, move: Edge)
    returns (value: ExtInt, ghost step: Step<Game>)
    requires TopologyWF(t) && GameWF(t, g) && AllFinite(tt.entries)
    requires LevelSearched(t, table, g, depth, alpha0, beta0, maximizing, ordered, steps)
    requires |steps| < |ordered| && move == ordered[|steps|] && move in t.edgeCells
    requires tt.entries == LevelTable(steps, table)
    requires alpha == AlphaAfter(steps, alpha0, beta0, maximizing) && beta == BetaAfter(steps, alpha0, beta0, maximizing)
    modifies tt
    decreases depth - 1, 4
    ensures AllFinite(tt.entries) && value.Fin?
    ensures step.move == move && step.value == value
    ensures LevelSearched(t, table, g, depth, alpha0, beta0, maximizing, ordered, steps + [step])
    ensures tt.entries == LevelTable(steps + [step], table)
  {
    var child, flag;
    ghost var childBest, sub;
    child, flag, value, childBest, sub := PlayAndSearch(t, tt, g, depth, alpha, beta, maximizing, move);
    step := Step(move, child, flag, value, childBest, sub, tt.entries);
    LevelSnoc(t, table, g, depth, alpha0, beta0, maximizing, ordered, steps, step);
  }

  /** A move leads to one child, searched with one flag. */
  lemma ChildUnique(t: Topology, g: Game, move: Edge, maximizing: bool, c1: Game, f1: bool, c2: Game, f2: bool)
    requires IsChild(t, g, move, maximizing, c1, f1) && IsChild(t, g, move, maximizing, c2, f2)
    ensures c1 == c2 && f1 == f2
  {
  }

  /** Every prefix of a level's steps is itself a level's steps. */
  lemma {:induction false} LevelPrefix(t: Topology, table: map<Key, Entry>, g: Game, depth: nat, alpha: ExtInt, beta: ExtInt, maximizing: bool,
                                       ordered: seq<Edge>, steps: seq<Step<Game>>, n: nat)
    requires LevelSearched(t, table, g, depth, alpha, beta, maximizing, ordered, steps) && n <= |steps|
    ensures LevelSearched(t, table, g, depth, alpha, beta, maximizing, ordered, steps[..n])
    decreases |steps|
  {
    if n < |steps| {
      var init := steps[..|steps| - 1];
      LevelPrefix(t, table, g, depth, alpha, beta, maximizing, ordered, init, n);
      assert init[..n] == steps[..n];
    } else {
      assert steps[..n] == steps;
    }
  }

  /**
   * The search is a function of its inputs: from the same table, state,
   * depth, window and side, there is one value, one move, one trace and
   * one resulting table.
   */
  lemma {:induction false} SearchedUnique(t: Topology, table: map<Key, Entry>, g: Game, depth: nat, alpha: ExtInt, beta: ExtInt, maximizing: bool,
                                          v1: ExtInt, m1: Option<Edge>, s1: seq<Step<Game>>, a1: map<Key, Entry>,
                                          v2: ExtInt, m2: Option<Edge>, s2: seq<Step<Game>>, a2: map<Key, Entry>)
    requires Searched(t, table, g, depth, alpha, beta, maximizing, v1, m1, s1, a1)
    requires Searched(t, table, g, depth, alpha, beta, maximizing, v2, m2, s2, a2)
    ensures v1 == v2 && m1 == m2 && s1 == s2 && a1 == a2
    decreases depth, 1
  {
    if !Hit(table, HashGame(g), depth) && depth > 0 && !AllOwned(g.board) {
      var ordered := OrderedMoves(t, g.board, PossibleMoves(t, g.board), maximizing);
      ExploredUnique(t, table, g, depth, alpha, beta, maximizing, ordered, v1, m1, s1, v2, m2, s2);
    }
  }

  /** Two explorations of the same level, each keeping its first best value, are the same steps with the same result. */
  lemma ExploredUnique(t: Topology, table: map<Key, Entry>, g: Game, depth: nat, alpha: ExtInt, beta: ExtInt, maximizing: bool,
                       ordered: seq<Edge>, v1: ExtInt, m1: Option<Edge>, s1: seq<Step<Game>>, v2: ExtInt, m2: Option<Edge>, s2: seq<Step<Game>>)
    requires Explored(s1, |ordered|, alpha, beta, maximizing) && FirstBest(s1, v1, m1, maximizing)
    requires Explored(s2, |ordered|, alpha, beta, maximizing) && FirstBest(s2, v2, m2, maximizing)
    requires LevelSearched(t, table, g, depth, alpha, beta, maximizing, ordered, s1) && LevelSearched(t, table, g, depth, alpha, beta, maximizing, ordered, s2)
    ensures v1 == v2 && m1 == m2 && s1 == s2
    decreases depth, 0, |s1| + |s2| + 2
  {
    if |s1| <= |s2| {
      ExploredSame(t, table, g, depth, alpha, beta, maximizing, ordered, s1, s2);
    } else {
      ExploredSame(t, table, g, depth, alpha, beta, maximizing, ordered, s2, s1);
    }
    FirstBestUnique(s1, v1, m1, v2, m2, maximizing);
  }

  /** Of two explorations of the same level, the shorter one is the other. */
  lemma ExploredSame(t: Topology, table: map<Key, Entry>, g: Game, depth: nat, alpha: ExtInt, beta: ExtInt, maximizing: bool,
                     ordered: seq<Edge>, s1: seq<Step<Game>>, s2: seq<Step<Game>>)
    requires Explored(s1, |ordered|, alpha, beta, maximizing) && Explored(s2, |ordered|, alpha, beta, maximizing)
    requires LevelSearched(t, table, g, depth, alpha, beta, maximizing, ordered, s1) && LevelSearched(t, table, g, depth, alpha, beta, maximizing, ordered, s2)
    requires |s1| <= |s2|
    ensures s1 == s2
    decreases depth, 0, |s1| + 1
  {
    LevelPrefix(t, table, g, depth, alpha, beta, maximizing, ordered, s2, |s1|);
    LevelUnique(t, table, g, depth, alpha, beta, maximizing, ordered, s1, s2[..|s1|]);
    ExploredPrefix(s1, s2, |ordered|, alpha, beta, maximizing);
    assert s2[..|s1|] == s2;
  }

  /** Two levels' steps of the same length, from the same table, state and window, are the same steps. */
  lemma {:induction false} LevelUnique(t: Topology, table: map<Key, Entry>, g: Game, depth: nat, alpha: ExtInt, beta: ExtInt, maximizing: bool,
                                       ordered: seq<Edge>, s1: seq<Step<Game>>, s2: seq<Step<Game>>)
    requires LevelSearched(t, table, g, depth, alpha, beta, maximizing, ordered, s1) && LevelSearched(t, table, g, depth, alpha, beta, maximizing, ordered, s2) && |s1| == |s2|
    ensures s1 == s2
    decreases depth, 0, |s1|
  {
    if s1 != [] {
      var n := |s1|;
      var init1, init2 := s1[..n - 1], s2[..n - 1];
      LevelUnique(t, table, g, depth, alpha, beta, maximizing, ordered, init1, init2);
      var last1, last2 := s1[n - 1], s2[n - 1];
      assert init1 == init2 && last1.move == last2.move;
      ChildUnique(t, g, last1.move, maximizing, last1.child, last1.maximizing, last2.child, last2.maximizing);
      SearchedUnique(t, LevelTable(init1, table), last1.child, depth - 1,
                     AlphaAfter(init1, alpha, beta, maximizing), BetaAfter(init1, alpha, beta, maximizing), last1.maximizing,
                     last1.value, last1.bestMove, last1.sub, last1.after, last2.value, last2.bestMove, last2.sub, last2.after);
      Snoc(s1);
      Snoc(s2);
    }
  }

  /**
   * The loop over the ordered moves of one level (both branches of the
   * source, which differ only in the side): the first strictly better
   * value is kept with its move, alpha (or beta) is tightened, and the loop
   * stops once beta <= alpha.
   */
  method SearchMoves(t: Topology, tt: TranspositionTable, g: Game, depth: nat, alpha0: ExtInt, beta0: ExtInt, maximizing: bool, ordered: seq<Edge>)
    returns (best: ExtInt, bestMove: Option<Edge>, ghost steps: seq<Step<Game>>)
    requires TopologyWF(t) && GameWF(t, g) && AllFinite(tt.entries) && depth > 0
    requires |ordered| > 0 && forall m | m in ordered :: m in t.edgeCells
    modifies tt
    decreases depth, 0
    ensures AllFinite(tt.entries) && best.Fin?
    ensures Explored(steps, |ordered|, alpha0, beta0, maximizing)
    ensures FirstBest(steps, best, bestMove, maximizing)
    ensures LevelSearched(t, old(tt.entries), g, depth, alpha0, beta0, maximizing, ordered, steps)
    ensures tt.entries == LevelTable(steps, old(tt.entries))
  {
    best := Worst(maximizing);
    bestMove := None;
    var alpha, beta := alpha0, beta0;
    steps := [];
    ghost var bi := 0;
    var i := 0;
    while i < |ordered|
      invariant 0 <= i <= |ordered| && |steps| == i
      invariant AllFinite(tt.entries)
      invariant LevelSearched(t, old(tt.entries), g, depth, alpha0, beta0, maximizing, ordered, steps)
      invariant tt.entries == LevelTable(steps, old(tt.entries))
      invariant LevelInv(steps, alpha0, beta0, maximizing, alpha, beta, best, bestMove, bi)
      invariant i > 0 ==> Less(alpha, beta)
      invariant alpha == AlphaAfter(steps, alpha0, beta0, maximizing) && beta == BetaAfter(steps, alpha0, beta0, maximizing)
    {
      var move := ordered[i];
      var v, step := Explore(t, tt, g, depth, alpha0, beta0, maximizing, ordered, old(tt.entries), steps, alpha, beta, move);
      alpha, beta, best, bestMove, bi := Keep(steps, alpha0, beta0, maximizing, alpha, beta, best, bestMove, bi, step, move, v);
      steps := steps + [step];
      i := i + 1;
      if AtMost(beta, alpha) {
        break;
      }
    }
    LevelExit(steps, |ordered|, alpha0, beta0, maximizing, alpha, beta, best, bestMove, bi);
  }

  /**
   * The non-terminal case of minimax: the possible moves, ordered for the
   * side to move, are searched as SearchMoves says, and the move found is
   * an undrawn edge.
   */
  method Expand(t: Topology, tt: TranspositionTable, g: Game, depth: nat, alpha: ExtInt, beta: ExtInt, maximizing: bool)
    returns (value: ExtInt, bestMove: Option<Edge>, ghost steps: seq<Step<Game>>)
    requires TopologyWF(t) && GameWF(t, g) && AllFinite(tt.entries)
    requires depth > 0 && !AllOwned(g.board)
    modifies tt
    decreases depth, 1
    ensures AllFinite(tt.entries) && value.Fin?
    ensures var ordered := OrderedMoves(t, g.board, PossibleMoves(t, g.board), maximizing);
      && Explored(steps, |ordered|, alpha, beta, maximizing)
      && FirstBest(steps, value, bestMove, maximizing)
      && LevelSearched(t, old(tt.entries), g, depth, alpha, beta, maximizing, ordered, steps)
    ensures tt.entries == LevelTable(steps, old(tt.entries))
    ensures bestMove.Some? && bestMove.value in g.board.edges && g.board.edges[bestMove.value] == UNCLAIMED
  {
    var moves := PossibleMoves(t, g.board);
    PossibleMovesExact(t, g.board);
    ghost var undrawn :| undrawn in g.board.edges && g.board.edges[undrawn] == UNCLAIMED;
    assert undrawn in moves;
    var ordered := OrderMoves(t, g, moves, maximizing);
    OrderMovesLaw(t, g.board, moves, maximizing);
    assert |ordered| == |multiset(ordered)| == |moves|;
    value, bestMove, steps := SearchMoves(t, tt, g, depth, alpha, beta, maximizing, ordered);
    LevelMoves(t, old(tt.entries), g, depth, alpha, beta, maximizing, ordered, steps);
    ghost var i :| BestAt(steps, value, bestMove, maximizing, i);
    assert bestMove.value == ordered[i] && ordered[i] in ordered;
  }

  /**
   * minimax of third_checkpoint/ai.py. A table entry at least as deep as
   * requested is returned as stored and nothing changes. Otherwise the
   * result is stored under the state's key with the requested depth; at
   * depth 0 or in a terminal state (every edge owned) the value is
   * evaluate(state) with no move; otherwise the ordered moves are explored
   * as SearchMoves describes and the move kept is an undrawn edge.
   */
  method Minimax(t: Topology, tt: TranspositionTable, g: Game, depth: nat, alpha: ExtInt, beta: ExtInt, maximizing: bool)
    returns (value: ExtInt, bestMove: Option<Edge>, ghost steps: seq<Step<Game>>)
    requires TopologyWF(t) && GameWF(t, g) && AllFinite(tt.entries)
    modifies tt
    decreases depth, 2
    ensures AllFinite(tt.entries) && value.Fin?
    ensures Searched(t, old(tt.entries), g, depth, alpha, beta, maximizing, value, bestMove, steps, tt.entries)
    ensures !Hit(old(tt.entries), HashGame(g), depth) && depth > 0 && !AllOwned(g.board) ==>
      bestMove.Some? && bestMove.value in g.board.edges && g.board.edges[bestMove.value] == UNCLAIMED
  {
    var key := HashGame(g);
    if key in tt.entries && tt.entries[key].depth >= depth {
      return tt.entries[key].value, tt.entries[key].move, [];
    }
    if depth == 0 || AllOwned(g.board) {
      value := Fin(Evaluate(g.board));
      tt.entries := tt.entries[key := Entry(value, None, depth)];
      return value, None, [];
    }
    value, bestMove, steps := Expand(t, tt, g, depth, alpha, beta, maximizing);
    tt.entries := tt.entries[key := Entry(value, bestMove, depth)];
  }
}
