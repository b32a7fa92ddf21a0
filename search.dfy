/**
 * What the two searches (main.py and third_checkpoint/ai.py) share: the
 * search values with their infinite sentinels, the transposition table
 * keyed on the edge-ownership map, and the move-ordering heuristic with the
 * stable sort that Python's `sorted` performs.
 */
module Search {
  import opened HexGrid

  // ------------------------------------------------------ search values

  /** A search value: a score, or one of the sentinels -math.inf and math.inf. */
  datatype ExtInt = NegInf | Fin(n: int) | PosInf

  predicate Less(a: ExtInt, b: ExtInt) {
    match a
    case NegInf => !b.NegInf?
    case Fin(x) => b.PosInf? || (b.Fin? && x < b.n)
    case PosInf => false
  }

  predicate AtMost(a: ExtInt, b: ExtInt) {
    !Less(b, a)
  }

  /** Python's max(a, b): the first argument unless the second is larger. */
  function Max(a: ExtInt, b: ExtInt): (r: ExtInt)
    ensures AtMost(a, r) && AtMost(b, r)
    ensures r == a || r == b
  {
    if Less(a, b) then b else a
  }

  /** Python's min(a, b): the first argument unless the second is smaller. */
  function Min(a: ExtInt, b: ExtInt): (r: ExtInt)
    ensures AtMost(r, a) && AtMost(r, b)
    ensures r == a || r == b
  {
    if Less(b, a) then b else a
  }

  // ------------------------------------------------- transposition table

  /**
   * The table key. hash_state hashes the sorted (edge, owner) pairs, so the
   * key is the edge-ownership map itself (hash collisions are not modelled).
   */
  type Key = map<Edge, int>

  function HashState(b: Board): Key {
    b.edges
  }

  /** Two states share a table key exactly when their edges have the same owners. */
  lemma KeyIsEdgeMap(b1: Board, b2: Board)
    ensures HashState(b1) == HashState(b2) <==> b1.edges == b2.edges
  {
  }

  /** A table entry: {'value': .., 'move': .., 'depth': ..}. */
  datatype Entry = Entry(value: ExtInt, move: Option<Edge>, depth: int)

  /** The transposition_table dict that one search shares across its recursive calls. */
  class TranspositionTable {
    var entries: map<Key, Entry>

    constructor ()
      ensures entries == map[]
    {
      entries := map[];
    }
  }

  /** A lookup succeeds only for an entry computed at least as deep as requested. */
  predicate Hit(entries: map<Key, Entry>, key: Key, depth: int) {
    key in entries && entries[key].depth >= depth
  }

  /** Every stored value is a score, never a sentinel. */
  ghost predicate AllFinite(entries: map<Key, Entry>) {
    forall k | k in entries :: entries[k].value.Fin?
  }

  // ------------------------------------------------- one search level

  /** `a` is strictly better than `b` for the side to move. */
  predicate Better(a: ExtInt, b: ExtInt, maximizing: bool) {
    if maximizing then Less(b, a) else Less(a, b)
  }

  /**
   * One explored move of a search level: the move, the position after it,
   * the flag the recursive call got, the value and move it returned, the
   * steps of the child's own level (empty when it did not explore one) and
   * the table once it returned.
   */
  datatype Step<S> = Step(move: Edge, child: S, maximizing: bool, value: ExtInt,
                          bestMove: Option<Edge>, sub: seq<Step<S>>, after: map<Key, Entry>)

  /** The table once the steps `steps` are done: the caller's, then what the last step left. */
  function LevelTable<S>(steps: seq<Step<S>>, table: map<Key, Entry>): map<Key, Entry> {
    if steps == [] then table else steps[|steps| - 1].after
  }

  /** The alpha of a level after the steps `steps`: tightened by them when maximizing, the caller's otherwise. */
  function AlphaAfter<S>(steps: seq<Step<S>>, alpha: ExtInt, beta: ExtInt, maximizing: bool): ExtInt {
    if maximizing then WindowAfter(steps, alpha, beta, true) else alpha
  }

  /** The beta of a level after the steps `steps`: tightened by them when minimizing, the caller's otherwise. */
  function BetaAfter<S>(steps: seq<Step<S>>, alpha: ExtInt, beta: ExtInt, maximizing: bool): ExtInt {
    if maximizing then beta else WindowAfter(steps, alpha, beta, false)
  }

  /** Step `i` holds the value kept: nothing explored is better, and every earlier step is worse. */
  ghost predicate BestAt<S>(steps: seq<Step<S>>, value: ExtInt, bestMove: Option<Edge>, maximizing: bool, i: int) {
    && 0 <= i < |steps|
    && bestMove == Some(steps[i].move) && steps[i].value == value
    && (forall k | 0 <= k < i :: Better(value, steps[k].value, maximizing))
    && (forall k | 0 <= k < |steps| :: !Better(steps[k].value, value, maximizing))
  }

  /** The level keeps the first of the best values (the update is a strict comparison). */
  ghost predicate FirstBest<S>(steps: seq<Step<S>>, value: ExtInt, bestMove: Option<Edge>, maximizing: bool) {
    exists i :: BestAt(steps, value, bestMove, maximizing, i)
  }

  /** alpha = max(alpha, v) when maximizing, beta = min(beta, v) otherwise. */
  function Tighten(window: ExtInt, v: ExtInt, maximizing: bool): ExtInt {
    if maximizing then Max(window, v) else Min(window, v)
  }

  /** alpha (when maximizing) or beta (otherwise) after the steps `steps`, starting from the caller's. */
  function WindowAfter<S>(steps: seq<Step<S>>, alpha: ExtInt, beta: ExtInt, maximizing: bool): ExtInt
    decreases |steps|
  {
    if steps == [] then (if maximizing then alpha else beta)
    else Tighten(WindowAfter(steps[..|steps| - 1], alpha, beta, maximizing), steps[|steps| - 1].value, maximizing)
  }

  /** The window is still open (alpha < beta) with `window` as the bound the level moves. */
  predicate Open(window: ExtInt, alpha: ExtInt, beta: ExtInt, maximizing: bool) {
    if maximizing then Less(window, beta) else Less(alpha, window)
  }

  /** Alpha-beta bookkeeping: every step but the last left the window open. */
  ghost predicate Pruned<S>(steps: seq<Step<S>>, alpha: ExtInt, beta: ExtInt, maximizing: bool) {
    forall k | 0 < k < |steps| :: Open(WindowAfter(steps[..k], alpha, beta, maximizing), alpha, beta, maximizing)
  }

  /**
   * How a level's loop ended: at least one move was explored, and it
   * stopped before the last ordered move only because the window closed
   * (beta <= alpha).
   */
  ghost predicate Explored<S>(steps: seq<Step<S>>, total: int, alpha: ExtInt, beta: ExtInt, maximizing: bool) {
    && 0 < |steps| <= total
    && Pruned(steps, alpha, beta, maximizing)
    && (|steps| < total ==> !Open(WindowAfter(steps, alpha, beta, maximizing), alpha, beta, maximizing))
  }

  /** The starting value of a level: -math.inf when maximizing, math.inf otherwise. */
  function Worst(maximizing: bool): ExtInt {
    if maximizing then NegInf else PosInf
  }

  /**
   * The state of a level's loop after the steps `steps`: every value is a
   * score, the window is as Pruned says, the current alpha (or beta) is
   * WindowAfter the steps, the other bound is the caller's, and the kept
   * value and move are those of step `bi`.
   */
  ghost predicate LevelInv<S>(steps: seq<Step<S>>, alpha0: ExtInt, beta0: ExtInt, maximizing: bool,
                              alpha: ExtInt, beta: ExtInt, best: ExtInt, bestMove: Option<Edge>, bi: int) {
    && (forall k | 0 <= k < |steps| :: steps[k].value.Fin?)
    && Pruned(steps, alpha0, beta0, maximizing)
    && (if maximizing then alpha else beta) == WindowAfter(steps, alpha0, beta0, maximizing)
    && (if maximizing then beta == beta0 else alpha == alpha0)
    && (|steps| == 0 ==> best == Worst(maximizing))
    && (|steps| > 0 ==> BestAt(steps, best, bestMove, maximizing, bi))
  }

  /** One iteration of a level's loop keeps LevelInv. */
  lemma LevelStep<S>(steps: seq<Step<S>>, alpha0: ExtInt, beta0: ExtInt, maximizing: bool,
                     alpha: ExtInt, beta: ExtInt, best: ExtInt, bestMove: Option<Edge>, bi: int,
                     s: Step<S>, alpha': ExtInt, beta': ExtInt, best': ExtInt, bestMove': Option<Edge>, bi': int)
    requires LevelInv(steps, alpha0, beta0, maximizing, alpha, beta, best, bestMove, bi)
    requires |steps| > 0 ==> Less(alpha, beta)
    requires s.value.Fin?
    requires (best', bestMove', bi') == if Better(s.value, best, maximizing) then (s.value, Some(s.move), |steps|) else (best, bestMove, bi)
    requires alpha' == (if maximizing then Max(alpha, s.value) else alpha)
    requires beta' == (if maximizing then beta else Min(beta, s.value))
    ensures LevelInv(steps + [s], alpha0, beta0, maximizing, alpha', beta', best', bestMove', bi')
  {
    var steps' := steps + [s];
    assert steps'[..|steps|] == steps;
    forall k | 0 <= k < |steps'|
      ensures steps'[k].value.Fin?
    {
      if k < |steps| {
        assert steps'[k] == steps[k];
      }
    }
    PrunedStep(steps, alpha0, beta0, maximizing, alpha, beta, s);
    if |steps| == 0 {
      assert Better(s.value, best, maximizing);
    }
    BestStep(steps, best, bestMove, maximizing, bi, s, best', bestMove', bi');
  }

  /**
   * The bookkeeping of one iteration of a level's loop: a strictly better
   * value is kept with its move, then alpha = max(alpha, value) when
   * maximizing and beta = min(beta, value) otherwise.
   */
  method Keep<S>(ghost steps: seq<Step<S>>, alpha0: ExtInt, beta0: ExtInt, maximizing: bool,
                 alpha: ExtInt, beta: ExtInt, best: ExtInt, bestMove: Option<Edge>, ghost bi: int,
                 ghost step: Step<S>, move: Edge, value: ExtInt)
    returns (alpha': ExtInt, beta': ExtInt, best': ExtInt, bestMove': Option<Edge>, ghost bi': int)
    requires LevelInv(steps, alpha0, beta0, maximizing, alpha, beta, best, bestMove, bi)
    requires |steps| > 0 ==> Less(alpha, beta)
    requires step.move == move && step.value == value && value.Fin?
    ensures (best', bestMove') == if Better(value, best, maximizing) then (value, Some(move)) else (best, bestMove)
    ensures alpha' == (if maximizing then Max(alpha, value) else alpha)
    ensures beta' == (if maximizing then beta else Min(beta, value))
    ensures LevelInv(steps + [step], alpha0, beta0, maximizing, alpha', beta', best', bestMove', bi')
    ensures alpha' == AlphaAfter(steps + [step], alpha0, beta0, maximizing)
    ensures beta' == BetaAfter(steps + [step], alpha0, beta0, maximizing)
  {
    alpha', beta', best', bestMove', bi' := alpha, beta, best, bestMove, bi;
    if Better(value, best, maximizing) {
      best' := value;
      bestMove' := Some(move);
      bi' := |steps|;
    }
    if maximizing {
      alpha' := Max(alpha, value);
    } else {
      beta' := Min(beta, value);
    }
    LevelStep(steps, alpha0, beta0, maximizing, alpha, beta, best, bestMove, bi, step, alpha', beta', best', bestMove', bi');
  }

  /** A level whose loop ended, by running out of moves or by the window closing, explored as Explored says and kept its first best value. */
  lemma LevelExit<S>(steps: seq<Step<S>>, total: int, alpha0: ExtInt, beta0: ExtInt, maximizing: bool,
                     alpha: ExtInt, beta: ExtInt, best: ExtInt, bestMove: Option<Edge>, bi: int)
    requires LevelInv(steps, alpha0, beta0, maximizing, alpha, beta, best, bestMove, bi)
    requires 0 < |steps| <= total
    requires |steps| < total ==> AtMost(beta, alpha)
    ensures best.Fin?
    ensures Explored(steps, total, alpha0, beta0, maximizing)
    ensures FirstBest(steps, best, bestMove, maximizing)
  {
    if |steps| < total {
      OrderFacts(alpha, beta, alpha);
    }
  }

  /** A non-empty sequence of steps is its steps but the last, then the last. */
  lemma Snoc<S>(steps: seq<Step<S>>)
    requires steps != []
    ensures steps == steps[..|steps| - 1] + [steps[|steps| - 1]]
  {
  }

  /** Of two explorations of a level with the same window, one a prefix of the other, neither goes on past where the other stopped. */
  lemma ExploredPrefix<S>(s1: seq<Step<S>>, s2: seq<Step<S>>, total: int, alpha: ExtInt, beta: ExtInt, maximizing: bool)
    requires Explored(s1, total, alpha, beta, maximizing) && Explored(s2, total, alpha, beta, maximizing)
    requires |s1| <= |s2| && s1 == s2[..|s1|]
    ensures |s1| == |s2|
  {
    assert |s1| < |s2| ==> Open(WindowAfter(s1, alpha, beta, maximizing), alpha, beta, maximizing);
  }

  /** The first best value of a level, and its move, are unique. */
  lemma FirstBestUnique<S>(steps: seq<Step<S>>, v1: ExtInt, m1: Option<Edge>, v2: ExtInt, m2: Option<Edge>, maximizing: bool)
    requires FirstBest(steps, v1, m1, maximizing) && FirstBest(steps, v2, m2, maximizing)
    ensures v1 == v2 && m1 == m2
  {
    var i :| BestAt(steps, v1, m1, maximizing, i);
    var j :| BestAt(steps, v2, m2, maximizing, j);
    assert steps[i].value == v1 && steps[j].value == v2;
  }

  lemma PrunedStep<S>(steps: seq<Step<S>>, alpha0: ExtInt, beta0: ExtInt, maximizing: bool, alpha: ExtInt, beta: ExtInt, s: Step<S>)
    requires Pruned(steps, alpha0, beta0, maximizing)
    requires (if maximizing then alpha else beta) == WindowAfter(steps, alpha0, beta0, maximizing)
    requires if maximizing then beta == beta0 else alpha == alpha0
    requires |steps| > 0 ==> Less(alpha, beta)
    ensures Pruned(steps + [s], alpha0, beta0, maximizing)
  {
    var steps' := steps + [s];
    forall k | 0 < k < |steps'|
      ensures Open(WindowAfter(steps'[..k], alpha0, beta0, maximizing), alpha0, beta0, maximizing)
    {
      assert steps'[..k] == steps[..k];
      if k == |steps| {
        assert steps[..k] == steps;
      }
    }
  }

  lemma BestStep<S>(steps: seq<Step<S>>, best: ExtInt, bestMove: Option<Edge>, maximizing: bool, bi: int,
                    s: Step<S>, best': ExtInt, bestMove': Option<Edge>, bi': int)
    requires |steps| > 0 ==> BestAt(steps, best, bestMove, maximizing, bi)
    requires |steps| == 0 ==> Better(s.value, best, maximizing)
    requires (best', bestMove', bi') == if Better(s.value, best, maximizing) then (s.value, Some(s.move), |steps|) else (best, bestMove, bi)
    ensures BestAt(steps + [s], best', bestMove', maximizing, bi')
  {
    var steps' := steps + [s];
    var n := |steps|;
    if Better(s.value, best, maximizing) {
      forall k | 0 <= k < n
        ensures Better(s.value, steps'[k].value, maximizing) && !Better(steps'[k].value, s.value, maximizing)
      {
        assert steps'[k] == steps[k];
        OrderFacts(steps[k].value, best, s.value);
        OrderFacts(s.value, best, steps[k].value);
      }
    } else {
      forall k | 0 <= k < |steps'|
        ensures !Better(steps'[k].value, best, maximizing)
      {
        if k < n {
          assert steps'[k] == steps[k];
        }
      }
      forall k | 0 <= k < bi
        ensures Better(best, steps'[k].value, maximizing)
      {
        assert steps'[k] == steps[k];
      }
    }
  }

  /**
   * The window only tightens: after any prefix of the steps, alpha is at
   * least the caller's and at most its final value when maximizing, and
   * beta the other way round when minimizing.
   */
  lemma {:induction false} WindowMonotone<S>(steps: seq<Step<S>>, alpha: ExtInt, beta: ExtInt, maximizing: bool, i: nat)
    requires i <= |steps|
    ensures var w, w' := WindowAfter(steps[..i], alpha, beta, maximizing), WindowAfter(steps, alpha, beta, maximizing);
      if maximizing then AtMost(alpha, w) && AtMost(w, w') else AtMost(w, beta) && AtMost(w', w)
    decreases |steps|
  {
    var w' := WindowAfter(steps, alpha, beta, maximizing);
    if i == |steps| {
      assert steps[..i] == steps;
      if steps != [] {
        var init := steps[..|steps| - 1];
        WindowMonotone(init, alpha, beta, maximizing, |init|);
        assert init[..|init|] == init;
        OrderFacts(alpha, WindowAfter(init, alpha, beta, maximizing), w');
        OrderFacts(w', WindowAfter(init, alpha, beta, maximizing), beta);
      }
    } else {
      var init := steps[..|steps| - 1];
      assert init[..i] == steps[..i];
      WindowMonotone(init, alpha, beta, maximizing, i);
      var wi := WindowAfter(init, alpha, beta, maximizing);
      OrderFacts(WindowAfter(steps[..i], alpha, beta, maximizing), wi, w');
      OrderFacts(w', wi, WindowAfter(steps[..i], alpha, beta, maximizing));
    }
  }

  /** The order on search values is total and transitive. */
  lemma OrderFacts(a: ExtInt, b: ExtInt, c: ExtInt)
    ensures AtMost(a, b) && AtMost(b, c) ==> AtMost(a, c)
    ensures Less(a, b) && AtMost(b, c) ==> Less(a, c)
    ensures AtMost(a, b) && Less(b, c) ==> Less(a, c)
    ensures Less(a, b) || a == b || Less(b, a)
  {
  }

  // ------------------------------------------------------ move ordering

  /** How many of the edges `es` are drawn once `move` is: the move itself or an edge with an owner. */
  function DrawnWith(edges: map<Edge, int>, es: seq<Edge>, move: Edge): nat
    decreases |es|
  {
    if es == [] then 0
    else DrawnWith(edges, es[..|es| - 1], move) + (if es[|es| - 1] == move || Drawn(edges, es[|es| - 1]) then 1 else 0)
  }

  /** The bonus of one unclaimed cell: 100 when the move completes it, 50 when it leaves one edge missing. */
  function CellBonus(drawn: nat): int {
    if drawn == 6 then 100 else if drawn == 5 then 50 else 0
  }

  /** The ordering score that the cells `cs` contribute to `move`. */
  function ScoreOver(t: Topology, b: Board, cs: seq<Cell>, move: Edge): int
    decreases |cs|
  {
    if cs == [] then 0
    else
      var c := cs[|cs| - 1];
      ScoreOver(t, b, cs[..|cs| - 1], move)
      + (if c in b.cells && b.cells[c] == UNCLAIMED && c in t.cellEdges then CellBonus(DrawnWith(b.edges, t.cellEdges[c], move)) else 0)
  }

  /** The ordering score of `move` (a move outside the board scores nothing). */
  function MoveScore(t: Topology, b: Board, move: Edge): int {
    if move in t.edgeCells then ScoreOver(t, b, t.edgeCells[move], move) else 0
  }

  /** How many of the edges `es` are still undrawn in `edges`. */
  function Missing(edges: map<Edge, int>, es: seq<Edge>): nat
    decreases |es|
  {
    if es == [] then 0
    else Missing(edges, es[..|es| - 1]) + (if Drawn(edges, es[|es| - 1]) then 0 else 1)
  }

  /** The cells of `cs` that are still unclaimed and lack exactly one edge under `edges`, in order. */
  function OneShort(t: Topology, cells: map<Cell, int>, edges: map<Edge, int>, cs: seq<Cell>): seq<Cell>
    decreases |cs|
  {
    if cs == [] then []
    else
      var c := cs[|cs| - 1];
      var rest := OneShort(t, cells, edges, cs[..|cs| - 1]);
      if c in cells && cells[c] == UNCLAIMED && c in t.cellEdges && Missing(edges, t.cellEdges[c]) == 1 then rest + [c] else rest
  }

  /** The (move, score) list order_moves builds. */
  function Scored(t: Topology, b: Board, moves: seq<Edge>): (r: seq<(Edge, int)>)
    ensures |r| == |moves|
    ensures forall i | 0 <= i < |moves| :: r[i] == (moves[i], MoveScore(t, b, moves[i]))
  {
    seq(|moves|, i requires 0 <= i < |moves| => (moves[i], MoveScore(t, b, moves[i])))
  }

  /** The sort key: the negated score when maximizing (descending), the score otherwise (ascending). */
  function SortKey(x: (Edge, int), maximizing: bool): int {
    if maximizing then -x.1 else x.1
  }

  /** Inserts `x` before the first element whose key is not smaller, so it precedes equal keys. */
  function Insert(x: (Edge, int), s: seq<(Edge, int)>, maximizing: bool): seq<(Edge, int)>
    decreases |s|
  {
    if s == [] then [x]
    else if SortKey(x, maximizing) <= SortKey(s[0], maximizing) then [x] + s
    else [s[0]] + Insert(x, s[1..], maximizing)
  }

  /** Python's stable `sorted` by SortKey, as an insertion sort from the back. */
  function StableSort(s: seq<(Edge, int)>, maximizing: bool): seq<(Edge, int)>
    decreases |s|
  {
    if s == [] then [] else Insert(s[0], StableSort(s[1..], maximizing), maximizing)
  }

  function Firsts(s: seq<(Edge, int)>): (r: seq<Edge>)
    ensures |r| == |s|
    ensures forall i | 0 <= i < |s| :: r[i] == s[i].0
  {
    seq(|s|, i requires 0 <= i < |s| => s[i].0)
  }

  /** The result of order_moves: the moves of the stably sorted (move, score) list. */
  function OrderedMoves(t: Topology, b: Board, moves: seq<Edge>, maximizing: bool): seq<Edge>
  {
    Firsts(StableSort(Scored(t, b, moves), maximizing))
  }

  ghost predicate SortedBy(s: seq<(Edge, int)>, maximizing: bool) {
    forall i, j | 0 <= i < j < |s| :: SortKey(s[i], maximizing) <= SortKey(s[j], maximizing)
  }

  /** The elements of `s` with key `k`, in order. */
  function WithKey(s: seq<(Edge, int)>, k: int, maximizing: bool): seq<(Edge, int)>
    decreases |s|
  {
    if s == [] then []
    else (if SortKey(s[0], maximizing) == k then [s[0]] else []) + WithKey(s[1..], k, maximizing)
  }

  /** The moves of `moves` whose ordering score is `k`, in order. */
  function ScoringExactly(t: Topology, b: Board, moves: seq<Edge>, k: int): seq<Edge>
    decreases |moves|
  {
    if moves == [] then []
    else (if MoveScore(t, b, moves[0]) == k then [moves[0]] else []) + ScoringExactly(t, b, moves[1..], k)
  }

  // ----------------------------------------------------- lemmas: scoring

  /**
   * Counting the move as drawn: the count never exceeds the number of edges
   * and reaches it exactly when every edge is drawn on the board after the move.
   */
  lemma {:induction false} DrawnWithMeaning(edges: map<Edge, int>, es: seq<Edge>, move: Edge, p: Player)
    ensures DrawnWith(edges, es, move) <= |es|
    ensures DrawnWith(edges, es, move) == |es| <==> AllDrawn(edges[move := p], es)
    decreases |es|
  {
    if es != [] {
      var init := es[..|es| - 1];
      var e := es[|es| - 1];
      DrawnWithMeaning(edges, init, move, p);
      assert es == init + [e];
      assert Drawn(edges[move := p], e) <==> e == move || Drawn(edges, e);
      if AllDrawn(edges[move := p], es) {
        assert AllDrawn(edges[move := p], init);
      }
    }
  }

  /** Counted with the move drawn, the drawn and the missing edges of `es` make up all of them. */
  lemma {:induction false} DrawnWithMissing(edges: map<Edge, int>, es: seq<Edge>, move: Edge, p: Player)
    ensures DrawnWith(edges, es, move) + Missing(edges[move := p], es) == |es|
    decreases |es|
  {
    if es != [] {
      var e := es[|es| - 1];
      DrawnWithMissing(edges, es[..|es| - 1], move, p);
      assert Drawn(edges[move := p], e) <==> e == move || Drawn(edges, e);
    }
  }

  /**
   * Over the cells `cs`, the ordering score is 100 for every cell the move
   * claims (Won on the board after the move) plus 50 for every unclaimed
   * cell the move leaves one edge short (OneShort on the board after the move).
   */
  lemma {:induction false} ScoreOverWon(t: Topology, b: Board, cs: seq<Cell>, move: Edge, p: Player)
    requires forall c | c in t.cellEdges :: |t.cellEdges[c]| == 6
    ensures var edges' := b.edges[move := p];
      ScoreOver(t, b, cs, move) == 100 * |Won(t, b.cells, edges', cs)| + 50 * |OneShort(t, b.cells, edges', cs)|
    ensures |Won(t, b.cells, b.edges[move := p], cs)| + |OneShort(t, b.cells, b.edges[move := p], cs)| <= |cs|
    decreases |cs|
  {
    if cs != [] {
      var c := cs[|cs| - 1];
      ScoreOverWon(t, b, cs[..|cs| - 1], move, p);
      if c in b.cells && b.cells[c] == UNCLAIMED && c in t.cellEdges {
        DrawnWithMeaning(b.edges, t.cellEdges[c], move, p);
        DrawnWithMissing(b.edges, t.cellEdges[c], move, p);
      }
    }
  }

  /**
   * A move's ordering score is 100 per cell apply_move would claim with it
   * plus exactly 50 per adjacent unclaimed cell it leaves one edge short,
   * hence at most 50 per other adjacent cell and always a multiple of 50.
   */
  lemma MoveScoreCountsCaptures(t: Topology, b: Board, move: Edge, p: Player)
    requires TopologyWF(t) && move in t.edgeCells
    ensures var edges' := b.edges[move := p];
      var won := Won(t, b.cells, edges', t.edgeCells[move]);
      var near := OneShort(t, b.cells, edges', t.edgeCells[move]);
      && MoveScore(t, b, move) == 100 * |won| + 50 * |near|
      && 100 * |won| <= MoveScore(t, b, move) <= 100 * |won| + 50 * (|t.edgeCells[move]| - |won|)
      && MoveScore(t, b, move) % 50 == 0
  {
    ScoreOverWon(t, b, t.edgeCells[move], move, p);
  }

  // ------------------------------------------------------- lemmas: sort

  /** The moves of a list with one element in front. */
  lemma FirstsCons(y: (Edge, int), s: seq<(Edge, int)>)
    ensures Firsts([y] + s) == [y.0] + Firsts(s)
  {
    var a, b := Firsts([y] + s), [y.0] + Firsts(s);
    forall i | 0 <= i < |a|
      ensures a[i] == b[i]
    {
      if i > 0 {
        assert ([y] + s)[i] == s[i - 1];
      }
    }
  }

  lemma {:induction false} InsertPermutes(x: (Edge, int), s: seq<(Edge, int)>, maximizing: bool)
    ensures multiset(Insert(x, s, maximizing)) == multiset(s) + multiset{x}
    decreases |s|
  {
    if s == [] {
      assert Insert(x, s, maximizing) == [x];
    } else if SortKey(x, maximizing) <= SortKey(s[0], maximizing) {
      assert Insert(x, s, maximizing) == [x] + s;
    } else {
      var r := Insert(x, s[1..], maximizing);
      InsertPermutes(x, s[1..], maximizing);
      assert Insert(x, s, maximizing) == [s[0]] + r;
      assert s == [s[0]] + s[1..];
    }
  }

  lemma {:induction false} InsertPermutesMoves(x: (Edge, int), s: seq<(Edge, int)>, maximizing: bool)
    ensures multiset(Firsts(Insert(x, s, maximizing))) == multiset(Firsts(s)) + multiset{x.0}
    decreases |s|
  {
    if s == [] {
      assert Insert(x, s, maximizing) == [x];
    } else if SortKey(x, maximizing) <= SortKey(s[0], maximizing) {
      assert Insert(x, s, maximizing) == [x] + s;
      FirstsCons(x, s);
    } else {
      var r := Insert(x, s[1..], maximizing);
      InsertPermutesMoves(x, s[1..], maximizing);
      assert Insert(x, s, maximizing) == [s[0]] + r;
      FirstsCons(s[0], r);
      assert s == [s[0]] + s[1..];
      FirstsCons(s[0], s[1..]);
      assert multiset(Firsts(Insert(x, s, maximizing))) == multiset{s[0].0} + multiset(Firsts(r));
      assert multiset(Firsts(s)) == multiset{s[0].0} + multiset(Firsts(s[1..]));
    }
  }

  /** A lower bound on the keys of `s` and of `x` is one on the keys of the insertion. */
  lemma {:induction false} InsertLowerBound(x: (Edge, int), s: seq<(Edge, int)>, maximizing: bool, lo: int)
    requires forall i | 0 <= i < |s| :: lo <= SortKey(s[i], maximizing)
    requires lo <= SortKey(x, maximizing)
    ensures forall i | 0 <= i < |Insert(x, s, maximizing)| :: lo <= SortKey(Insert(x, s, maximizing)[i], maximizing)
    decreases |s|
  {
    if s != [] && SortKey(x, maximizing) > SortKey(s[0], maximizing) {
      InsertLowerBound(x, s[1..], maximizing, lo);
      assert Insert(x, s, maximizing) == [s[0]] + Insert(x, s[1..], maximizing);
    }
  }

  lemma {:induction false} InsertSorted(x: (Edge, int), s: seq<(Edge, int)>, maximizing: bool)
    requires SortedBy(s, maximizing)
    ensures SortedBy(Insert(x, s, maximizing), maximizing)
    decreases |s|
  {
    if s != [] && SortKey(x, maximizing) > SortKey(s[0], maximizing) {
      var rest := Insert(x, s[1..], maximizing);
      InsertSorted(x, s[1..], maximizing);
      InsertLowerBound(x, s[1..], maximizing, SortKey(s[0], maximizing));
      var r := [s[0]] + rest;
      assert Insert(x, s, maximizing) == r;
      forall i, j | 0 <= i < j < |r|
        ensures SortKey(r[i], maximizing) <= SortKey(r[j], maximizing)
      {
        assert r[j] == rest[j - 1];
        if i > 0 {
          assert r[i] == rest[i - 1];
        }
      }
    } else if s != [] {
      assert Insert(x, s, maximizing) == [x] + s;
    }
  }

  /** Inserting `x` puts it in front of the elements with its key and leaves the rest of each key class alone. */
  lemma {:induction false} InsertStable(x: (Edge, int), s: seq<(Edge, int)>, k: int, maximizing: bool)
    ensures WithKey(Insert(x, s, maximizing), k, maximizing)
         == (if SortKey(x, maximizing) == k then [x] else []) + WithKey(s, k, maximizing)
    decreases |s|
  {
    if s == [] {
      assert Insert(x, s, maximizing) == [x];
      assert [x][1..] == [];
    } else if SortKey(x, maximizing) <= SortKey(s[0], maximizing) {
      assert ([x] + s)[1..] == s;
    } else {
      var rest := Insert(x, s[1..], maximizing);
      InsertStable(x, s[1..], k, maximizing);
      assert ([s[0]] + rest)[1..] == rest;
      assert WithKey(s, k, maximizing)
          == (if SortKey(s[0], maximizing) == k then [s[0]] else []) + WithKey(s[1..], k, maximizing);
    }
  }

  lemma {:induction false} StableSortPermutes(s: seq<(Edge, int)>, maximizing: bool)
    ensures multiset(StableSort(s, maximizing)) == multiset(s)
    decreases |s|
  {
    if s != [] {
      var sorted := StableSort(s[1..], maximizing);
      assert StableSort(s, maximizing) == Insert(s[0], sorted, maximizing);
      StableSortPermutes(s[1..], maximizing);
      InsertPermutes(s[0], sorted, maximizing);
      assert s == [s[0]] + s[1..];
    }
  }

  lemma {:induction false} StableSortPermutesMoves(s: seq<(Edge, int)>, maximizing: bool)
    ensures multiset(Firsts(StableSort(s, maximizing))) == multiset(Firsts(s))
    decreases |s|
  {
    if s != [] {
      var sorted := StableSort(s[1..], maximizing);
      assert StableSort(s, maximizing) == Insert(s[0], sorted, maximizing);
      StableSortPermutesMoves(s[1..], maximizing);
      InsertPermutesMoves(s[0], sorted, maximizing);
      assert s == [s[0]] + s[1..];
      FirstsCons(s[0], s[1..]);
    }
  }

  lemma {:induction false} StableSortSorted(s: seq<(Edge, int)>, maximizing: bool)
    ensures SortedBy(StableSort(s, maximizing), maximizing)
    decreases |s|
  {
    if s != [] {
      var sorted := StableSort(s[1..], maximizing);
      assert StableSort(s, maximizing) == Insert(s[0], sorted, maximizing);
      StableSortSorted(s[1..], maximizing);
      InsertSorted(s[0], sorted, maximizing);
    }
  }

  lemma {:induction false} StableSortStable(s: seq<(Edge, int)>, k: int, maximizing: bool)
    ensures WithKey(StableSort(s, maximizing), k, maximizing) == WithKey(s, k, maximizing)
    decreases |s|
  {
    if s != [] {
      var sorted := StableSort(s[1..], maximizing);
      assert StableSort(s, maximizing) == Insert(s[0], sorted, maximizing);
      StableSortStable(s[1..], k, maximizing);
      InsertStable(s[0], sorted, k, maximizing);
    }
  }

  /**
   * Python's sorted is a stable sort: the result is a permutation, it is
   * ordered by the key, and the elements of each key keep their order.
   */
  lemma StableSortLaw(s: seq<(Edge, int)>, maximizing: bool)
    ensures multiset(StableSort(s, maximizing)) == multiset(s)
    ensures multiset(Firsts(StableSort(s, maximizing))) == multiset(Firsts(s))
    ensures SortedBy(StableSort(s, maximizing), maximizing)
    ensures forall k :: WithKey(StableSort(s, maximizing), k, maximizing) == WithKey(s, k, maximizing)
  {
    StableSortPermutes(s, maximizing);
    StableSortPermutesMoves(s, maximizing);
    StableSortSorted(s, maximizing);
    forall k
      ensures WithKey(StableSort(s, maximizing), k, maximizing) == WithKey(s, k, maximizing)
    {
      StableSortStable(s, k, maximizing);
    }
  }

  /** For a list of moves paired with their own scores, a key class is the moves with one score. */
  lemma {:induction false} WithKeyScoring(t: Topology, b: Board, moves: seq<Edge>, k: int, maximizing: bool)
    ensures Firsts(WithKey(Scored(t, b, moves), if maximizing then -k else k, maximizing)) == ScoringExactly(t, b, moves, k)
    decreases |moves|
  {
    var key := if maximizing then -k else k;
    if moves != [] {
      var s := Scored(t, b, moves);
      WithKeyScoring(t, b, moves[1..], k, maximizing);
      assert s[1..] == Scored(t, b, moves[1..]);
      var head := if SortKey(s[0], maximizing) == key then [s[0]] else [];
      assert s[0] == (moves[0], MoveScore(t, b, moves[0]));
      assert Firsts(head) == if MoveScore(t, b, moves[0]) == k then [moves[0]] else [];
      assert Firsts(head + WithKey(s[1..], key, maximizing)) == Firsts(head) + Firsts(WithKey(s[1..], key, maximizing));
    }
  }

  /** A permutation of moves paired with their scores lists the moves of each score in the same order. */
  lemma {:induction false} WithKeyFirsts(t: Topology, b: Board, s: seq<(Edge, int)>, k: int, maximizing: bool)
    requires forall x | x in s :: x.1 == MoveScore(t, b, x.0)
    ensures Firsts(WithKey(s, if maximizing then -k else k, maximizing)) == ScoringExactly(t, b, Firsts(s), k)
    decreases |s|
  {
    var key := if maximizing then -k else k;
    if s != [] {
      WithKeyFirsts(t, b, s[1..], k, maximizing);
      assert Firsts(s)[1..] == Firsts(s[1..]);
      var head := if SortKey(s[0], maximizing) == key then [s[0]] else [];
      assert Firsts(head + WithKey(s[1..], key, maximizing)) == Firsts(head) + Firsts(WithKey(s[1..], key, maximizing));
    }
  }

  /**
   * order_moves returns a permutation of its input, sorted by ordering score
   * (descending when maximizing, ascending otherwise), and moves with equal
   * scores keep their input order.
   */
  lemma OrderMovesLaw(t: Topology, b: Board, moves: seq<Edge>, maximizing: bool)
    ensures var r := OrderedMoves(t, b, moves, maximizing);
      && multiset(r) == multiset(moves)
      && (forall m | m in r :: m in moves)
      && (forall i, j | 0 <= i < j < |r| ::
            if maximizing then MoveScore(t, b, r[i]) >= MoveScore(t, b, r[j]) else MoveScore(t, b, r[i]) <= MoveScore(t, b, r[j]))
      && (forall k :: ScoringExactly(t, b, r, k) == ScoringExactly(t, b, moves, k))
  {
    var s := Scored(t, b, moves);
    var sorted := StableSort(s, maximizing);
    var r := Firsts(sorted);
    StableSortLaw(s, maximizing);
    assert Firsts(s) == moves;
    forall x | x in sorted
      ensures x.1 == MoveScore(t, b, x.0)
    {
      assert x in multiset(s);
    }
    forall m | m in r
      ensures m in moves
    {
      assert m in multiset(moves);
    }
    forall i, j | 0 <= i < j < |r|
      ensures if maximizing then MoveScore(t, b, r[i]) >= MoveScore(t, b, r[j]) else MoveScore(t, b, r[i]) <= MoveScore(t, b, r[j])
    {
      assert sorted[i] in sorted && sorted[j] in sorted;
    }
    forall k
      ensures ScoringExactly(t, b, r, k) == ScoringExactly(t, b, moves, k)
    {
      WithKeyFirsts(t, b, sorted, k, maximizing);
      WithKeyScoring(t, b, moves, k, maximizing);
    }
  }
}
