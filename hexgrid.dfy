/**
 * The board layer shared by every snapshot of the game: hex cells, the
 * edges between them, the static cell/edge adjacency, the mutable owner
 * maps, and the queries every engine uses (possible moves, terminal test,
 * evaluation, the "claimed iff complete" invariant).
 */
module HexGrid {

  datatype Option<T> = None | Some(value: T)

  /** Owner value of an undrawn edge or an unclaimed cell. */
  const UNCLAIMED: int := -1

  type Player = p: int | 0 <= p <= 1

  function Opponent(p: Player): Player { 1 - p }

  /** A two-entry table indexed by player, as the source's {0: .., 1: ..} dicts and score list. */
  datatype PerPlayer<T> = PerPlayer(zero: T, one: T) {
    function At(p: Player): T { if p == 0 then zero else one }
    function With(p: Player, v: T): PerPlayer<T> { if p == 0 then this.(zero := v) else this.(one := v) }
  }

  /** Axial hex coordinate (q, r). */
  datatype Cell = Cell(q: int, r: int)
  datatype Point = Point(x: int, y: int)
  /** An edge is the normalised pair of its two end points. */
  datatype Edge = Edge(a: Point, b: Point)

  /**
   * The static adjacency of one match: the edges in the order the edge
   * dictionary was built, each cell's six edges and each edge's cells.
   */
  datatype Topology = Topology(edgeOrder: seq<Edge>, cellEdges: map<Cell, seq<Edge>>, edgeCells: map<Edge, seq<Cell>>)

  predicate Distinct<T(==)>(s: seq<T>) {
    forall i, j :: 0 <= i < j < |s| ==> s[i] != s[j]
  }

  ghost predicate TopologyWF(t: Topology) {
    && Distinct(t.edgeOrder)
    && (forall e :: e in t.edgeOrder <==> e in t.edgeCells)
    && (forall c :: c in t.cellEdges ==> |t.cellEdges[c]| == 6 && Distinct(t.cellEdges[c]))
    && (forall e :: e in t.edgeCells ==> Distinct(t.edgeCells[e]))
    && (forall c, e :: c in t.cellEdges && e in t.cellEdges[c] ==> e in t.edgeCells && c in t.edgeCells[e])
    && (forall c, e :: e in t.edgeCells && c in t.edgeCells[e] ==> c in t.cellEdges && e in t.cellEdges[c])
  }

  /** The part of the game state every snapshot has. */
  datatype Board = Board(cells: map<Cell, int>, edges: map<Edge, int>, turn: Player, score: PerPlayer<int>, lastMove: Option<Edge>)

  ghost predicate BoardWF(t: Topology, b: Board) {
    b.cells.Keys == t.cellEdges.Keys && b.edges.Keys == t.edgeCells.Keys
  }

  predicate Drawn(edges: map<Edge, int>, e: Edge) {
    e in edges && edges[e] != UNCLAIMED
  }

  predicate AllDrawn(edges: map<Edge, int>, es: seq<Edge>) {
    forall e | e in es :: Drawn(edges, e)
  }

  predicate Complete(t: Topology, edges: map<Edge, int>, c: Cell) {
    c in t.cellEdges && AllDrawn(edges, t.cellEdges[c])
  }

  /** A cell that a move claims: still unclaimed and every edge now drawn. */
  predicate Claimable(t: Topology, cells: map<Cell, int>, edges: map<Edge, int>, c: Cell) {
    c in cells && cells[c] == UNCLAIMED && Complete(t, edges, c)
  }

  /** The cells of `cs` that are claimable, in order. */
  function Won(t: Topology, cells: map<Cell, int>, edges: map<Edge, int>, cs: seq<Cell>): seq<Cell>
    decreases |cs|
  {
    if cs == [] then []
    else
      var rest := Won(t, cells, edges, cs[..|cs| - 1]);
      if Claimable(t, cells, edges, cs[|cs| - 1]) then rest + [cs[|cs| - 1]] else rest
  }

  /** `cells` with every cell of `won` given to `p`. */
  function ClaimAll(cells: map<Cell, int>, won: seq<Cell>, p: Player): map<Cell, int> {
    map c | c in cells :: if c in won then p else cells[c]
  }

  /** The board invariant: a cell is claimed exactly when all of its edges are drawn. */
  ghost predicate Consistent(t: Topology, b: Board) {
    forall c :: c in b.cells ==> (b.cells[c] != UNCLAIMED <==> Complete(t, b.edges, c))
  }

  /** The undrawn edges of `order`, in order (the list comprehension over the edge dict). */
  function Undrawn(order: seq<Edge>, edges: map<Edge, int>): seq<Edge>
    decreases |order|
  {
    if order == [] then []
    else
      var rest := Undrawn(order[..|order| - 1], edges);
      var e := order[|order| - 1];
      if e in edges && edges[e] == UNCLAIMED then rest + [e] else rest
  }

  function PossibleMoves(t: Topology, b: Board): seq<Edge> {
    Undrawn(t.edgeOrder, b.edges)
  }

  /** is_terminal of the item snapshots: every edge has an owner. */
  predicate AllOwned(b: Board) {
    forall e | e in b.edges :: b.edges[e] != UNCLAIMED
  }

  /** evaluate: the second player's lead. */
  function Evaluate(b: Board): int {
    b.score.one - b.score.zero
  }

  ghost function OwnedCount(cells: map<Cell, int>, p: int): nat {
    |set c | c in cells && cells[c] == p|
  }

  function Abs(x: int): nat { if x < 0 then -x else x }

  /** The hex-disk rule: max(|q|, |r|, |q + r|) <= radius. */
  predicate InDisk(c: Cell, radius: int) {
    Abs(c.q) <= radius && Abs(c.r) <= radius && Abs(-c.q - c.r) <= radius
  }

  /** The board an `init_state` builds over a topology: nothing drawn, nothing claimed, player 0 to move. */
  function InitialBoard(t: Topology): (b: Board)
    ensures BoardWF(t, b)
  {
    Board(map c | c in t.cellEdges :: UNCLAIMED, map e | e in t.edgeCells :: UNCLAIMED, 0, PerPlayer(0, 0), None)
  }

  // ---------------------------------------------------------------- lemmas

  lemma {:induction false} WonMembership(t: Topology, cells: map<Cell, int>, edges: map<Edge, int>, cs: seq<Cell>, x: Cell)
    ensures x in Won(t, cells, edges, cs) <==> x in cs && Claimable(t, cells, edges, x)
    decreases |cs|
  {
    if cs != [] {
      WonMembership(t, cells, edges, cs[..|cs| - 1], x);
      assert cs == cs[..|cs| - 1] + [cs[|cs| - 1]];
    }
  }

  lemma {:induction false} WonDistinct(t: Topology, cells: map<Cell, int>, edges: map<Edge, int>, cs: seq<Cell>)
    requires Distinct(cs)
    ensures Distinct(Won(t, cells, edges, cs))
    decreases |cs|
  {
    if cs != [] {
      var init := cs[..|cs| - 1];
      WonDistinct(t, cells, edges, init);
      WonMembership(t, cells, edges, init, cs[|cs| - 1]);
    }
  }

  /** Extending the scanned prefix by one cell extends Won by that cell exactly when it is claimable. */
  lemma WonStep(t: Topology, cells: map<Cell, int>, edges: map<Edge, int>, cs: seq<Cell>, i: nat)
    requires i < |cs|
    ensures Won(t, cells, edges, cs[..i + 1])
         == Won(t, cells, edges, cs[..i]) + (if Claimable(t, cells, edges, cs[i]) then [cs[i]] else [])
  {
    assert cs[..i + 1][..i] == cs[..i];
  }

  /** The cells around `move` are on the board, with all their edges in the edge map. */
  ghost predicate AroundEdge(t: Topology, b: Board, move: Edge) {
    && move in t.edgeCells
    && forall c | c in t.edgeCells[move] :: c in b.cells && c in t.cellEdges && forall e | e in t.cellEdges[c] :: e in b.edges
  }

  lemma AroundEdgeHolds(t: Topology, b: Board, move: Edge)
    requires TopologyWF(t) && BoardWF(t, b) && move in t.edgeCells
    ensures AroundEdge(t, b, move)
  {
  }

  /**
   * One step of apply_move's scan over the adjacent cells: the next cell is
   * still as it was, Won grows by it exactly when it is claimable, and
   * claiming it is one map update.
   */
  lemma ScanStep(t: Topology, cells: map<Cell, int>, edges: map<Edge, int>, adj: seq<Cell>, i: nat, p: Player)
    requires i < |adj| && Distinct(adj) && adj[i] in cells
    ensures var before := Won(t, cells, edges, adj[..i]); var cell := adj[i];
      && cell !in before
      && ClaimAll(cells, before, p)[cell] == cells[cell]
      && Won(t, cells, edges, adj[..i + 1]) == (if Claimable(t, cells, edges, cell) then before + [cell] else before)
      && ClaimAll(cells, before + [cell], p) == ClaimAll(cells, before, p)[cell := p]
  {
    var before := Won(t, cells, edges, adj[..i]);
    WonStep(t, cells, edges, adj, i);
    WonMembership(t, cells, edges, adj[..i], adj[i]);
    assert adj[i] !in adj[..i];
    ClaimAllStep(cells, before, adj[i], p);
  }

  lemma {:induction false} UndrawnMembership(order: seq<Edge>, edges: map<Edge, int>, x: Edge)
    ensures x in Undrawn(order, edges) <==> x in order && x in edges && edges[x] == UNCLAIMED
    decreases |order|
  {
    if order != [] {
      UndrawnMembership(order[..|order| - 1], edges, x);
      assert order == order[..|order| - 1] + [order[|order| - 1]];
    }
  }

  lemma {:induction false} UndrawnDistinct(order: seq<Edge>, edges: map<Edge, int>)
    requires Distinct(order)
    ensures Distinct(Undrawn(order, edges))
    decreases |order|
  {
    if order != [] {
      UndrawnDistinct(order[..|order| - 1], edges);
      UndrawnMembership(order[..|order| - 1], edges, order[|order| - 1]);
    }
  }

  /**
   * get_possible_moves returns exactly the edges whose owner is -1, each
   * once, and is empty exactly when every edge is owned.
   */
  lemma PossibleMovesExact(t: Topology, b: Board)
    requires TopologyWF(t) && BoardWF(t, b)
    ensures forall e :: e in PossibleMoves(t, b) <==> e in b.edges && b.edges[e] == UNCLAIMED
    ensures Distinct(PossibleMoves(t, b))
    ensures PossibleMoves(t, b) == [] <==> AllOwned(b)
  {
    forall e ensures e in PossibleMoves(t, b) <==> e in b.edges && b.edges[e] == UNCLAIMED {
      UndrawnMembership(t.edgeOrder, b.edges, e);
    }
    UndrawnDistinct(t.edgeOrder, b.edges);
    if PossibleMoves(t, b) != [] {
      assert PossibleMoves(t, b)[0] in PossibleMoves(t, b);
    }
  }

  /** Drawing one undrawn edge removes exactly that edge from the undrawn list; redrawing a drawn one removes nothing. */
  lemma {:induction false} UndrawnAfterDraw(order: seq<Edge>, edges: map<Edge, int>, move: Edge, p: Player)
    requires Distinct(order) && move in order && move in edges
    ensures edges[move] == UNCLAIMED ==> |Undrawn(order, edges[move := p])| == |Undrawn(order, edges)| - 1
    ensures edges[move] != UNCLAIMED ==> Undrawn(order, edges[move := p]) == Undrawn(order, edges)
    decreases |order|
  {
    var init := order[..|order| - 1];
    var last := order[|order| - 1];
    assert order == init + [last];
    if last == move {
      assert move !in init;
      UndrawnUnaffected(init, edges, move, p);
    } else {
      assert move in init;
      UndrawnAfterDraw(init, edges, move, p);
    }
  }

  lemma {:induction false} UndrawnUnaffected(order: seq<Edge>, edges: map<Edge, int>, move: Edge, v: int)
    requires move !in order
    ensures Undrawn(order, edges[move := v]) == Undrawn(order, edges)
    decreases |order|
  {
    if order != [] {
      UndrawnUnaffected(order[..|order| - 1], edges, move, v);
    }
  }

  /**
   * Drawing `move` for `p` and claiming the cells that became complete
   * keeps "claimed iff complete", whether or not `move` was drawn before.
   */
  lemma ClaimingKeepsConsistent(t: Topology, b: Board, cells': map<Cell, int>, edges': map<Edge, int>, move: Edge, p: Player)
    requires TopologyWF(t) && BoardWF(t, b) && move in t.edgeCells && Consistent(t, b)
    requires edges' == b.edges[move := p]
    requires cells' == ClaimAll(b.cells, Won(t, b.cells, edges', t.edgeCells[move]), p)
    ensures forall c :: c in cells' ==> (cells'[c] != UNCLAIMED <==> Complete(t, edges', c))
  {
    var adj := t.edgeCells[move];
    forall c | c in cells'
      ensures cells'[c] != UNCLAIMED <==> Complete(t, edges', c)
    {
      WonMembership(t, b.cells, edges', adj, c);
      if c !in adj {
        assert move !in t.cellEdges[c];
        assert AllDrawn(edges', t.cellEdges[c]) <==> AllDrawn(b.edges, t.cellEdges[c]) by {
          forall e | e in t.cellEdges[c] ensures Drawn(edges', e) <==> Drawn(b.edges, e) {
            assert e != move;
          }
        }
      } else if b.cells[c] != UNCLAIMED {
        assert Complete(t, b.edges, c);
        forall e | e in t.cellEdges[c] ensures Drawn(edges', e) {
          assert Drawn(b.edges, e);
        }
      }
    }
  }

  /** The cells that went from unclaimed to claimed between two owner maps. */
  ghost function NewlyClaimed(before: map<Cell, int>, after: map<Cell, int>): set<Cell> {
    set c | c in before && before[c] == UNCLAIMED && c in after && after[c] != UNCLAIMED
  }

  /**
   * The claiming rule every snapshot shares: after `move` is drawn for `p`,
   * an adjacent unclaimed cell whose edges are all drawn becomes `p`'s and
   * no other cell changes; the claimed list has no repeats, holds exactly the
   * newly claimed cells, and "claimed iff complete" is kept.
   */
  lemma ClaimLaw(t: Topology, b: Board, move: Edge, p: Player)
    requires TopologyWF(t) && BoardWF(t, b) && move in t.edgeCells
    ensures var edges' := b.edges[move := p];
      var won := Won(t, b.cells, edges', t.edgeCells[move]);
      var cells' := ClaimAll(b.cells, won, p);
      && cells'.Keys == b.cells.Keys
      && (forall c :: c in b.cells ==>
            cells'[c] == if c in t.edgeCells[move] && b.cells[c] == UNCLAIMED && Complete(t, edges', c) then p else b.cells[c])
      && Distinct(won)
      && (forall c :: c in won ==> c in b.cells && b.cells[c] == UNCLAIMED)
      && SetOf(won) == NewlyClaimed(b.cells, cells')
      && |won| == |NewlyClaimed(b.cells, cells')|
      && (Consistent(t, b) ==> forall c :: c in cells' ==> (cells'[c] != UNCLAIMED <==> Complete(t, edges', c)))
  {
    var edges' := b.edges[move := p];
    var adj := t.edgeCells[move];
    var won := Won(t, b.cells, edges', adj);
    var cells' := ClaimAll(b.cells, won, p);
    forall c ensures c in won <==> c in adj && Claimable(t, b.cells, edges', c) {
      WonMembership(t, b.cells, edges', adj, c);
    }
    assert SetOf(won) == NewlyClaimed(b.cells, cells');
    WonDistinct(t, b.cells, edges', adj);
    SetOfDistinct(won);
    if Consistent(t, b) {
      ClaimingKeepsConsistent(t, b, cells', edges', move, p);
    }
  }

  /** Two tables that agree on both players are equal. */
  lemma PerPlayerExt<T>(x: PerPlayer<T>, y: PerPlayer<T>, p: Player)
    requires x.At(p) == y.At(p) && x.At(Opponent(p)) == y.At(Opponent(p))
    ensures x == y
  {
  }

  /** Writing one player's entry twice keeps the second write. */
  lemma WithTwice<T>(pp: PerPlayer<T>, p: Player, x: T, y: T)
    ensures pp.With(p, x).At(p) == x
    ensures pp.With(p, x).With(p, y) == pp.With(p, y)
  {
  }

  /** Claiming one more cell, not claimed before, is one map update. */
  lemma ClaimAllStep(cells: map<Cell, int>, won: seq<Cell>, c: Cell, p: Player)
    requires c in cells && c !in won
    ensures ClaimAll(cells, won, p)[c] == cells[c]
    ensures ClaimAll(cells, won, p)[c := p] == ClaimAll(cells, won + [c], p)
  {
  }

  /** Claiming one unclaimed cell moves exactly that cell to `p`'s count. */
  lemma ClaimOneCounts(cells: map<Cell, int>, c: Cell, p: Player)
    requires c in cells && cells[c] == UNCLAIMED
    ensures OwnedCount(cells[c := p], p) == OwnedCount(cells, p) + 1
    ensures OwnedCount(cells[c := p], Opponent(p)) == OwnedCount(cells, Opponent(p))
  {
    var after := cells[c := p];
    var mine := set x | x in cells && cells[x] == p;
    assert (set x | x in after && after[x] == p) == mine + {c};
    assert (set x | x in after && after[x] == Opponent(p)) == (set x | x in cells && cells[x] == Opponent(p));
  }

  /** Claiming cells moves exactly |won| cells to `p` and leaves the other player's count alone. */
  lemma ClaimAllCounts(cells: map<Cell, int>, won: seq<Cell>, p: Player)
    requires Distinct(won)
    requires forall c :: c in won ==> c in cells && cells[c] == UNCLAIMED
    ensures OwnedCount(ClaimAll(cells, won, p), p) == OwnedCount(cells, p) + |won|
    ensures OwnedCount(ClaimAll(cells, won, p), Opponent(p)) == OwnedCount(cells, Opponent(p))
  {
    var after := ClaimAll(cells, won, p);
    var mine := set c | c in cells && cells[c] == p;
    var theirs := set c | c in cells && cells[c] == Opponent(p);
    var mineAfter := set c | c in after && after[c] == p;
    var theirsAfter := set c | c in after && after[c] == Opponent(p);
    forall c
      ensures c in mineAfter <==> c in mine + SetOf(won)
      ensures c in theirsAfter <==> c in theirs
    {
      if c in won {
        assert c in cells && after[c] == p;
      }
    }
    assert mineAfter == mine + SetOf(won);
    assert theirsAfter == theirs;
    assert mine !! SetOf(won);
    SetOfDistinct(won);
  }

  function SetOf<T>(s: seq<T>): set<T> { set x | x in s }

  lemma {:induction false} SetOfDistinct<T>(s: seq<T>)
    requires Distinct(s)
    ensures |SetOf(s)| == |s|
    decreases |s|
  {
    if s != [] {
      var init := s[..|s| - 1];
      SetOfDistinct(init);
      assert SetOf(s) == SetOf(init) + {s[|s| - 1]};
      assert s[|s| - 1] !in SetOf(init);
    }
  }

  /** A fresh board satisfies the invariant and has every edge as a possible move. */
  lemma InitialBoardConsistent(t: Topology)
    requires TopologyWF(t)
    ensures Consistent(t, InitialBoard(t))
    ensures OwnedCount(InitialBoard(t).cells, 0) == 0 && OwnedCount(InitialBoard(t).cells, 1) == 0
    ensures |PossibleMoves(t, InitialBoard(t))| == |t.edgeOrder|
  {
    var b := InitialBoard(t);
    forall c | c in b.cells ensures !Complete(t, b.edges, c) {
      var e := t.cellEdges[c][0];
      assert e in t.cellEdges[c];
      assert !Drawn(b.edges, e);
    }
    assert (set c | c in b.cells && b.cells[c] == 0) == {};
    assert (set c | c in b.cells && b.cells[c] == 1) == {};
    UndrawnAll(t.edgeOrder, b.edges);
  }

  lemma {:induction false} UndrawnAll(order: seq<Edge>, edges: map<Edge, int>)
    requires forall e :: e in order ==> e in edges && edges[e] == UNCLAIMED
    ensures Undrawn(order, edges) == order
    decreases |order|
  {
    if order != [] {
      UndrawnAll(order[..|order| - 1], edges);
      assert order == order[..|order| - 1] + [order[|order| - 1]];
    }
  }
}
