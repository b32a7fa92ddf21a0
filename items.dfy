/**
 * The item layer of the snapshots with treasures and artifacts: the
 * treasure table, the per-player trackers, the whole game state, and
 * closed forms over the list of cells one move claims.
 */
module ItemLayer {
  import opened HexGrid

  datatype Treasure = Copper | Silver | Gold | Platinum | Diamond

  /** The TREASURES table. */
  function TreasureValue(t: Treasure): int {
    match t
    case Copper => 1
    case Silver => 3
    case Gold => 5
    case Platinum => 8
    case Diamond => 8
  }

  datatype Artifact = Hourglass | Gauntlet | Compass

  /** What claimed_items records for a cell. */
  datatype Item = TreasureItem(treasure: Treasure) | ArtifactItem(artifact: Artifact)

  /** The item part of the state dict: item maps and per-player trackers. */
  datatype Items = Items(
    treasures: map<Cell, Treasure>,
    artifacts: map<Cell, Artifact>,
    claimedItems: map<Cell, Item>,
    gauntletAvailable: PerPlayer<bool>,
    gauntletTimer: PerPlayer<int>,
    gauntletCell: PerPlayer<Option<Cell>>,
    lastTreasureValue: PerPlayer<int>,
    compassAvailable: PerPlayer<bool>,
    compassCell: PerPlayer<Option<Cell>>,
    hourglassBonus: PerPlayer<int>)

  /** The whole state dict of the item snapshots. */
  datatype Game = Game(board: Board, items: Items)

  ghost predicate GameWF(t: Topology, g: Game) {
    BoardWF(t, g.board)
  }

  /**
   * The state dict as the front end holds it: use_gauntlet and use_compass
   * change this object in place, while apply_move works on a deep copy,
   * that is on the value `Value()`.
   */
  class GameState {
    var board: Board
    var items: Items

    constructor (g: Game)
      ensures Value() == g
    {
      board := g.board;
      items := g.items;
    }

    function Value(): Game
      reads this
    {
      Game(board, items)
    }
  }

  /** dict.pop(key, None) where the key may itself be None. */
  function Pop<V>(m: map<Cell, V>, key: Option<Cell>): map<Cell, V> {
    if key.Some? then m - {key.value} else m
  }

  function TreasureAt(tr: map<Cell, Treasure>, c: Cell): int {
    if c in tr then TreasureValue(tr[c]) else 0
  }

  /** The treasure points of the cells `cs`. */
  function TreasureSum(cs: seq<Cell>, tr: map<Cell, Treasure>): int
    decreases |cs|
  {
    if cs == [] then 0 else TreasureSum(cs[..|cs| - 1], tr) + TreasureAt(tr, cs[|cs| - 1])
  }

  /** The value of the last treasure among `cs`, or `dflt` when there is none. */
  function LastTreasure(cs: seq<Cell>, tr: map<Cell, Treasure>, dflt: int): int
    decreases |cs|
  {
    if cs == [] then dflt
    else if cs[|cs| - 1] in tr then TreasureValue(tr[cs[|cs| - 1]])
    else LastTreasure(cs[..|cs| - 1], tr, dflt)
  }

  function CountArtifact(cs: seq<Cell>, arts: map<Cell, Artifact>, a: Artifact): nat
    decreases |cs|
  {
    if cs == [] then 0
    else CountArtifact(cs[..|cs| - 1], arts, a) + (if cs[|cs| - 1] in arts && arts[cs[|cs| - 1]] == a then 1 else 0)
  }

  /** The last cell of `cs` holding artifact `a`, or `dflt` when there is none. */
  function LastArtifactCell(cs: seq<Cell>, arts: map<Cell, Artifact>, a: Artifact, dflt: Option<Cell>): Option<Cell>
    decreases |cs|
  {
    if cs == [] then dflt
    else if cs[|cs| - 1] in arts && arts[cs[|cs| - 1]] == a then Some(cs[|cs| - 1])
    else LastArtifactCell(cs[..|cs| - 1], arts, a, dflt)
  }

  /** `arts` without the cells of `cs` that hold artifact `a`. */
  function DropArtifact(arts: map<Cell, Artifact>, cs: seq<Cell>, a: Artifact): map<Cell, Artifact> {
    map c | c in arts && !(c in cs && arts[c] == a) :: arts[c]
  }

  /**
   * What claiming `c` reveals. With `artifactWins` (two independent `if`s,
   * the later one overwriting) an artifact is recorded over a treasure;
   * without it (`if`/`elif`) the treasure is recorded.
   */
  function Revealed(tr: map<Cell, Treasure>, arts: map<Cell, Artifact>, c: Cell, artifactWins: bool): Option<Item> {
    if artifactWins && c in arts then Some(ArtifactItem(arts[c]))
    else if c in tr then Some(TreasureItem(tr[c]))
    else if c in arts then Some(ArtifactItem(arts[c]))
    else None
  }

  /** claimed_items after the cells `cs` are claimed in order. */
  function Reveal(claimed: map<Cell, Item>, cs: seq<Cell>, tr: map<Cell, Treasure>, arts: map<Cell, Artifact>, artifactWins: bool): map<Cell, Item>
    decreases |cs|
  {
    if cs == [] then claimed
    else
      var m := Reveal(claimed, cs[..|cs| - 1], tr, arts, artifactWins);
      var c := cs[|cs| - 1];
      match Revealed(tr, arts, c, artifactWins)
      case Some(it) => m[c := it]
      case None => m
  }

  /** The gauntlet's steal: min(requested amount or last_val, last_val, opponent's score). */
  function StealAmount(amount: Option<int>, lastVal: int, oppScore: int): (s: int)
    ensures s <= lastVal && s <= oppScore
    ensures amount.Some? ==> s <= amount.value
    ensures s == lastVal || s == oppScore || (amount.Some? && s == amount.value)
  {
    var want := if amount.Some? then amount.value else lastVal;
    var m := if want < lastVal then want else lastVal;
    if m < oppScore then m else oppScore
  }

  /** Moves `amount` points from `giver` to the other player: first the deduction, then the credit. */
  function Transfer(sc: PerPlayer<int>, giver: Player, amount: int): (r: PerPlayer<int>)
    ensures r.zero + r.one == sc.zero + sc.one
    ensures r.At(giver) == sc.At(giver) - amount
  {
    var taken := sc.With(giver, sc.At(giver) - amount);
    taken.With(Opponent(giver), taken.At(Opponent(giver)) + amount)
  }

  // ---------------------------------------------------------------- lemmas

  /** Each claimed cell with an item records that item; every other entry is kept. */
  lemma {:induction false} RevealExact(claimed: map<Cell, Item>, cs: seq<Cell>, tr: map<Cell, Treasure>, arts: map<Cell, Artifact>, artifactWins: bool, x: Cell)
    ensures var m := Reveal(claimed, cs, tr, arts, artifactWins);
      if x in cs && Revealed(tr, arts, x, artifactWins).Some?
      then x in m && m[x] == Revealed(tr, arts, x, artifactWins).value
      else (x in m <==> x in claimed) && (x in m ==> m[x] == claimed[x])
    decreases |cs|
  {
    if cs != [] {
      var init := cs[..|cs| - 1];
      RevealExact(claimed, init, tr, arts, artifactWins, x);
      assert cs == init + [cs[|cs| - 1]];
    }
  }

  /** LastTreasure is the value of a treasure cell of `cs`, or the default when `cs` has none. */
  lemma {:induction false} LastTreasureSource(cs: seq<Cell>, tr: map<Cell, Treasure>, dflt: int)
    ensures (exists c :: c in cs && c in tr) ==> exists c :: c in cs && c in tr && LastTreasure(cs, tr, dflt) == TreasureValue(tr[c])
    ensures (forall c :: c in cs ==> c !in tr) ==> LastTreasure(cs, tr, dflt) == dflt
    decreases |cs|
  {
    if cs != [] {
      var init := cs[..|cs| - 1];
      LastTreasureSource(init, tr, dflt);
      assert cs == init + [cs[|cs| - 1]];
    }
  }

  /** LastArtifactCell finds a cell of `cs` holding `a` exactly when one exists. */
  lemma {:induction false} LastArtifactCellSource(cs: seq<Cell>, arts: map<Cell, Artifact>, a: Artifact, dflt: Option<Cell>)
    ensures CountArtifact(cs, arts, a) > 0 ==>
      var r := LastArtifactCell(cs, arts, a, dflt); r.Some? && r.value in cs && r.value in arts && arts[r.value] == a
    ensures CountArtifact(cs, arts, a) == 0 ==> LastArtifactCell(cs, arts, a, dflt) == dflt
    ensures CountArtifact(cs, arts, a) == 0 <==> forall c :: c in cs ==> !(c in arts && arts[c] == a)
    decreases |cs|
  {
    if cs != [] {
      var init := cs[..|cs| - 1];
      LastArtifactCellSource(init, arts, a, dflt);
      assert cs == init + [cs[|cs| - 1]];
    }
  }

  /** Appending one cell to the claimed list extends every fold by that cell. */
  lemma SnocFolds(cs: seq<Cell>, c: Cell, tr: map<Cell, Treasure>, arts: map<Cell, Artifact>, a: Artifact, claimed: map<Cell, Item>, artifactWins: bool, d: int, dc: Option<Cell>)
    ensures TreasureSum(cs + [c], tr) == TreasureSum(cs, tr) + TreasureAt(tr, c)
    ensures LastTreasure(cs + [c], tr, d) == if c in tr then TreasureValue(tr[c]) else LastTreasure(cs, tr, d)
    ensures CountArtifact(cs + [c], arts, a) == CountArtifact(cs, arts, a) + (if c in arts && arts[c] == a then 1 else 0)
    ensures LastArtifactCell(cs + [c], arts, a, dc) == if c in arts && arts[c] == a then Some(c) else LastArtifactCell(cs, arts, a, dc)
    ensures Reveal(claimed, cs + [c], tr, arts, artifactWins)
         == match Revealed(tr, arts, c, artifactWins)
            case Some(it) => Reveal(claimed, cs, tr, arts, artifactWins)[c := it]
            case None => Reveal(claimed, cs, tr, arts, artifactWins)
  {
    assert (cs + [c])[..|cs|] == cs;
  }

  /** Dropping the cells of one more claimed cell's artifact `a` removes at most that cell. */
  lemma DropArtifactStep(arts: map<Cell, Artifact>, cs: seq<Cell>, c: Cell, a: Artifact)
    requires c !in cs
    ensures c in DropArtifact(arts, cs, a) <==> c in arts
    ensures DropArtifact(arts, cs + [c], a)
         == if c in arts && arts[c] == a then DropArtifact(arts, cs, a) - {c} else DropArtifact(arts, cs, a)
  {
  }

  /** Treasure values are positive, so a run of claims never loses treasure points. */
  lemma {:induction false} TreasureSumBounds(cs: seq<Cell>, tr: map<Cell, Treasure>)
    ensures 0 <= TreasureSum(cs, tr) <= 8 * |cs|
    decreases |cs|
  {
    if cs != [] {
      TreasureSumBounds(cs[..|cs| - 1], tr);
    }
  }
}
