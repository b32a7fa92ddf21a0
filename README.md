# HexaHunt rules and search, in Dafny

HexaHunt is a two-player game on a hexagonal board. The board is a disk of
hex cells in axial coordinates (q, r). The players take turns drawing the
edges between cells. A player who draws the last missing edge of an
unclaimed cell claims it and moves again. Later versions of the game hide
treasures under the cells. They also hide three artifacts:

- the hourglass, which gives an extra turn;
- the Shadow Gauntlet, which steals points;
- the Compass of Portals, which swaps cell owners.

The AI opponent is player 1. It plays by depth-limited minimax with
alpha-beta pruning, a transposition table and a move-ordering heuristic.

The repository keeps several snapshots of the game logic, which differ in
their rules. This project models each snapshot's engine:

- `get_possible_moves`, `apply_move`, `is_terminal`, `evaluate`;
- the item actions `use_gauntlet` and `use_compass`;
- the two searches (`hash_state`, `order_moves`, `minimax`) of `main.py`
  and `third_checkpoint/ai.py`.

Modules:

| module | file | models |
|---|---|---|
| `HexGrid` | hexgrid.dfy | the shared board: topology, owners, the claiming rule, possible moves, `evaluate` |
| `PlainRules` | plain_rules.dfy | the item-free move rule (a closed form) with its laws and whole-match lemmas |
| `MainEngine` | main_engine.dfy | `main.py`: hex-disk enumeration, `get_possible_moves`, `apply_move`, `is_terminal` |
| `InitialCode` | initial_engine.dfy | `initial_code/game_logic.py` |
| `ItemLayer` | items.dfy | treasures, artifacts, per-player trackers, the in-place state object |
| `GameLogic` | game_logic.dfy | top-level `game_logic.py`: gauntlet timer, hourglass bank, compass, `use_gauntlet`, `use_compass` |
| `FourthUnstable` | fourth_engine.dfy | `fourth_unstable/game_logic.py` |
| `SecondCode` | second_engine.dfy | `second_code/game_logic.py` |
| `Search` | search.dfy | search values, transposition table, one alpha-beta level, move ordering and its stable sort |
| `MainSearch` | main_search.dfy | `main.py`'s `order_moves` and `minimax` over the plain rules |
| `AiSearch` | ai_search.dfy | `third_checkpoint/ai.py`'s `order_moves` and `minimax` over the top-level rules |

How the model is shaped:

- **Topology as input.** The board's geometry is an input `Topology`. It
  holds `cell_edges`, `edge_cells` and the edge dictionary's iteration
  order. `TopologyWF` says each cell has six distinct edges. Edges and
  cells are abstract points; pixel geometry is left out.
- **Owners.** Owners are integers, with `UNCLAIMED` (-1) for "nobody".
  The per-player dictionaries `{0: .., 1: ..}` become `PerPlayer<T>`.
- **apply_move on values.** Every `apply_move` starts with a deep copy of
  the state. It is therefore modelled on values, in two parts:
  - a closed-form function: `PlainApply`, `RootApply` or `FourthApply`;
  - a method that runs the source's own loop over the adjacent cells and
    is proved to return that function's value.

  Lemmas then state what the function means. second_code's compass picks
  cells at random, so its `apply_move` is a method with relational
  postconditions instead.
- **In-place item actions.** `use_gauntlet` and `use_compass` change the
  state object in place. They are methods on a `GameState` object and are
  proved equal to value-level functions, whose contracts state the effects.
- **Search.** `minimax` is a method that updates a `TranspositionTable`
  object. It returns a ghost trace of the steps it explored. Its
  postcondition is a recursive relation, `Searched`, between the state,
  the table before and after, and the result: the cache rule, the leaf
  rule, and for an explored level each step being its child searched from
  the window and table the previous steps left, the pruning rule and the
  first strictly best value. `SearchedUnique` shows that this relation
  fixes the result.

Where the code and its documentation disagree, the model follows the code:

- The documentation says `apply_move` rejects a drawn edge with an error.
  `main.py`, `initial_code` and `second_code` instead return an unchanged
  copy and no extra turn. The top-level `game_logic.py` and
  `fourth_unstable` do not check at all and simply redraw the edge.
- `third_checkpoint/ai.py` imports its rules from a `game_logic` module.
  The model takes this to be the top-level `game_logic.py`.

## Model

| member | source | states |
|---|---|---|
| MainEngine.InitCells | main.py:107-112 | the enumerated cells are exactly those with max(abs(q), abs(r), abs(-q-r)) <= radius, listed in strictly increasing (q, r) order, and every one starts unclaimed |
| MainEngine.GetPossibleMoves | main.py:169-175 | returns exactly the edges whose owner is -1, each once, in the edge dictionary's order |
| HexGrid.PossibleMovesExact | game_logic.py:130-131 | the possible moves are exactly the undrawn edges, without repeats, and there are none exactly when every edge is owned |
| MainEngine.TerminalMeansAllOwned | main.py:215-217 | "no possible move left" holds exactly when every edge has an owner, which is the other snapshots' terminal test |
| MainEngine.TerminalEvaluation | main.py:219-224 | a board with every edge drawn and scores [3, 5] is terminal and evaluates to 2 (AI score minus human score) |
| MainEngine.CellCompleted | main.py:200-204 | the early-exit scan over a cell's edges reports completion exactly when all of them are drawn |
| MainEngine.ClaimAround | main.py:198-208 | each cell beside the drawn edge that was unclaimed and now has all its edges drawn goes to the mover, who earns one point per such cell and keeps the turn exactly when at least one was claimed; nothing else changes |
| MainEngine.ApplyMove | main.py:177-213 | the source's loop computes PlainApply: a drawn edge gives the state back with no extra turn; otherwise the claims, score and turn of the closed form |
| PlainRules.PlainRejectsDrawn | main.py:188-190 | playing an already drawn edge changes nothing and grants no extra turn |
| PlainRules.PlainMoveEffect | main.py:192-213 | on an undrawn edge only that edge changes, to the player; last_move is the move; exactly the adjacent unclaimed cells that are now complete go to the player and no other cell changes; the mover gains one point per claimed cell; the opponent's score is unchanged; the extra turn and keeping the turn happen exactly when a cell was claimed; one possible move fewer remains |
| PlainRules.PlainKeepsInvariant | main.py:198-208 | "a cell is claimed iff all its edges are drawn" and "each score equals the cells owned" are preserved |
| PlainRules.ImmediateCapture | main.py:205-208 | drawing the last missing edge of an unclaimed cell claims it, scores at least one point and keeps the turn |
| PlainRules.MatchLength | main.py:169-217 | a run of legal moves keeps the invariant and uses up exactly one possible move per move, so no legal run is longer than the number of undrawn edges |
| HexGrid.ClaimLaw | main.py:198-208 | the claiming rule all snapshots share: after the draw, an adjacent unclaimed complete cell goes to the player and nothing else changes; the claimed list has no repeats and is the set of newly claimed cells; claimed-iff-complete is kept |
| HexGrid.InitialBoardConsistent | main.py:143-147 | a fresh board satisfies claimed-iff-complete, no one owns a cell, and every edge is a possible move |
| InitialCode.TerminalIffNoMoves | initial_code/game_logic.py:115-116 | "every edge owned" holds exactly when no move is possible |
| InitialCode.ApplyMove | initial_code/game_logic.py:92-113 | the `all(...)` comprehension version computes the same closed form PlainApply as main.py |
| ItemLayer.StealAmount | game_logic.py:264-265 | the steal is at most the last treasure value and at most the opponent's score, at most the requested amount when one is given, and equal to one of the three |
| ItemLayer.Transfer | game_logic.py:267-268 | the score sum is kept and the giver loses exactly the amount |
| ItemLayer.RevealExact | game_logic.py:168-179 | after a run of claims, each claimed cell with an item records it (an artifact over a treasure when both) and every other claimed_items entry is kept |
| ItemLayer.LastTreasureSource | game_logic.py:169-174 | the last treasure value after a run of claims is the value of a claimed treasure, or the previous value when none was claimed |
| ItemLayer.TreasureSumBounds | game_logic.py:10-16 | treasure values are between 0 and 8, so the treasure points of n claimed cells are between 0 and 8n |
| GameLogic.ClaimAround | game_logic.py:160-194 | the scan over the edge's cells claims, in order, exactly the claimable ones (the closed form RootClaims of Won), and earns an extra turn exactly when one was claimed |
| GameLogic.ClaimCell | game_logic.py:163-194 | one completed cell: owner, one base point plus the treasure value, treasure record, then the artifact pickup |
| GameLogic.ApplyMove | game_logic.py:133-208 | the source's loop computes RootApply (gauntlet aging, draw, claims in adjacency order, bonus spend, turn) |
| GameLogic.RootClaimsBoard | game_logic.py:162-175 | claiming a list of cells gives each of them to the player and scores one point plus its treasure per cell; nothing else on the board and no treasure moves |
| GameLogic.RootClaimsRecords | game_logic.py:169-190 | claiming distinct cells records each item, leaves the value of the last treasure claimed, and takes exactly the picked-up gauntlets out of the artifact map |
| GameLogic.RootClaimsAbilities | game_logic.py:181-194 | one bonus is banked per hourglass; a picked-up gauntlet or compass becomes available with the last such cell as its source and a gauntlet gets the full five-move lifetime; the other player's trackers do not move |
| GameLogic.RootClaimsOfMove | game_logic.py:145-194 | the state after one move's claims, in closed form from the aged and drawn state |
| GameLogic.RootMoveBoard | game_logic.py:157-164 | the edge goes to the player whatever its owner was and last_move is set; cells are claimed by the shared rule and the newly claimed cells are exactly the scanned ones; claimed-iff-complete is kept |
| GameLogic.RootMoveScore | game_logic.py:162-172 | the mover gains one point plus the treasure per claimed cell and the opponent's score does not move |
| GameLogic.RootMoveTurn | game_logic.py:160-205 | the extra turn is granted exactly when a cell was claimed or a bonus was banked, and the turn passes exactly when it is not |
| GameLogic.RootMovesLeft | game_logic.py:157-158 | an undrawn edge uses up one possible move and a drawn one none |
| GameLogic.RootHourglassBanking | game_logic.py:181-205 | a move that claims nothing spends one banked bonus if there is one (keeping the turn) and otherwise passes the turn; a move that claims something keeps the turn, spends nothing and banks one bonus per hourglass; the opponent's bank does not move |
| GameLogic.RootGauntletLifetime | game_logic.py:145-155 | a held gauntlet with time left loses one unit per move of its holder; at zero it is unavailable, has no source cell, and its cell leaves the artifact map and (unless re-claimed) the claimed items; a gauntlet not held keeps its trackers |
| GameLogic.RootGauntletPickup | game_logic.py:185-190 | picking up a gauntlet gives the mover one with timer 5 whose source is a claimed gauntlet cell; the opponent's gauntlet does not move |
| GameLogic.RootArtifactsShrink | game_logic.py:189 | every picked-up gauntlet leaves the artifact map, and the artifact map never grows |
| GameLogic.RootTreasureRecords | game_logic.py:169-179 | every claimed cell records its item; the last treasure value becomes that of a claimed treasure or stays; the opponent's does not move |
| GameLogic.RootCompassPickup | game_logic.py:191-194 | picking up a compass makes it available with a claimed compass cell as its source; without one the compass trackers stay; the opponent's do not move |
| GameLogic.RootGauntlet | game_logic.py:255-277 | with a gauntlet and a positive opponent last treasure value, exactly min(requested or last value, last value, opponent score) (StealAmount) leaves the opponent's score and joins the player's, so the sum is kept, the opponent stays at or above zero and the gain is at most the last value. The gauntlet is then used up (unavailable, timer 0, no source), its cell is popped from artifacts and claimed items, and nothing else changes: cells, edges, turn, last move, treasures, the other trackers and the opponent's gauntlet stay. Otherwise the state is unchanged |
| GameLogic.RootGauntletCapped | game_logic.py:264-268 | with no requested amount, a last treasure of 5 and an opponent at 2, exactly 2 points move and the opponent ends at 0 |
| GameLogic.UseGauntlet | game_logic.py:255-277 | changing the state object in place gives RootGauntlet of the old state |
| GameLogic.RootCompass | game_logic.py:218-252 | when the player holds a compass with a source and the target is the opponent's, the source goes to the opponent and the target to the player; the player's score changes by minus the source treasure plus the target treasure, the opponent's by the reverse; exactly the source leaves artifacts and claimed items; the player's compass is used up, and nothing else changes: edges, turn, last move, treasures, the other trackers and the opponent's compass stay. Otherwise the state is unchanged |
| GameLogic.UseCompass | game_logic.py:218-252 | changing the state object in place gives RootCompass of the old state |
| GameLogic.CompassKeepsCounts | game_logic.py:232 | when the source is still the player's own cell and differs from the target, the swap keeps both players' cell counts |
| FourthUnstable.ClaimCell | fourth_unstable/game_logic.py:125-150 | one completed cell: owner, treasure value, item records, last treasure value, gauntlet flag, in closed form |
| FourthUnstable.ApplyMove | fourth_unstable/game_logic.py:111-155 | the source's loop computes FourthApply |
| FourthUnstable.FourthMoveBoard | fourth_unstable/game_logic.py:111-155 | the edge goes to the player whatever its owner was and last_move is untouched; cells are claimed by the shared rule; the mover gains only the treasure values and the opponent's score does not move; the turn passes exactly when nothing was claimed; claimed-iff-complete is kept |
| FourthUnstable.FourthMoveItems | fourth_unstable/game_logic.py:131-147 | each claimed item is recorded, an artifact over a treasure; the last treasure value is one of the claimed treasures or unchanged; the gauntlet flag is raised exactly when a gauntlet was claimed; no other tracker changes |
| FourthUnstable.FourthProgress | fourth_unstable/game_logic.py:108-122 | drawing an undrawn edge uses up exactly one possible move; redrawing a drawn one uses up none |
| FourthUnstable.FourthGauntlet | fourth_unstable/game_logic.py:163-185 | with the flag and a positive opponent last treasure value, exactly min(requested or last value, last value, opponent score) (StealAmount) leaves the opponent's score and joins the player's: the sum is kept, the opponent stays at or above zero, the gain is at most the last value and at most a non-negative request. Only the player's flag is cleared; cells, edges, turn, timers, source cells, artifacts, claimed items, the other trackers and the opponent's flag stay. Otherwise nothing changes |
| FourthUnstable.UseGauntlet | fourth_unstable/game_logic.py:163-185 | changing the state object in place gives FourthGauntlet of the old state |
| SecondCode.GauntletSteal | second_code/game_logic.py:141-146 | when the opponent has points, min(3, their score) moves to the player: the sum is kept, the opponent stays at or above zero, and the player gains between 1 and 3 (exactly 3 unless the opponent is emptied); otherwise nothing changes |
| SecondCode.SwapKeepsCounts | second_code/game_logic.py:147-153 | swapping an opponent cell with an own cell keeps the cell keys, which cells are claimed, and both players' counts |
| SecondCode.ClaimedScoreFacts | second_code/game_logic.py:126-146 | over the claims, the score sum grows by the treasures claimed, the mover gains at least those and exactly those when no gauntlet was revealed, and the opponent never gains and never drops below zero from a non-negative score |
| SecondCode.GauntletClaimSteals | second_code/game_logic.py:137-146 | claiming a cell whose only item is a gauntlet moves exactly min(3, opponent score) from an opponent with points to the mover |
| SecondCode.ClaimAround | second_code/game_logic.py:122-153 | the scan over the edge's cells claims exactly the claimable ones in order and earns an extra turn exactly when one was claimed; it keeps ClaimsDone (exact scores by ClaimedScore; claimed set and counts; records treasure-first), and the owner map is OwnersAfter: the claims applied one by one as ClaimStep says, so each revealed compass swaps one opponent cell with one own cell, whichever pair is picked |
| SecondCode.ClaimCell | second_code/game_logic.py:122-153 | one claim keeps ClaimsDone: a treasure adds its value and is recorded, or else the artifact is recorded and a gauntlet steals min(3, opponent score) at once (ScoreStep). The owner map is exactly ClaimStep: the cell goes to the player, and after a compass (not shadowed by a treasure) with both players owning cells, one opponent cell and one own cell trade owners; otherwise no other owner changes |
| SecondCode.OwnersSnoc | second_code/game_logic.py:122-153 | one more claim step extends the owner relation of the scan by that cell |
| SecondCode.OwnersWithoutCompass | second_code/game_logic.py:122-153 | without a compass among the claimed cells, the owner relation leaves exactly the plain map: each claimed cell goes to the player and no other owner changes |
| SecondCode.ApplyMove | second_code/game_logic.py:111-158 | a drawn edge gives the state back with no extra turn. Otherwise, whatever the compass picks: the edge and last_move are set; the scores are exactly ClaimedScore of the claimed cells (treasure values, and min(3, opponent score) for each gauntlet revealed); the claimed cells are exactly the previously claimed ones plus the won ones, with the mover's count up by one per won cell and the opponent's unchanged, and the owner map is OwnersAfter of the claimed cells (exactly the shared rule's while no compass was revealed, and one opponent-own swap per revealed compass otherwise); items are recorded treasure-first; the extra turn exactly when a cell was claimed; the turn passes otherwise |
| Search.Max | main.py:282 | Python's max on values with infinite sentinels: an upper bound of both arguments and one of them |
| Search.Min | main.py:308 | Python's min on values with infinite sentinels: a lower bound of both arguments and one of them |
| Search.OrderFacts | main.py:279-288 | the order on search values is total and transitive |
| Search.KeyIsEdgeMap | main.py:227-231 | two states share a table key exactly when their edge owners are the same |
| Search.LevelStep | main.py:267-290 | one iteration of a level's loop keeps the level invariant: the window only tightens from the caller's, every step but the last left it open, and the kept value is the first strictly best one |
| Search.Keep | main.py:279-284 | the bookkeeping after one child: the value and its move replace the kept ones exactly when strictly better; alpha becomes max(alpha, value) when maximizing and beta min(beta, value) otherwise; the level invariant is kept and the window is the one the steps so far give |
| Search.LevelExit | main.py:267-290 | when the loop ends, having used every move or having stopped with beta <= alpha, the level is explored (every move, or up to the first step that closes the window) and the kept value and move are the first strictly best, with a finite value |
| Search.ExploredPrefix | main.py:283-284 | of two explorations of the same level, one a prefix of the other, neither is longer: the loop stops exactly at the first step that closes the window |
| Search.FirstBestUnique | main.py:279-281 | the first strictly best value and move of a list of steps are unique |
| Search.WindowMonotone | main.py:282-284 | after any prefix of the explored moves, alpha lies between the caller's alpha and its final value (for beta the other way round) |
| Search.MoveScoreCountsCaptures | main.py:326-341 | a move's ordering score is exactly 100 per adjacent cell apply_move would claim with it plus 50 per adjacent unclaimed cell the move leaves with exactly one edge missing (5 of 6 drawn), hence at most 50 per other adjacent cell and a multiple of 50 |
| Search.DrawnWithMeaning | main.py:331-334 | the edges-drawn count never exceeds the cell's edges and equals them exactly when the cell is complete once the move is drawn |
| Search.StableSortLaw | main.py:343-347 | the insertion-sort model of Python's sorted gives a permutation, ordered by the key, that keeps the input order within each key |
| Search.OrderMovesLaw | main.py:321-347 | order_moves returns a permutation of its input, sorted by score (descending when maximizing, ascending otherwise); moves with equal scores keep their input order |
| MainSearch.OrderMoves | main.py:321-347 | the loop over the moves, scoring each with ScoreMove, then the stable sort, computes OrderedMoves |
| MainSearch.ScoreMove | main.py:327-339 | the two inner loops (cells of the move, then edges of each unclaimed cell) compute the move's ordering score MoveScore |
| MainSearch.Play | main.py:274-278 | the move is played by player 1 when maximizing and player 0 otherwise (PlainApply), and the flag stays after an extra turn and flips otherwise (IsChild); the board stays well formed |
| MainSearch.PlayAndSearch | main.py:274-278 | the child Play gives is searched one level shallower with the current window, and the value, kept move, explored steps and table after satisfy Searched for that child |
| MainSearch.Explore | main.py:269-278 | the next ordered move, searched from the table and window the steps so far leave, extends LevelSearched by one step whose value is the child's searched value |
| MainSearch.SearchMoves | main.py:267-316 | the ordered moves are explored in order; each step is its move's child searched from the table and window the previous steps leave (LevelSearched); the loop stops early only at the first step with beta <= alpha (Explored); the value and move returned are the first strictly best (FirstBest); the table ends as the last child's search left it |
| MainSearch.Expand | main.py:255-316 | in a non-terminal state above depth 0, the possible moves ordered for the side to move are explored as SearchMoves says, and the move returned is an undrawn edge |
| MainSearch.LevelMoves | main.py:269-278 | every step of a level is the ordered move at its position, played as IsChild says |
| MainSearch.Minimax | main.py:234-318 | the call satisfies Searched: a table entry at least as deep as asked is returned as stored and the table is unchanged; otherwise, at depth 0 or in a terminal state, evaluate(state) with no move is stored at this depth; otherwise the result is the first strictly best of the ordered moves, each child searched recursively from the window and table the previous ones left, and is stored at this depth with an undrawn edge as its move |
| MainSearch.SearchedUnique | main.py:234-318 | Searched is functional: two results for the same state, depth, window, flag and table agree in value, move, explored steps and final table, so Minimax's contract fixes its result |
| AiSearch.ScoreMove | third_checkpoint/ai.py:16-23 | the loop over the move's cells with the `sum(...)` count computes the same MoveScore |
| AiSearch.OrderMoves | third_checkpoint/ai.py:13-27 | the loop with the `sum(...)` count computes the same OrderedMoves; `reverse=True` is a stable descending sort |
| AiSearch.Play | third_checkpoint/ai.py:52-67 | the move is played under the top-level rules (RootApply) by player 1 when maximizing and 0 otherwise, and the flag stays after an extra turn and flips otherwise (IsChild); the game stays well formed |
| AiSearch.PlayAndSearch | third_checkpoint/ai.py:52-67 | the child Play gives is searched one level shallower with the current window, and the result satisfies Searched for that child |
| AiSearch.Explore | third_checkpoint/ai.py:51-67 | the next ordered move, searched from the table and window the steps so far leave, extends LevelSearched by one step whose value is the child's searched value |
| AiSearch.SearchMoves | third_checkpoint/ai.py:49-101 | the ordered moves are explored in order, each step its move's child searched from the table and window the previous steps leave (LevelSearched); stops early only at the first step with beta <= alpha; first strictly best value and move; the table ends as the last child's search left it |
| AiSearch.LevelMoves | third_checkpoint/ai.py:51-67 | every step of a level is the ordered move at its position, played as IsChild says |
| AiSearch.Expand | third_checkpoint/ai.py:45-101 | in a non-terminal state above depth 0, the possible moves ordered for the side to move are explored as SearchMoves says, and the move returned is an undrawn edge |
| AiSearch.Minimax | third_checkpoint/ai.py:31-102 | the call satisfies Searched: a table hit returns the stored entry with the table unchanged; otherwise evaluate at depth 0 or when every edge is owned, or the first strictly best of the ordered moves' children each searched recursively from the window and table the previous ones left; the result is stored at this depth, and an explored level returns an undrawn edge |
| AiSearch.SearchedUnique | third_checkpoint/ai.py:31-102 | Searched is functional: two results for the same game, depth, window, flag and table agree in value, move, explored steps and final table |

## Left out

- Pixel geometry is not modelled: `axial_to_pixel`, `polygon_vertices`, `normalize_edge`, the vertex merging with `TOLERANCE`, and hence how `init_state` builds `cell_edges` and `edge_cells`. The topology is an input, with six distinct edges per cell. Only the integer cell enumeration of `init_state` (`MainEngine.InitCells`) is modelled.
- The random placement of treasures and artifacts in `init_state` is not modelled. The item maps are inputs.
- Drawing (pygame), event handling, messages, message timers and every `print` are left out.
- The move-message loops inside `third_checkpoint/ai.py`'s minimax only set local message variables. They do not affect the search and are left out.
- Hash collisions are not modelled. `hash_state` hashes the sorted (edge, owner) pairs, and the model uses the edge-ownership map itself as the key (`Search.KeyIsEdgeMap`).
- The model does not prove that alpha-beta returns the same value as exhaustive minimax. With a transposition table that ignores the window the entries are bounds, not exact values. The searches' contracts state what one call does: the cache rule, the leaf rule, the explored children, the pruning condition and the first-best rule.
- `MainSearch.Minimax` and `AiSearch.Minimax` take the transposition table as a parameter. `ai.py` creates a fresh table when none is passed; a caller models that by passing a new `TranspositionTable()`.
- The defensive branches of `main.py`'s minimax are not reachable in the model:
  - skipping a drawn move;
  - the "no moves" fallback;
  - the fallback when no move was kept.

  Each is an assertion that the branch cannot happen.
- `AI_STATS`, the node counters and the timing instrumentation of `main.py` are left out.
- second_code's compass picks are arbitrary (`:|`), since `random.choice` picks them in the source. `SecondCode.ApplyMove` therefore states the owner map up to those picks (one legal `SwapPick` per compass, whichever it is) rather than one exact state.
- A move that is not a key of the edge dictionary raises `KeyError` in every snapshot (for example `main.py:188`). Every `ApplyMove` instead requires `move in t.edgeCells`, so that error path is not modelled; the searches only play moves taken from the edge dictionary.
- Integers are unbounded, as in Python.
- The snapshots' `setdefault` calls for missing tracker dictionaries are modelled by always having every tracker present.
