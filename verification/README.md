# Oust PropPlayer in Dafny

This project models the move-selection core of PropPlayer, an Oust player. Oust is a two-player game on a hexagonal board. A placement that captures lets the capturing player place again, so one turn can be a chain of placements. The core has two parts.

- **The static evaluator** (`Heuristica.eval`) runs a row-major scan over the board. A depth-first flood fill (`dfs`) over the six hexagonal offsets `DIRS` splits the stones into maximal same-coloured groups. The position is then scored for one player:
  - each own stone is worth 10 + 20, and each rival stone costs the same;
  - for every own group in contact (`contacto`) with a rival group, the own group scores 100 × the rival's size when it is strictly larger, and −150 × its own size when it is strictly smaller.
- **The search** (`PropPlayer`) is a depth-limited, fail-soft alpha-beta minimax over whole turns.
  - `move` is the root loop. It keeps the first turn of strictly greatest value.
  - `evalPath` builds a root turn. While the mover keeps the turn, it tries every continuation one level deeper and follows the best one. The turn's value is the alpha-beta value of the state it reaches.
  - `minimax` is the alpha-beta search. It counts every call in a node counter. It scores finished games as ±(1000000 − depth) and uses the evaluator at the depth limit or on a timeout. A side with no move passes.
  - `completar` finishes a turn inside the tree. It takes the only continuation when there is one; otherwise it takes the first continuation the evaluator rates highest.

Modules follow that structure:
- `Hex`: cells, players, `Dirs`, the board.
- `Groups`: the flood fill, the scan, contact.
- `Sums`: order-free sums.
- `Heuristic`: the evaluator.
- `Choice`: extended integers and the first-strict-maximum selection.
- `Game`: the game engine as a bundle of functions on an abstract state.
- `Completion`: `completar`.
- `Search`: `minimax`, a plain minimax reference, and the fail-soft theorem.
- `Player`: `evalPath` and `move`.

Modelling choices:
- **Game engine.** The engine (`GameStatus`) is not part of this model. `Game.Rules` stands for it as a bundle of functions: moves, side to move, game over, winner, place, board and a measure. Two assumptions are made about it. The measure assumption, `Game.Valid`, is that a legal placement which leaves the same player to move lowers the measure; this is what makes capture chains finite. The board shape assumption, carried by the type `Hex.Board` of `board`, is that every in-bounds cell lies in [0, size)².
- **States.** States are values, which stands in for the source's copy constructor.
- **Timeout.** The asynchronous timeout flag is read as a deadline on the node counter (`Search.Engine.deadline`). The counter is threaded through the whole search, so all three timeout checks are modelled: the one at the root, the one on entry to a node, and the one before each reply.
- **Sentinels.** Java's `Integer.MIN_VALUE` and `MAX_VALUE` sentinels are the `NegInf` and `PosInf` values of `Choice.Ext`.

Behaviour of the code worth knowing:
- **Single-move shortcut.** `move` has no shortcut for a single legal move. It evaluates every move (PropPlayer.java:44-56).
- **Depth in `evalPath`.** Each chain continuation explored by `evalPath` is one level deeper (PropPlayer.java:79). The turn's value is the search of the reached state at `depth + 1` (PropPlayer.java:91).
- **Chains inside the tree.** Inside the tree, chains are completed greedily by the evaluator, not by a search (PropPlayer.java:144-172).
- **Passing.** A side without moves "passes" by searching the same state one level deeper (PropPlayer.java:113-115).
- **Timeout before the first move.** A timeout before the first root move is evaluated returns no turn (PropPlayer.java:45, 58). In the source a timeout that rises inside a node, after its entry check (line 108) and before its first reply check (line 122), also leaves sentinel values behind. That can likewise end `move` with no turn, or with a turn valued at the `MAX_VALUE` sentinel; see the `Player.Move` line under "## Left out".

## Model

| member | source | states |
|---|---|---|
| Hex.DirsClosedUnderNegation | Oust/src/edu/upc/epsevg/prop/oust/players/Heuristica.java:21-23 | the negation of each of the six offsets is again one of the six |
| Hex.AdjacentSymmetric | Oust/src/edu/upc/epsevg/prop/oust/players/Heuristica.java:21-23 | being one offset away is a symmetric relation between cells |
| Hex.AllStonesSplit | Oust/src/edu/upc/epsevg/prop/oust/players/Heuristica.java:40-41 | the stones on the board are the player's stones and the other colour's, and no cell is both |
| Groups.Dfs | Oust/src/edu/upc/epsevg/prop/oust/players/Heuristica.java:76-86 | the fill only adds to the visited set; it marks the start cell exactly when that cell holds a stone of the colour; every newly marked cell holds a stone of that colour |
| Groups.DfsDirs | Oust/src/edu/upc/epsevg/prop/oust/players/Heuristica.java:83-85 | the loop over the offsets only adds stones of the colour to the visited set |
| Groups.DfsMarksNeighbours | Oust/src/edu/upc/epsevg/prop/oust/players/Heuristica.java:76-86 | every cell the fill newly marks has all its same-coloured neighbours marked too: the marked region is closed |
| Groups.DfsDirsMarksNeighbours | Oust/src/edu/upc/epsevg/prop/oust/players/Heuristica.java:83-85 | after the offset loop, every same-coloured neighbour of the cell through the remaining offsets is marked, and newly marked cells are closed |
| Groups.DfsStaysWithin | Oust/src/edu/upc/epsevg/prop/oust/players/Heuristica.java:76-86 | the fill never leaves a closed same-coloured region containing its start: it marks no more than the group |
| Groups.NewGroup | Oust/src/edu/upc/epsevg/prop/oust/players/Heuristica.java:43-45 | a fill started on an unvisited stone marks exactly one maximal group: non-empty, closed, and inside every closed set it meets |
| Groups.FindGroupsPartition | Oust/src/edu/upc/epsevg/prop/oust/players/Heuristica.java:35-45 | the scan's groups are maximal groups, pairwise disjoint, and together exactly the stones of the board |
| Groups.ScanPartition | Oust/src/edu/upc/epsevg/prop/oust/players/Heuristica.java:35-45 | the scan from any position keeps the invariant (groups found so far are maximal, disjoint and equal the visited cells) and ends with a partition |
| Groups.GroupsMeetingAreEqual | Oust/src/edu/upc/epsevg/prop/oust/players/Heuristica.java:76-86 | two maximal groups that share a cell are the same group |
| Groups.PartitionHasEveryGroup | Oust/src/edu/upc/epsevg/prop/oust/players/Heuristica.java:35-45 | every maximal group of the board appears in any partition into maximal groups |
| Groups.PartitionDistinct | Oust/src/edu/upc/epsevg/prop/oust/players/Heuristica.java:35-45 | no group appears twice in such a partition |
| Groups.ContactIffAdjacent | Oust/src/edu/upc/epsevg/prop/oust/players/Heuristica.java:88-97 | the contact test holds exactly when some cell of the first group is adjacent to some cell of the second |
| Groups.ContactSymmetric | Oust/src/edu/upc/epsevg/prop/oust/players/Heuristica.java:88-97 | contact of g1 with g2 holds exactly when contact of g2 with g1 does |
| Groups.SameColourNeverInContact | Oust/src/edu/upc/epsevg/prop/oust/players/Heuristica.java:76-97 | two different groups of one colour in a partition are never in contact |
| Heuristic.PairTerm | Oust/src/edu/upc/epsevg/prop/oust/players/Heuristica.java:62-69 | a pair term is positive exactly when the groups touch and the own group is strictly larger, negative exactly when they touch and it is strictly smaller |
| Heuristic.ScoreIsOrderFree | Oust/src/edu/upc/epsevg/prop/oust/players/Heuristica.java:47-71 | the score of a list of groups depends only on the multiset of groups |
| Heuristic.EvalIsOrderFree | Oust/src/edu/upc/epsevg/prop/oust/players/Heuristica.java:25-74 | the evaluator equals the score of any partition of the board into maximal groups, whatever the discovery order |
| Heuristic.BaseCounts | Oust/src/edu/upc/epsevg/prop/oust/players/Heuristica.java:47-55 | for disjoint groups whose cells lie among the player's or the other colour's stones by their colour, the base terms sum to 30 × (own stones − other stones) in their union |
| Heuristic.BaseCountsStones | Oust/src/edu/upc/epsevg/prop/oust/players/Heuristica.java:47-55 | the base part of the evaluator is 30 × (player's stones − other colour's stones) |
| Heuristic.EvalFormula | Oust/src/edu/upc/epsevg/prop/oust/players/Heuristica.java:25-74 | the evaluator is the stone-count term plus the sum of the pair terms over own × rival groups |
| Heuristic.EmptyBoardScoresZero | Oust/src/edu/upc/epsevg/prop/oust/players/Heuristica.java:25-74 | a board without stones scores 0 |
| Choice.Max | Oust/src/edu/upc/epsevg/prop/oust/players/PropPlayer.java:128-130 | Math.max on extended integers: an upper bound of both arguments that is one of them |
| Choice.Min | Oust/src/edu/upc/epsevg/prop/oust/players/PropPlayer.java:132-134 | Math.min on extended integers: a lower bound of both arguments that is one of them |
| Choice.PickFrom | Oust/src/edu/upc/epsevg/prop/oust/players/PropPlayer.java:158-166 | the strict-improvement loop ends on an index no element exceeds, with every earlier element strictly smaller |
| Choice.FirstArgMax | Oust/src/edu/upc/epsevg/prop/oust/players/PropPlayer.java:155-166 | the chosen index holds a greatest element and every earlier element is strictly smaller |
| Choice.FirstArgMaxUnique | Oust/src/edu/upc/epsevg/prop/oust/players/PropPlayer.java:155-166 | those two properties determine the chosen index |
| Choice.FirstArgMaxAppend | Oust/src/edu/upc/epsevg/prop/oust/players/PropPlayer.java:47-50 | a new last element replaces the choice exactly when it is strictly greater than the chosen one |
| Game.ChainShrinks | Oust/src/edu/upc/epsevg/prop/oust/players/PropPlayer.java:148-169 | under the engine assumption, each placement that keeps p's turn lowers p's chain budget |
| Completion.Greedy | Oust/src/edu/upc/epsevg/prop/oust/players/PropPlayer.java:155-167 | the greedy choice is one of the continuations |
| Completion.GreedyIsBest | Oust/src/edu/upc/epsevg/prop/oust/players/PropPlayer.java:155-167 | no continuation is rated above the greedy choice, and every one listed before it is rated strictly lower |
| Completion.LoneContinuationIsGreedy | Oust/src/edu/upc/epsevg/prop/oust/players/PropPlayer.java:152-153 | the one-continuation shortcut agrees with the greedy rule |
| Completion.NextPlacement | Oust/src/edu/upc/epsevg/prop/oust/players/PropPlayer.java:152-168 | the continuation placed next is a legal one |
| Completion.Complete | Oust/src/edu/upc/epsevg/prop/oust/players/PropPlayer.java:148-169 | the completion loop ends where p's turn is over: game over, turn passed, or no continuation |
| Completion.CompleteIsChain | Oust/src/edu/upc/epsevg/prop/oust/players/PropPlayer.java:148-169 | the placements the loop makes are legal, each made by p while p is to move in an unfinished game, and lead to its result |
| Completion.Completar | Oust/src/edu/upc/epsevg/prop/oust/players/PropPlayer.java:144-172 | placing m and completing ends where p's turn is over |
| Completion.CompletarIsTurn | Oust/src/edu/upc/epsevg/prop/oust/players/PropPlayer.java:144-172 | a legal m followed by the completion's placements is a whole turn of the side to move, ending at completar's state |
| Search.TerminalScoreSign | Oust/src/edu/upc/epsevg/prop/oust/players/PropPlayer.java:101-106 | for a depth below 1000000, the score is positive exactly when maxP won, negative exactly when the other player won, zero exactly when nobody won, and never beyond ±1000000 |
| Search.TerminalZeroSum | Oust/src/edu/upc/epsevg/prop/oust/players/PropPlayer.java:101-106 | the same finished game scores the opposite for the other player |
| Search.TerminalOrdering | Oust/src/edu/upc/epsevg/prop/oust/players/PropPlayer.java:101-106 | for depths 0 ≤ d1 < d2 < 1000000 a quicker win beats a slower one, a slower loss beats a quicker one, and a draw lies strictly between |
| Search.Minimax | Oust/src/edu/upc/epsevg/prop/oust/players/PropPlayer.java:98-139 | every call advances the node counter |
| Search.MaxReplies | Oust/src/edu/upc/epsevg/prop/oust/players/PropPlayer.java:121-136 | a max node's loop never lowers the counter and yields a finite value once a reply is searched |
| Search.MinReplies | Oust/src/edu/upc/epsevg/prop/oust/players/PropPlayer.java:121-136 | a min node's loop never lowers the counter and yields a finite value once a reply is searched |
| Search.FullSearch | Oust/src/edu/upc/epsevg/prop/oust/players/PropPlayer.java:98-139 | the reference minimax without window or timeout over the same leaves, passes and completed replies; its tree has at least one node |
| Search.FullMax | Oust/src/edu/upc/epsevg/prop/oust/players/PropPlayer.java:121-136 | the reference max over the replies is at least its start, finite once a reply exists, and counts at least one node per reply |
| Search.FullMin | Oust/src/edu/upc/epsevg/prop/oust/players/PropPlayer.java:121-136 | the reference min over the replies is at most its start, finite once a reply exists, and counts at least one node per reply |
| Search.MinimaxFailSoft | Oust/src/edu/upc/epsevg/prop/oust/players/PropPlayer.java:117-138 | without a timeout, alpha-beta is fail-soft against plain minimax: exact strictly inside the window, an upper bound at or below alpha, a lower bound at or above beta; it visits no more nodes than plain minimax |
| Search.RepliesMax | Oust/src/edu/upc/epsevg/prop/oust/players/PropPlayer.java:127-130 | a max node's loop keeps the fail-soft relation between its value and the exact maximum, and its node count within the reference's |
| Search.RepliesMaxAt | Oust/src/edu/upc/epsevg/prop/oust/players/PropPlayer.java:127-130 | one reply of a max node, with its cutoff, preserves that relation |
| Search.RepliesMin | Oust/src/edu/upc/epsevg/prop/oust/players/PropPlayer.java:131-135 | a min node's loop keeps the fail-soft relation between its value and the exact minimum, and its node count within the reference's |
| Search.RepliesMinAt | Oust/src/edu/upc/epsevg/prop/oust/players/PropPlayer.java:131-135 | one reply of a min node, with its cutoff, preserves that relation |
| Search.FullWindowIsExact | Oust/src/edu/upc/epsevg/prop/oust/players/PropPlayer.java:117-138 | with the full window and no timeout, alpha-beta returns the plain minimax value |
| Search.BracketByExactValue | Oust/src/edu/upc/epsevg/prop/oust/players/PropPlayer.java:127-135 | the fail-soft relation read from the exact value: at or below alpha gives at or below alpha, at or above beta gives at or above beta, inside gives equality |
| Search.MinimaxByExactValue | Oust/src/edu/upc/epsevg/prop/oust/players/PropPlayer.java:117-138 | without a timeout, alpha-beta answers at or below alpha, at or above beta, or exactly, as the plain minimax value lies below, above or inside the window |
| Search.PassToHorizon | Oust/src/edu/upc/epsevg/prop/oust/players/PropPlayer.java:112-115 | a side with no move in an unfinished game is rated by the evaluator on its own board; without a timeout this costs one node per remaining level plus one |
| Player.PropRepliesAreTurns | Oust/src/edu/upc/epsevg/prop/oust/players/PropPlayer.java:124 | every reply PropPlayer searches is a whole turn of the side to move |
| Player.EvalPath | Oust/src/edu/upc/epsevg/prop/oust/players/PropPlayer.java:64-93 | the returned path starts with m and is a whole turn of p ending at the returned state; the counter advances |
| Player.Continuations | Oust/src/edu/upc/epsevg/prop/oust/players/PropPlayer.java:72-84 | one evaluated turn per continuation, in order, each a turn of p starting with that continuation |
| Player.EvalAll | Oust/src/edu/upc/epsevg/prop/oust/players/PropPlayer.java:78-84 | the continuations from the i-th on, each evaluated as a turn starting with it, at least one node each |
| Player.EvalPathFollowsBest | Oust/src/edu/upc/epsevg/prop/oust/players/PropPlayer.java:71-88 | when p keeps the turn with continuations left, the path is m followed by the path of the first continuation of greatest value, and the state is that continuation's |
| Player.FirstBestItem | Oust/src/edu/upc/epsevg/prop/oust/players/PropPlayer.java:78-84 | the first index of a greatest value is a turn no other continuation beats, with every earlier one strictly lower |
| Player.EvalPathStopsWhenTurnEnds | Oust/src/edu/upc/epsevg/prop/oust/players/PropPlayer.java:71-74 | when p's turn ends with m, the path is m alone and the state is the one after m |
| Player.EvalPathFailSoft | Oust/src/edu/upc/epsevg/prop/oust/players/PropPlayer.java:91 | without a timeout, a turn's value is fail-soft against plain minimax of the state the turn reaches |
| Player.EvalAllFailSoft | Oust/src/edu/upc/epsevg/prop/oust/players/PropPlayer.java:78-84 | without a timeout, each continuation evaluated from the i-th on carries a value fail-soft against the plain minimax value, one level deeper, of the state its turn reaches |
| Player.ContinuationsFailSoft | Oust/src/edu/upc/epsevg/prop/oust/players/PropPlayer.java:72-84 | without a timeout, the values evalPath compares when p keeps the turn are fail-soft against the plain minimax values, two levels below, of the states the continuations' turns reach |
| Player.ItemsFailSoftCons | Oust/src/edu/upc/epsevg/prop/oust/players/PropPlayer.java:78-84 | prepending a turn with a fail-soft value to a run of such turns keeps every value fail-soft |
| Player.RootLoop | Oust/src/edu/upc/epsevg/prop/oust/players/PropPlayer.java:44-56 | the loop keeps the turns evaluated before i, adds at most one per remaining move and counts at least a node for each; it stops only after the last move, on a timeout, or once best reaches beta; without a timeout at entry it evaluates at least one more move; best never becomes plus infinity |
| Player.RootNext | Oust/src/edu/upc/epsevg/prop/oust/players/PropPlayer.java:49-55 | after the i-th move's turn is evaluated, it is appended in order; the loop stops after the last move, on a timeout, or once best reaches beta |
| Player.RootLoopTurns | Oust/src/edu/upc/epsevg/prop/oust/players/PropPlayer.java:44-56 | every turn the root loop adds is a whole turn of the side to move starting with the move it evaluates |
| Player.RootNextTurns | Oust/src/edu/upc/epsevg/prop/oust/players/PropPlayer.java:49-55 | appending a whole turn of the i-th move keeps every added turn a whole turn starting with its move |
| Player.RootSearch | Oust/src/edu/upc/epsevg/prop/oust/players/PropPlayer.java:38-56 | from the full window the root evaluates every move unless the timeout stops it, each evaluated turn a whole turn of the side to move starting with its move; with moves and no timeout at the start it evaluates at least one; it counts a node per evaluated move at least |
| Player.Move | Oust/src/edu/upc/epsevg/prop/oust/players/PropPlayer.java:29-59 | depth is the limit; no move gives no path and 0 nodes; a timeout at the start gives no path and 0 nodes; with moves and no timeout at the start a path is returned, starting with a legal move; without a deadline nodes ≥ number of moves |
| Player.KeepStep | Oust/src/edu/upc/epsevg/prop/oust/players/PropPlayer.java:47-50 | one strict-improvement update keeps the first turn of greatest value |
| Player.RootKeepsFirstBest | Oust/src/edu/upc/epsevg/prop/oust/players/PropPlayer.java:44-56 | the root loop ends holding the first evaluated turn of greatest value, with that value as best |
| Player.RootNextKeepsFirstBest | Oust/src/edu/upc/epsevg/prop/oust/players/PropPlayer.java:49-55 | one root update followed by the rest of the loop keeps the first evaluated turn of greatest value |
| Player.MoveKeepsFirstBest | Oust/src/edu/upc/epsevg/prop/oust/players/PropPlayer.java:29-59 | move returns the path of the first evaluated turn of greatest value, and it is a whole turn of the side to move |
| Player.ExactStep | Oust/src/edu/upc/epsevg/prop/oust/players/PropPlayer.java:44-56 | a root update with a fail-soft value and alpha at the best so far keeps the first turn of greatest exact value |
| Player.RootKeepsExactBest | Oust/src/edu/upc/epsevg/prop/oust/players/PropPlayer.java:44-56 | without a timeout the root loop evaluates every move and keeps the first turn of greatest exact value |
| Player.RootNextKeepsExactBest | Oust/src/edu/upc/epsevg/prop/oust/players/PropPlayer.java:49-55 | with a fail-soft value for the i-th turn and no timeout, the rest of the loop evaluates every move and keeps the first turn of greatest exact value |
| Player.MoveChoosesExactBest | Oust/src/edu/upc/epsevg/prop/oust/players/PropPlayer.java:29-59 | without a timeout move evaluates every move and returns the first turn whose reached state has the greatest plain minimax value: pruning does not change the choice among the evaluated turns |

## Left out

- Oust/src/edu/upc/epsevg/prop/oust/Game.java: the window and the wiring of players; there is no search logic in it.
- GameStatus internals (captures, turn bookkeeping, legality of a placement) are not part of this model. They are the functions of `Game.Rules`, constrained by the measure assumption `Game.Valid` and by the board shape below.
- Hex.Board: the board the evaluator sees is assumed to keep every in-bounds cell in [0, size)². The source indexes `vis[p.x][p.y]` (Heuristica.java:77) and would throw `ArrayIndexOutOfBoundsException` otherwise; that exception path is not modelled.
- The asynchronous `timeout()` setter (PropPlayer.java:175-177) is concurrency. The flag is modelled as "the node counter has reached a deadline", so the flag can only rise between node visits.
- Search.Minimax: a timeout arriving between the check on node entry (line 108) and the check before the first reply (line 122) would make the source return the MIN/MAX sentinel. In the model both checks read the same counter, so this cannot happen.
- Player.Move: the promise of a turn whenever moves exist and the flag is down at the start rests on the deadline model, in which the checks at lines 108 and 122 read the same counter. In the source the flag can rise between them in a depth-2 max node. That node then returns `MIN_VALUE` (lines 119, 122, 138), and its depth-1 min parent passes it on (lines 132-133), so the first move's value is `MIN_VALUE` and the `>` test at line 49 fails. The next iteration breaks at line 45 and `move` returns no turn (line 58). If a depth-1 min node hits the same race, it returns `MAX_VALUE`, and the root keeps that turn valued at the sentinel and stops (lines 49-55). Neither path is modelled.
- Java `int` arithmetic: values are unbounded integers and the MIN/MAX sentinels are `Choice.Ext`. The source's scores stay far inside the `int` range, so no overflow is modelled.
- Player.EvalPath: in the source, `mejor` stays null (and line 86 throws) only if every continuation's value equals `Integer.MIN_VALUE`. The model has no such value, so it always follows a continuation.
- Completion.Complete: totality rests on a guard on the chain budget. The guard never fires when the rules satisfy `Game.Valid`, and the turn-over guarantee is stated under `Game.Valid`.
- Search.MinimaxFailSoft, Player.EvalPathFailSoft and Player.MoveChoosesExactBest are proved only without a timeout. With a timeout the values are evaluator cut-offs and there is no exact reference to compare with.
- Player.MoveChoosesExactBest compares the turns `move` evaluated. The continuation `evalPath` follows inside a turn is chosen by fail-soft values that depend on alpha, so the turns themselves are those alpha-beta built.
- The evaluator and the completion of replies are fields of `Search.Engine`; `Player.Prop` fills them with `Heuristic.Eval` and `Completion.Completar` as PropPlayer does.
- The returned `PlayerMove` and `SearchType` packaging, `getName`, the player's name and the unused `opp` local (Heuristica.java:26) carry no logic and are not modelled.
- `java.awt.Point` and `HashSet` are pairs of integers and Dafny sets; the group's `tamano` is the size of its cell set, because a cell is added to a group at most once.
