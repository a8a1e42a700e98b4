# AlphaZero-style tree search, modelled in Dafny

This project models the search engine of a small AlphaZero-style
self-play library and the two game environments shipped with it:

- **Env** (`env.dfy`). This is the environment contract. An `Action` is an index into the
  action space of the state that produced it. The `State` trait is a record
  of its operations (`StateOps`). `ActionMap` is the dense vector that
  holds one payload per action.
- **Float32** (`float.dfy`). This is the part of f32 arithmetic the scoring depends on: NaN,
  the infinities, `+`, `/`, `>=`, `powf` and the `OrderedFloat` total order
  (NaN above everything).
- **Scoring** (`scoring.dfy`). These are the per-action statistics, the quality `Q`, the PUCT
  score, the "last maximum wins" choice of `max_by_key`, the visit-count
  probabilities and the cumulative sampling of `find_or_last`.
- **Mcts** (`mcts.dfy`). These are the arena of nodes (`Nodes`) and the search tree (`Tree`).
  - The arena is a class whose `nodes` sequence the methods extend and
    update. Its invariant `Arena` says three things. Every expanded node
    links to children whose states are `take(state, a)`. Children sit at
    higher indices. Each node's visit count is the sum of its action counts.
  - `simulate` is a loop of descents and backups, proved against the
    functional `Simulations`.
  - `execute_episode` is proved to walk the tree along sampled actions and
    to return the training examples of that walk.
- **HexEnv** (`hex.dfy`). This is the Hex board.
  - The winning-path search is proved sound and complete against an
    explicit chain of adjacent stones.
  - It also covers `next_take_cell`, `undo` and the `State` implementation
    (reward, value, as_array).
- **TangledEnv** (`tangled.dfy`). This is the partial Tangled game: its players and its network of
  claimable nodes and colourable links.

Behaviour of the code that is easy to misread, which the model follows:

- `max_by_key` keeps the **last** of several equal maxima, so `select_action`
  breaks ties towards the highest action index, not the first.
- The quality of an action never taken is `0/0`, which is NaN.
  `OrderedFloat` ranks NaN above every number. So an untried action wins
  the selection, and so does a node's mean quality.
- `simulate` only descends from a node that has been visited. On a fresh
  tree the root has a visit count of 0, so every simulation leaves the tree
  as it is. At an unvisited node every probability is `0^(1/t) / 0^(1/t)`.
  For a finite or NaN temperature that is NaN, and sampling picks the last
  action. At an infinite temperature `1/t` is 0 and `0^0` is 1, so every
  probability is 1 and a draw of at most 1 picks the first action
  (`UnvisitedSampling`).
- `Hex::default` zips `0..N` with `0..N`, so the initial `empty_cells` holds
  only the diagonal cells `(i, i)`.
- Hex's `action_count` is the number of cells **taken** so far. Its `take`
  replays the cell `taken[action]`.
- `undo` leaves `winner` as it was.

## Model

| member | source | states |
|---|---|---|
| Env.ActionIter | src/env.rs:24-26 | the actions are exactly `Action(0) .. Action(count-1)`, in increasing order |
| Env.NewActionMap | src/env.rs:46-50 | the map built from the items has one entry per item, in the order given |
| Env.ActionMap.IsEmpty | src/env.rs:56-58 | empty exactly when the length is zero |
| Env.ActionMap.ActionValueIter | src/env.rs:72-74 | yields one pair per action, pairing `Action(k)` with the payload at `k` |
| Env.ActionValueIterFollowsActionIter | src/env.rs:72-74 | the actions `action_value_iter` yields are the ones `action_iter` yields |
| Env.ActionMap.Last | src/env.rs:80-82 | `None` exactly when the map is empty, otherwise the payload of the last action |
| Env.ActionMap.Update | src/env.rs:94-96 | writing through `IndexMut` changes the payload of that action only |
| Float32.Add | src/mcts.rs:168-171 | NaN absorbs; finite operands add exactly |
| Float32.AddCommutes | src/mcts.rs:282-284 | f32 addition commutes and NaN plus anything is NaN |
| Float32.Div | src/mcts.rs:163-165 | 0/0 and inf/inf are NaN; a finite value over a non-zero finite value divides exactly |
| Float32.OrderedFloatIsTotalPreorder | src/mcts.rs:265 | `OrderedFloat` is reflexive, total, transitive and antisymmetric, with NaN as the unique top |
| Float32.GreaterOrEqualMatchesOrder | src/mcts.rs:284 | f32 `>=` agrees with `OrderedFloat` off NaN and is false whenever NaN is involved |
| Float32.Reciprocal | src/mcts.rs:150 | `1/t` is exact for a non-zero finite temperature, positive infinity at zero, zero at either infinity and NaN at NaN |
| Float32.PowF | src/mcts.rs:150-151 | 1 to any power is 1; 0 to a positive power is 0 and to a negative power is infinity |
| Float32.ZeroPowerOverItself | src/mcts.rs:150-152 | an unvisited count raised to `1/t` over itself is NaN for a finite or NaN temperature, and 1 for an infinite one |
| Scoring.QualityCases | src/mcts.rs:163-165 | an untaken action's quality is NaN; a taken one's is its mean value |
| Scoring.QualitySumCases | src/mcts.rs:155-157 | the sum of qualities is NaN if any untaken action is included, otherwise it is the exact sum of the means |
| Scoring.MeanQualityCases | src/mcts.rs:155-157 | a node's mean quality is NaN when it has no actions or an untaken one, otherwise the average of the action means |
| Scoring.PuctCases | src/mcts.rs:167-171 | PUCT of an untaken action is NaN and ranks above every score; a taken action's is quality plus `explore * prior * sqrt(N) / (1 + n)` |
| Scoring.PuctScores | src/mcts.rs:262-264 | one PUCT score per action, each computed from that action's statistics |
| Scoring.LastMaxStep | src/mcts.rs:265 | extending the scores by one keeps the old maximum unless the new score is at least as large |
| Scoring.LastMaxIsLastMax | src/mcts.rs:260-266 | `max_by_key` over `OrderedFloat` returns a maximum with nothing after it at least as large |
| Scoring.LastMaxIsUnique | src/mcts.rs:265 | that characterisation determines the chosen index |
| Scoring.LastMaxPrefersNaN | src/mcts.rs:260-266 | if any score is NaN, the choice is the last NaN |
| Scoring.ProbabilityIter | src/mcts.rs:145-153 | one probability per action |
| Scoring.UnvisitedProbabilities | src/mcts.rs:145-153 | at an unvisited node every action's probability is NaN, or 1 when the temperature is infinite |
| Scoring.VisitedProbabilities | src/mcts.rs:145-153 | at a visited node and a positive finite temperature, an untaken action has probability 0 |
| Scoring.FindFrom | src/mcts.rs:279-286 | the search stops at an index at or after its start, or falls back to the last index |
| Scoring.FindFromStep | src/mcts.rs:282-285 | one step adds the next probability and stops exactly when the running sum reaches the draw |
| Scoring.FindOrLastReached | src/mcts.rs:277-287 | the loop with the running sum returns the `find_or_last` index |
| Scoring.FindOrLastIsFirstReached | src/mcts.rs:279-286 | the result is the first index whose running sum reaches the draw, or the last index if none does |
| Scoring.RunningSumAfterNaN | src/mcts.rs:282-284 | a running sum of NaN probabilities is NaN |
| Scoring.AllNaNPicksLast | src/mcts.rs:276-289 | when every probability is NaN the last action is sampled |
| Scoring.FirstOnePicksFirst | src/mcts.rs:282-285 | when the first probability is 1 and the draw at most 1, the first action is sampled |
| Scoring.SumCountsZero | src/mcts.rs:360-370 | the action counts sum to zero exactly when every count is zero |
| Scoring.SumCountsIncrement | src/mcts.rs:366-368 | incrementing one action's count increments the sum by one |
| Mcts.Node.Scores | src/mcts.rs:262-264 | one score per action |
| Mcts.Node.ActionProbability | src/mcts.rs:271-273 | one probability per action |
| Mcts.Node.SelectAction | src/mcts.rs:260-268 | the action is the last PUCT maximum and the child is that action's link |
| Mcts.Node.SampleAction | src/mcts.rs:276-289 | the action is the first whose cumulative probability reaches the draw, else the last; the child is its link |
| Mcts.NewNode | src/mcts.rs:200-208 | a new node holds the state, has no visits and has no actions yet |
| Mcts.ChildRefs | src/mcts.rs:228-233 | the children are numbered consecutively from the arena's current end |
| Mcts.FreshStats | src/mcts.rs:227-241 | each action starts with count 0, total 0 and the uniform prior `1/count` |
| Mcts.ChildNodes | src/mcts.rs:96-105 | one new node per action, holding `take(state, a)` |
| Mcts.ExpandEffect | src/mcts.rs:80-105 | opening a node keeps the arena invariant, appends its children and links it to them with fresh statistics |
| Mcts.ExpandNodeOk | src/mcts.rs:88-105 | after an expansion, every node, old or new, satisfies the arena invariant |
| Mcts.ExpandedNodeOk | src/mcts.rs:88-95 | the opened node satisfies the arena invariant: its links reach children holding `take(state, a)` and its visit count equals the sum of its fresh counts |
| Mcts.ExpandKeepsNodeOk | src/mcts.rs:96-105 | every other old node still satisfies the arena invariant once the children are appended |
| Mcts.ExpandChildOk | src/mcts.rs:96-105 | every appended child satisfies the arena invariant: it is unopened and nothing is counted |
| Mcts.UntakenActionMakesQualityNaN | src/mcts.rs:292-294 | a node with an untaken action has a NaN quality |
| Mcts.Nodes.Empty | src/mcts.rs:49-53 | the arena starts with no nodes |
| Mcts.Nodes.New | src/mcts.rs:49-53 | a new arena holds only the initial state, as node 0, and is valid |
| Mcts.Nodes.AddNode | src/mcts.rs:70-74 | appends one new node and returns its index |
| Mcts.Nodes.InitActions | src/mcts.rs:225-245 | an initialised node is left alone; otherwise links and fresh statistics are set, with nothing else changed |
| Mcts.Nodes.AddChildren | src/mcts.rs:96-105 | appends one child node per action of the node's state |
| Mcts.Nodes.OpenIfNot | src/mcts.rs:80-86 | idempotent: an open node leaves the arena unchanged; a closed one is expanded; the invariant holds either way |
| Mcts.Nodes.SelectAction | src/mcts.rs:56-59 | opens the node, then picks the last PUCT maximum; the child holds `take(state, a)` |
| Mcts.Nodes.SampleAction | src/mcts.rs:61-68 | opens the node, then samples by cumulative probability; the child holds `take(state, a)` |
| Mcts.Descent | src/mcts.rs:330-335 | the descent stays on the arena's links and ends at or below its start |
| Mcts.DescentIncreases | src/mcts.rs:330-335 | node indices along a descent strictly increase, so no node repeats |
| Mcts.DescentStep | src/mcts.rs:330-335 | from a visited non-terminal node the descent takes the PUCT choice and continues from that child |
| Mcts.DescentFrom | src/mcts.rs:330-335 | one turn of the descent loop extends the recorded path by the PUCT choice and keeps the rest of the descent to come |
| Mcts.BackedUp | src/mcts.rs:361-369 | a backup step keeps the node's state and links and the number of its actions |
| Mcts.Backup | src/mcts.rs:360-370 | the backup keeps the arena's size |
| Mcts.BackupStep | src/mcts.rs:360-370 | the backup pops the last step, updates that node, and continues with the transformed value |
| Mcts.BackupFrame | src/mcts.rs:360-370 | the backup changes only the nodes on the path, adds one visit per occurrence and keeps all links |
| Mcts.BackedUpCounted | src/mcts.rs:362-369 | a backup step keeps the visit count equal to the sum of the action counts |
| Mcts.ReplaceCounters | src/mcts.rs:362-369 | replacing counters consistently keeps the arena invariant |
| Mcts.BackupKeepsArena | src/mcts.rs:360-370 | the backup keeps the arena invariant |
| Mcts.SimulateOnce | src/mcts.rs:329-370 | a simulation keeps the arena invariant and size, and changes no node's state or links |
| Mcts.Simulations | src/mcts.rs:326-372 | `count` simulations keep the arena invariant and size, and change no node's state or links |
| Mcts.SimulateOnceIdle | src/mcts.rs:330-331 | from an unvisited or terminal node, a simulation changes nothing |
| Mcts.SimulationsFromUnvisited | src/mcts.rs:326-372 | any number of simulations from an unvisited node leave the tree unchanged |
| Mcts.OccurrencesOnIncreasingPath | src/mcts.rs:360-370 | on a strictly increasing path each node occurs at most once |
| Mcts.SimulateOnceCountsPath | src/mcts.rs:329-370 | from a visited non-terminal node, each node on the descent gains one visit and all other nodes are untouched |
| Mcts.ExpandExtends | src/mcts.rs:80-105 | an expansion only adds nodes and opens the expanded one |
| Mcts.WalkExtends | src/mcts.rs:380-387 | a walk through the tree survives growth of the arena |
| Mcts.WalkStep | src/mcts.rs:384-387 | appending the sampled step to a walk gives a walk to the child |
| Mcts.SimulationsKeepWalk | src/mcts.rs:384 | simulating at the walk's end keeps the walk |
| Mcts.OpenKeepsWalk | src/mcts.rs:385 | opening the walk's end keeps the walk, and a fresh arena stays unvisited |
| Mcts.UnvisitedSampling | src/mcts.rs:276-289 | sampling at an unvisited node picks its last action, except at an infinite temperature, where a draw of at most 1 picks the first |
| Mcts.ChainValueAlternates | src/mcts.rs:390-393 | when `value` negates, the k-th example's value is the reward with sign `(-1)^k` |
| Mcts.Tree.New | src/mcts.rs:321-324 | a new tree is node 0 holding the initial state, and nothing is visited |
| Mcts.Tree.Select | src/mcts.rs:329-335 | the descent loop returns the path and leaf of the descent function |
| Mcts.Tree.BackupPath | src/mcts.rs:360-370 | the backup loop leaves the arena equal to the backup function of the path |
| Mcts.Tree.Simulate | src/mcts.rs:326-372 | the arena after `count` simulations equals `Simulations`, and the invariant holds |
| Mcts.Tree.Advance | src/mcts.rs:383-387 | simulates, then samples and extends the walk by one step, or stops when the node has no action; the step is the `find_or_last` index of the opened node's probabilities for the draw, and the next node is that action's child |
| Mcts.Tree.Examples | src/mcts.rs:388-397 | one example per step, holding the state's array, its probabilities and the backed-up value |
| Mcts.Tree.ExecuteEpisode | src/mcts.rs:375-400 | the episode walks the tree from the root; when it finishes at a terminal node, the examples are those of the walk; from an unvisited tree every step is the last action, or the first at an infinite temperature with draws at most 1 |
| HexEnv.Player.Other | examples/hex/env.rs:25-27 | the other player differs |
| HexEnv.OtherIsInvolution | examples/hex/env.rs:25-27 | `other` is an involution |
| HexEnv.Player.StartCellIter | examples/hex/env.rs:37-46 | exactly the player's stones on their start edge |
| HexEnv.Player.ConnectIter | examples/hex/env.rs:55-61 | exactly the player's stones adjacent to the cell |
| HexEnv.Player.WinsFrom | examples/hex/env.rs:74-96 | the depth-first search answers whether a chain of unseen stones reaches the end edge |
| HexEnv.Player.Wins | examples/hex/env.rs:63-72 | `wins` answers whether some start stone reaches the end edge |
| HexEnv.ReachesEndSound | examples/hex/env.rs:74-96 | when the search succeeds, there is a chain of adjacent, distinct stones to the end edge |
| HexEnv.ReachesEndComplete | examples/hex/env.rs:74-96 | every such chain avoiding the seen cells makes the search succeed |
| HexEnv.HasWonSound | examples/hex/env.rs:63-72 | a win has a winning path from edge to edge |
| HexEnv.HasWonComplete | examples/hex/env.rs:63-72 | every winning path is a win |
| HexEnv.CellOneBased | examples/hex/env.rs:141 | the column is given one-based |
| HexEnv.AdjacentSymmetric | examples/hex/env.rs:201-224 | hexagonal adjacency is symmetric and irreflexive |
| HexEnv.Board.AdjIter | examples/hex/env.rs:201-224 | at most six in-bounds neighbours, exactly the adjacent cells |
| HexEnv.AdjIterSymmetric | examples/hex/env.rs:201-224 | a cell neighbours another exactly when the other neighbours it |
| HexEnv.OccupiedBy | examples/hex/env.rs:55-61 | the filter keeps exactly the cells the player occupies |
| HexEnv.EmptyBoard | examples/hex/env.rs:171-175 | an N by N board with every cell empty |
| HexEnv.Board.Set | examples/hex/env.rs:186-188 | the cell gets the player's stone; no other cell changes |
| HexEnv.Board.Clear | examples/hex/env.rs:190-192 | the cell becomes empty; no other cell changes |
| HexEnv.Board.AsArray | examples/hex/env.rs:226-239 | an N by N grid with 1 for Red, -1 for Blue and 0 for empty |
| HexEnv.AsArrayInjective | examples/hex/env.rs:226-239 | two boards with the same array are equal |
| HexEnv.Init | examples/hex/env.rs:251-261 | an empty board, Red to move, no winner, nothing taken, and only the diagonal cells listed as empty |
| HexEnv.Hex.Default | examples/hex/env.rs:251-261 | the constructed game is the initial state |
| HexEnv.TakeCell | examples/hex/env.rs:278-285 | places the mover's stone, records the cell, passes the turn, and sets the winner exactly when the mover has won |
| HexEnv.TakeCellWinner | examples/hex/env.rs:282 | a recorded winner is the mover and has a winning path |
| HexEnv.TakeCellWins | examples/hex/env.rs:282 | a winning path after the move makes the mover the winner |
| HexEnv.Hex.NextTakeCell | examples/hex/env.rs:278-285 | the game becomes `TakeCell` of the old game, and the result says whether there is a winner |
| HexEnv.HexState.Reward | examples/hex/env.rs:332-340 | 0.1 exactly for a draw, 1 for a Red win, -1 for a Blue win, none otherwise |
| HexEnv.Take | examples/hex/env.rs:325-330 | replays cell `taken[a]` for the mover, so the action count grows by one |
| HexEnv.Value | examples/hex/env.rs:342-344 | a value is negated unless it is exactly the draw reward |
| HexEnv.ValueFlipsRewards | examples/hex/env.rs:332-344 | win rewards flip sign, a draw keeps its reward, and applying twice is the identity except at -0.1 |
| HexEnv.Pop | examples/hex/env.rs:297-300 | one undo step drops the last taken cell |
| HexEnv.Undone | examples/hex/env.rs:296-302 | after undo nothing is taken |
| HexEnv.UndoneRestores | examples/hex/env.rs:296-302 | undo clears the taken cells, lists them as empty, flips the turn once per cell and keeps the winner |
| HexEnv.UndoneClears | examples/hex/env.rs:296-302 | undo clears exactly the taken cells |
| HexEnv.UndoneRelists | examples/hex/env.rs:296-302 | undo relists the taken cells as empty and flips the turn once per cell |
| HexEnv.Hex.Undo | examples/hex/env.rs:296-302 | the game becomes `Undone` of the old game |
| HexEnv.PlayMatchesMoves | examples/hex/env.rs:278-285 | playing cells in turn matches the winner-free moves except for the winner |
| HexEnv.PlayValid | examples/hex/env.rs:278-285 | a sequence of moves keeps the game well formed |
| HexEnv.PlayStack | examples/hex/env.rs:278-285 | moves push their cells on the taken stack, in order |
| HexEnv.PlayTurn | examples/hex/env.rs:278-285 | each move passes the turn |
| HexEnv.PlayEmptyCells | examples/hex/env.rs:278-285 | moves remove their cells from the empty set |
| HexEnv.PlayBoard | examples/hex/env.rs:278-285 | moves leave every unplayed cell as it was |
| HexEnv.UndoAfterPlay | examples/hex/env.rs:296-302 | undo after any game from the start restores the empty board and the turn |
| HexEnv.UndoAfterMoves | examples/hex/env.rs:296-302 | undo after any moves from the start restores the empty board, Red to move and no winner; the played cells are listed as empty besides the diagonal |
| HexEnv.UndoClearsPlayedBoard | examples/hex/env.rs:296-302 | clearing the taken cells of a game played from the start leaves an empty board |
| TangledEnv.Player.Other | examples/tangled/env.rs:15-20 | the other player differs |
| TangledEnv.OtherIsInvolution | examples/tangled/env.rs:15-20 | `other` is an involution |
| TangledEnv.Player.HasClaim | examples/tangled/env.rs:22-31 | true exactly when some listed node is claimed by the opponent |
| TangledEnv.HasClaimOfTwo | examples/tangled/env.rs:22-31 | for two nodes, true exactly when either one is the opponent's |
| TangledEnv.Network.TakeAction | examples/tangled/env.rs:61-104 | a claim succeeds exactly when its node is free and the opponent holds neither other node; a colouring exactly when its link is free; success sets only that field |
| TangledEnv.TakeActionFillsOneField | examples/tangled/env.rs:61-104 | a successful action fills one more field and cannot be repeated |
| TangledEnv.PlayFillsOneFieldPerMove | examples/tangled/env.rs:61-104 | each successful action fills one field, so at most five succeed |
| TangledEnv.Network.ClaimNode0 | examples/tangled/env.rs:105-112 | succeeds exactly when node 0 is free, and then claims only it |
| TangledEnv.Network.ClaimNode1 | examples/tangled/env.rs:113-118 | claims node 1 unconditionally and changes nothing else |

## Left out

- f32 rounding, overflow and signed zero are not modelled. Finite results are exact reals. `reward` and `value` return reals. A temperature of -0.0, whose reciprocal is negative infinity, is the same value as 0.0 here.
- `sqrt` and `powf` on finite values are parameters (`MathLib`). Their IEEE special cases (NaN, infinities, zero, one) are modelled in `Float32.PowF`.
- The random draw of `sample_action` (`random_range(0.0..1.0)`) is a parameter. `ExecuteEpisode` takes a sequence of draws, one per step. So the loop, which never terminates on its own, is bounded by the draws. Running out of draws gives `OutOfDraws`.
- The `expect("at least one action")` panic in `sample_action` and `select_action` is a `requires` on the arena methods. In `ExecuteEpisode` it becomes the `NoAction` result.
- `Mcts.Tree.ExecuteEpisode`: when the tree starts unvisited, the contract states that the walk always takes the last action, or the first one at an infinite temperature when every draw is at most 1. It does not otherwise say which action each sampled step took.
- `Mcts.Tree.Advance`: the contract states the sampled action, its child, the arena invariant, that the arena only grows and that the walk is kept. It does not restate the whole arena after the simulations and the opening of the node; `Mcts.Tree.Simulate` and `Mcts.Nodes.SampleAction` state those two steps one at a time.
- Reward caching in `OnceCell` is not modelled. The reward is recomputed from the state, and it is a pure function of the state.
- `SmallVec` storage, the `unsafe` array reinterpretation in `Nodes::new`, the `Cell` interior mutability of `actions`/`action_stats` and the `Size` marker traits are not modelled. The arena is a sequence field of a class.
- `Mcts.Tree.Select` uses the node's own `select_action`, without `open_if_not`. A visited node on the descent is always open, so `open_if_not` would change nothing.
- `Scoring.VisitedProbabilities` requires the parameter `pow` to be positive for a count of two or more, as `powf` is.
- The examples iterator of `execute_episode` is lazy. `Tree.Examples` builds the same items eagerly.
- Getters without logic are not modelled separately: `visit_count`, `reward`, `board`, `next`, `winner`, `empty_cell_iter`, `as_slice`, `iter`, `iter_mut`, `action_value_iter_mut`, `at_mut` and `Index`/`IndexMut` on `Nodes`. Where the model uses them they are plain field reads or `ActionMap.At`.
- Plain definitions carry no contract of their own, and what they mean is stated by the contracts that use them: `Env.ActionMap.Len` (`len`), `Env.ActionMap.At` (`Index`), `Mcts.Node.HasActions` (`has_actions`), `Mcts.Nodes.IsOpen` (`is_open`), `Mcts.LeafValue` (the leaf value of `simulate`), `HexEnv.Player.Occupies` (`occupies`), `HexEnv.Player.IsEnd` (`is_end`), `HexEnv.Board.At` (`at`), `HexEnv.HexState.ActionCount` (`action_count`), `HexEnv.HexState.IsDraw` (`is_draw`) and `HexEnv.HexState.AsArray` (`as_array`, which forwards to `HexEnv.Board.AsArray`).
- `HexEnv.CellOneBased` requires a one-based column of at least 1. The source subtracts 1 from an unsigned integer, which underflows on a column of 0: a panic in a debug build, a wrap-around in a release build. That input is not modelled.
- `HexEnv.Board.Set`: the previous occupant that `Board::set` returns is not modelled. Every caller discards it.
- Hex is not wired into the generic `StateOps`. Its `take` is partial (`taken[action]` must exist), while `StateOps.take` is total.
- Display formatting, `i_char`, `j_char` and `cell_to_string` are not modelled. Neither are the Tangled `State`/`Tangled` structs, which have no behaviour, and the commented-out Tangled methods.
- The neural-network modules, the binaries and the Hex example's `main.rs` are not part of this model.
