# Bloxorz A* solver — a Dafny model

This project models the solver in `mycode.py`. It finds a shortest sequence
of rolls (`U`, `D`, `L`, `R`) that brings a 1×1×2 block from its start to
stand upright on the goal tile of a board. The board is a list of text
rows: `O` is a safe tile, `G` is the goal, `S` marks the block's start
cells, and anything else is a hole. The solver is an A* search over block
states `(x, y, orientation)`. It uses the heuristic `|dx|/3 + |dy|/3`, a
priority queue ordered by guessed cost, and a `closed` set of expanded
states. Duplicates are discarded lazily, when they are popped.

The model follows the source's structure:

- `text.dfy` (`Text`) holds the two string operations the loader uses: `str.find`
  and `str.replace` for one character and for the pair `"SS"`.
- `state.dfy` (`BlockState`) holds the block state, its footprint and the source's
  integer key (`__hash__`), with `__eq__` as key equality.
- `board.dfy` (`Board`) holds `is_safe` and the footprint safety it implies.
- `moves.dfy` (`Moves`) holds the roll table, `successors` as a map, and the
  replay of an action sequence through `successors`.
- `heuristics.dfy` (`Heuristics`) holds `is_goal`, `heuristic`, and its
  consistency and admissibility.
- `frontier.dfy` (`Frontier`) holds `Node` with `__lt__`, and the
  `PriorityQueue` class (a node list plus a counter).
- `search.dfy` (`Search`) holds the A* loop invariant and the lemmas that
  make the answer a shortest solution.
- `solver.dfy` (`Solver`) holds the `Bloxorz` class. Its constructor loads
  the board. `Solve` runs the search loop, `Expand` and `QueueSuccessors`
  are its inner loop, and `CopyAndAppend` is the path copy.
- `scenario.dfy` (`Scenario`) holds the one-row board `"GOS"`, loaded and
  solved.

The main results:

- `Solve` returns either a solution that no other solution is shorter than,
  or `[]` when no action sequence reaches the goal. An initial state that is
  already a goal gives the (shortest) solution `[]`.
- The key is collision-free on in-bounds states, and every state the search
  meets is in bounds.
- The start cells are rewritten to the digit `'0'`, not the letter `'O'`.
  The source's comment at `mycode.py:132` says `"O"`, but the code writes
  `"0"`. The model follows the code, so a vacated start cell is never safe
  again. On the `"GOS"` board this takes away one move: from the two
  leftmost cells the block cannot roll right, back onto its start cell,
  which it could on `"GOO"`. The answer on that board is `[]` either way,
  because standing positions along one row lie three cells apart.

## Model

| member | source | states |
|---|---|---|
| Text.Find | mycode.py:123 | the result is -1 exactly when the character is absent; otherwise it is the index of its first occurrence |
| Text.ReplaceChar | mycode.py:143-146 | same length; each character equal to `c` becomes `d` and every other is kept |
| Text.ReplacePairs | mycode.py:140 | same length; a cell becomes `d` exactly when it is a `c` that closes a pair (an odd number of `c`s precede it in its run) or opens one (a `c` follows it), every other cell is kept; no two adjacent `c` remain |
| Text.ReplacePairsAtFirst | mycode.py:138-140 | when the first `S` of a row is followed by another `S`, replacing `"SS"` by `"00"` rewrites both cells |
| BlockState.FootprintDeterminesState | mycode.py:30-37 | two states have the same occupied cells iff they are the same `(x, y, orientation)` |
| BlockState.Key | mycode.py:61-62 | the source's `__hash__`; its properties are carried by `KeyRange` and `KeyDecodes` |
| BlockState.SameState | mycode.py:64-65 | the source's `__eq__` holds for equal states; `SameStateIsEquality` shows it is exactly state equality on in-bounds states |
| BlockState.KeyRange | mycode.py:61-62 | on an in-bounds state the key lies in `[0, 3·xSize·ySize)` |
| BlockState.KeyDecodes | mycode.py:55-62 | on an in-bounds state the key decodes back to `x`, `y` and the orientation code |
| BlockState.SameStateIsEquality | mycode.py:55-65 | on in-bounds states, `__eq__` (key equality) holds iff the triples are equal |
| BlockState.KeyCollidesOutOfBounds | mycode.py:61-65 | out of bounds the key is not injective: `(xSize, 0)` and `(0, 1)` get the same key |
| Board.IsSafe | mycode.py:162-165 | safe only in range; in range, safe iff the tile is `O` or `G`; a `'0'` cell is never safe |
| Board.FootprintSafeCells | mycode.py:223-263 | the per-move cell checks amount to every cell of the block's footprint being safe |
| Board.FootprintSafeInBounds | mycode.py:162-165 | a block resting wholly on safe tiles of a rectangular board has every cell in bounds |
| Board.FootprintCleared | mycode.py:134-146 | cells rewritten to `'0'` are not safe |
| Moves.RollReversible | mycode.py:223-263 | rolling the opposite way undoes every roll of the table |
| Moves.RollVacatesFootprint | mycode.py:223-263 | a roll moves the block off every cell it occupied |
| Moves.RollDisplacement | mycode.py:223-263 | a roll changes exactly one coordinate, by 1 or 2 |
| Moves.ClearIsSafeRoll | mycode.py:223-263 | the cells tested for a direction are exactly the cells of the rolled block |
| Moves.Successors | mycode.py:220-265 | the move generator as a map; `SuccessorsAreSafeRolls`, `SuccessorsBounded` and `ClearIsSafeRoll` state what it offers |
| Moves.SuccessorsAreSafeRolls | mycode.py:220-265 | a direction is offered iff the rolled block rests wholly on safe tiles, and it leads to the roll-table target |
| Moves.SuccessorsBounded | mycode.py:220-265 | keys only among `U, D, L, R`, at most four entries, every target safely supported |
| Moves.ReplaySnoc | mycode.py:201-207 | replaying `path + [a]` is one more `successors` step from where `path` ends |
| Moves.ReplayInBounds | mycode.py:220-265 | every state reached by replaying actions from an in-bounds state is in bounds |
| Heuristics.IsGoal | mycode.py:151-152 | the goal test holds exactly when the block covers the goal cell and no other; `GoalPoppedIsShortest` relies on it |
| Heuristics.Heuristic | mycode.py:154-159 | never negative; zero iff the top-left cell is the goal cell, for every orientation |
| Heuristics.HeuristicConsistent | mycode.py:154-159 | for every successor `t` of `s`, `h(s) ≤ 1 + h(t)` (monotonic) |
| Heuristics.HeuristicAlongPath | mycode.py:154-159 | along any replayable path, `h` drops by at most the path's length |
| Heuristics.HeuristicAdmissible | mycode.py:154-159 | `h` never exceeds the length of a path that reaches the goal |
| Frontier.Node.Less | mycode.py:26-27 | a node is never less than itself; `LessIsStrictWeakOrder` shows comparison by guessed cost is a strict weak order, and `Pop` returns a node no queued node is less than |
| Frontier.LessIsStrictWeakOrder | mycode.py:26-27 | `__lt__` is irreflexive and transitive, and incomparability is transitive |
| Frontier.MinimalExists | mycode.py:78-80 | every non-empty queue holds a node that no queued node is less than |
| Frontier.PriorityQueue.constructor | mycode.py:70-72 | empty queue, counter 0 |
| Frontier.PriorityQueue.Push | mycode.py:74-76 | the node is added and the counter still counts the queued nodes |
| Frontier.PriorityQueue.Pop | mycode.py:78-80 | removes exactly one occurrence of a queued node that no queued node is less than, and returns it |
| Frontier.PriorityQueue.NotEmpty | mycode.py:82-83 | true iff the queue holds a node |
| Search.ClosedMember | mycode.py:281 | for in-bounds states, key membership in `closed` is membership of the state itself |
| Search.QueuedStateInBounds | mycode.py:272-274 | every queued node's state is in bounds |
| Search.InitialInvariant | mycode.py:147-148 | the freshly loaded solver satisfies the search invariant |
| Search.FrontierCovers | mycode.py:272-281 | for every path to a non-closed state there is a queued node whose guessed cost is at most the path length plus the heuristic |
| Search.InitialQueued | mycode.py:148 | base case: a non-closed initial state is queued at cost at most its heuristic |
| Search.SuccessorOfClosedQueued | mycode.py:286-308 | step case: a non-closed successor of a closed state is queued at cost at most one more than the path to that state, plus the successor's heuristic |
| Search.PoppedIsShortest | mycode.py:274-281 | a least node whose state is not closed carries a shortest path to its state |
| Search.GoalPoppedIsShortest | mycode.py:283-284 | a popped goal node's path is a solution and no solution is shorter |
| Search.EmptyQueueMeansNoSolution | mycode.py:310 | when the queue runs empty, no action sequence reaches the goal |
| Search.QueuedAfterPop | mycode.py:274 | removing one node keeps every other state queued |
| Search.PopKeepsNodesSound | mycode.py:274 | the remaining nodes still replay to their states at the right cost |
| Search.DiscardKeepsInvariant | mycode.py:281 | skipping a node whose state is closed keeps the invariant |
| Search.ClosedKeysInsert | mycode.py:308 | adding an in-bounds state to `closed` adds exactly its key |
| Search.ChildrenStep | mycode.py:286-306 | one more label of the loop adds that label's child, if any |
| Search.ChildrenSound | mycode.py:286-306 | every queued child replays to its state, costs its path length plus heuristic, is one step longer than its parent and is not closed |
| Search.ChildrenCover | mycode.py:286-306 | every offered, non-closed successor gets a child one step longer than its parent |
| Search.ExpandKeepsInvariant | mycode.py:285-308 | expanding a least, non-closed, non-goal node and closing its state keeps the invariant |
| Search.KeysBounded | mycode.py:308 | a set of keys drawn from `[0, n)` has at most `n` elements |
| Search.InsertKeyBounded | mycode.py:308 | closing one more in-range key keeps `closed` in range and at most `3·xSize·ySize` large |
| Solver.FindGoal | mycode.py:122-127 | returns the first `G` of the first row holding one |
| Solver.PlaceBlock | mycode.py:134-149 | finds the first `S` of the first row holding one and places the block there, with the start cells rewritten |
| Solver.ClearStart | mycode.py:136-147 | orientation from an `S` to the right, else below, else standing; rewrites `"SS"` pairs or every `S` of the affected rows to `'0'`; the footprint becomes unsafe |
| Solver.Bloxorz.constructor | mycode.py:93-149 | sizes from the input; goal is the first `G`; initial state and rewritten rows as above; `closed` is empty and the queue holds exactly the node `(h(initial), initial, [])` |
| Solver.Bloxorz.Solve | mycode.py:271-310 | returns a solution that no solution is shorter than, or `[]` exactly when no solution exists |
| Solver.Bloxorz.Expand | mycode.py:285-308 | appends exactly the children of the expanded node (its offered, non-closed successors in the order U, D, L, R), then closes its state: `closed` grows by exactly that key, the state's path length is recorded, and the search invariant carries over |
| Solver.Bloxorz.QueueSuccessors | mycode.py:286-306 | appends, in the order U, D, L, R, one node per offered successor whose key is not closed |
| Solver.Bloxorz.QueueChild | mycode.py:288-306 | queues `(len(templist) + h(new), new, templist)` when the action is offered and the successor is not closed, else nothing |
| Solver.CopyAndAppend | mycode.py:301-304 | the copied list is the parent's path followed by the action |
| Scenario.CorridorMoves | mycode.py:220-265 | on `"GO0"` the standing start offers only `L → (0,0,along x)`, and that state offers nothing |
| Scenario.LetterOReopensStart | mycode.py:132 | had the start cell become the letter `O`, as the comment says, the roll back onto it would be offered |
| Scenario.CorridorHasNoSolution | mycode.py:134-149 | the loaded `"GOS"` board has no solution |
| Scenario.SolveCorridor | mycode.py:93-310 | loading and solving `"GOS"` returns `[]` |

## Left out

- Reading the board file and the top-level script (`mycode.py:313-323`) are I/O and are not modelled.
- `print_state` and `print_result` (`mycode.py:172-214`) only print. The replay loop of `print_result` is captured by `Moves.Replay`.
- The binary-heap layout of `heapq` is not modelled. `Push` appends, and `Pop` removes some node that no queued node is less than. Which of several equally cheap nodes comes out first is therefore not fixed. The shortest-path result holds for every such choice.
- Floating-point rounding of `heuristic` and `costGuess` is not modelled. Costs are exact reals, so `|dx|/3 + |dy|/3` is computed without rounding.
- Frontier.PriorityQueue.Pop: requires a non-empty queue. The source decrements its counter and then raises `IndexError` on an empty heap; `Solve` never pops an empty queue.
- Solver.Bloxorz.constructor: requires a rectangular board with at least one `G` and at least one `S`. Without a `G` the source never sets the goal, and without an `S` it has no initial state. With ragged rows, `is_safe` uses each row's length but the key uses the first row's.
- Solver.Bloxorz.constructor: the input rows are a value (`seq<string>`). The source rewrites the caller's list in place, so the caller sees the rewritten rows afterwards; that aliasing is not modelled.
- Solver.Bloxorz.constructor: pushes the initial node after the start scan returns. The source pushes it inside the scan, just before `break`, so the order of effects is the same.
- Solver.Bloxorz.Solve: requires a freshly loaded solver. Calling `solve` a second time continues from the left-over queue and `closed` set, and no behaviour is promised for that.
- The class-level `State.xSize` / `State.ySize` (`mycode.py:47-48`, `115-116`) are fields of the solver, passed explicitly to the key.
