# N-puzzle search core in Dafny

This project models the search engine of an N-puzzle solver (src/algo.ts) and the
pure helpers of its report printer (src/logger.ts).

The engine has two drivers over the same expansion step.

- `astar` is a best-first graph search. It uses a priority queue and a closed set of
  expanded grid ids.
- `idastar` is an iterative-deepening depth-first search. It uses an explicit stack and
  a per-iteration map from id to value. Its bound rises to the smallest value that the
  previous iteration rejected.

The expansion step works the same way in both drivers:

- it tries the moves in the order up, left, right, down;
- it drops a move that undoes the previous move, or one that would take the blank off
  the board;
- it swaps the blank on a copy of the parent grid;
- it builds the child node from the parent's path and level.

## Layout

- `wrappers.dfy` (`Wrappers`) holds `Option` and `Result`.
- `types.dfy` (`Types`) holds the grid, the moves, the three search styles and the node
  record of src/types.d.ts.
- `utils.dfy` (`Utils`) holds the helpers the engine imports:
  - the move tables `badMoves`, `wrongMove` and `switcher`;
  - `findEmptyBlock`, `initNode` and the node factory;
  - the `Queue` class.

  The utility module's own source is not part of this model. Each helper carries only
  the contract the engine relies on. Grid identity, the `total` the two node factories
  compute, and the value getters are parameters, held in the `Helpers` record.
- `expansion.dfy` (`Expansion`) holds:
  - the move filter and the successors of a node;
  - `Play`, which replays a path from the root;
  - the invariant `Reachable`: a node's grid, blank position, level, id, heuristic and
    total are what its path and the factories give.
- `algo.dfy` (`Algo`) holds the two drivers:
  - `Astar` and `IdaStar` do the set-up;
  - `BestFirst` and `Deepening` run the loops;
  - `Visit` is one turn of the `astar` loop and `Iteration` one bound of `idastar`;
  - smaller methods and lemmas cover one expansion each.
- `logger.dfy` (`Logger`) holds `parseTime`, `getMax`/`getMin` and `formatPath`/`colorMove`.
  `parseTime` and `formatPath` each have a reader that recovers what was printed;
  `getMax`/`getMin` are described by bounds and membership.

## Modelling decisions

- **Grids.** A grid is a value, `seq<seq<int>>`. The source copies the parent's rows and
  swaps the blank in the copy. Here `Switcher` returns a new grid value and leaves the
  parent's grid untouched.
- **Coordinates.** The blank's position `(x, y)` is read as `puzzle[x][y]`, so `x` is the
  row and `up` means row `x - 1`.
- **The queue.** `Queue` is a class whose contents are a `multiset` field. `Insert` adds
  the node. `Pop` removes some element. Its priority order is not modelled.
  - On an empty queue, `Pop` returns `None`. The source would then read the id of
    `undefined`; here `astar` reports `Failure(QueueEmpty)`.
  - `idastar` never pops an empty stack: an emptied stack ends the iteration. So
    `IdaStar` has no path that reports `QueueEmpty`, and its contract says so.
- **Fuel.** Both drivers loop until they pop the solved grid. Here each takes `fuel`, the
  most nodes it may pop, and returns `Failure(OutOfFuel)` when the fuel is spent.
- **Infinite bounds.** `nextMaxDepth` starts at JavaScript's `Infinity`. Bounds are the
  datatype `Bound = Finite(v) | Infinity`. `Within`, `AtMost` and `MinBound` model
  `<=` and `Math.min` against it.
- **Board size.** `config.size` is a parameter.

### Behaviour of the code worth noting

- **The goal pop.** `astar` checks for the goal before `nbStudiedNodes++`, so it counts
  only expansions; the goal pop is not counted, and an already-solved grid reports 0
  studied nodes. `Astar` states `nbStudiedNodes < |sizes|`: strictly fewer expansions
  than pops. `idastar` counts every pop, the goal pop included. `IdaStar` is proved to
  return `(root, 1, 1, 1)` on an already-solved grid.
- **Closed set, not dominance, in `astar`.** `astar` keeps only a set of expanded ids
  and skips any popped node whose id is already in it. Only `idastar` prunes by value.
  Its test is `studied[id] && studied[id] <= value`, so a stored value of 0 never
  prunes (see `Algo.DominatedMeaning`).
- **No "unsolvable" signal.** Neither driver reports an unsolvable puzzle:
  - `astar` would read the id of `undefined` on an empty queue;
  - `idastar` restarts with bound `Infinity` forever once nothing is rejected.

## Model

| member | source | states |
|---|---|---|
| Utils.BadMoveIsReversal | src/algo.ts:79 | a (last, next) pair is pruned exactly when the next move is the inverse of the last one; a root, with no last move, prunes nothing |
| Utils.WrongMove | src/algo.ts:80-81 | for a blank on the board, the move is refused exactly when it would put the blank outside the size-by-size board |
| Utils.Switcher | src/algo.ts:83-84 | the blank moves one step in the move's direction and is still on the board; the tile it lands on moves into the blank's old cell; every other cell keeps its value |
| Utils.SwitchBack | src/algo.ts:83-84 | the inverse move is allowed from the new position, and switching back restores the original grid and blank position exactly |
| Utils.FindEmptyBlock | src/algo.ts:35 | on a valid puzzle it gives an on-board position that holds the blank |
| Utils.InitNode | src/algo.ts:36-37 | the root node has an empty path at level 0, the input grid and blank, the grid's id, the given start heuristic, and the root total of that heuristic |
| Utils.CreateNode | src/algo.ts:87-92 | a created node holds the given grid and blank; its path is the previous path plus the move, one level deeper, with the grid's id and heuristic and the style's total for that level |
| Types.Max | src/algo.ts:49 | `Math.max` of two integers: at least both, and one of them |
| Types.Min | src/logger.ts:86 | `Math.min` of two integers: at most both, and one of them |
| Utils.Queue.constructor | src/algo.ts:39 | the queue starts holding exactly the first node |
| Utils.Queue.Insert | src/algo.ts:97 | the queue gains exactly the inserted node |
| Utils.Queue.Pop | src/algo.ts:51 | on a non-empty queue it removes one of its nodes and returns it; on an empty one it returns nothing and changes nothing |
| Expansion.KeepAllowed | src/algo.ts:78-81 | keeps exactly the candidate moves that are neither a reversal nor off the board, in candidate order |
| Expansion.LegalMoves | src/algo.ts:78-81 | a move is expanded if and only if it passes both filters; at most 4, in the order up, left, right, down |
| Expansion.Child | src/algo.ts:83-92 | the child's path is the parent's plus the move, one level deeper; the blank moves one step in the move's direction and stays on the board; the tile it lands on takes the blank's old cell, and the child's board is exactly the parent's after that one swap; id and heuristic are the grid's |
| Expansion.Successors | src/algo.ts:78-92 | one child per expanded move, in move order, at most 4 |
| Expansion.Root | src/algo.ts:35-37 | the root has an empty path, the input grid, and the blank where it is |
| Expansion.RootReachable | src/algo.ts:35-37 | the root satisfies the node invariant |
| Expansion.ChildReachable | src/algo.ts:83-92 | a child of a node satisfying the node invariant satisfies it too: replaying its path gives its grid and blank, the path has no reversal, the level is the path length, and id, heuristic and total come from the factories |
| Expansion.SuccessorsReachable | src/algo.ts:78-92 | every successor of a node satisfying the node invariant satisfies it |
| Expansion.SuccessorsShape | src/algo.ts:85-92 | each successor's path is the parent's path plus one allowed move, its level is one more, and successors come in move order |
| Expansion.ChildUndo | src/algo.ts:79 | the pruned reversal would lead straight back to the parent's grid and blank, so pruning it loses no state |
| Algo.MinBound | src/algo.ts:183 | `Math.min(nextMaxDepth, value)` with an infinite start: at most both arguments, and equal to one of them |
| Algo.PopReachable | src/algo.ts:51 | popping from a queue of reachable nodes gives a reachable node and leaves a queue of reachable nodes one smaller |
| Algo.CloseId | src/algo.ts:63-66 | closing a not-yet-closed id keeps the expanded ids distinct and all in the closed set |
| Algo.SamplePeak | src/algo.ts:49 | after `maxNumNodes = Math.max(allCurrentNodes, maxNumNodes)`, the peak is still the largest sample |
| Algo.BooksHold | src/algo.ts:42-66 | the loop's bookkeeping gives the reported facts: distinct expanded ids, none of them the solved one, studied <= pops <= created, the first sample is 1, and a peak between 1 and created that is one of the samples |
| Algo.BooksPop | src/algo.ts:49-52 | one sample and one pop keep the bookkeeping: `allCurrentNodes` tracks the queue size, and pops now outnumber expansions |
| Algo.BooksExpand | src/algo.ts:63-97 | expanding an unclosed id and queueing its k successors keeps the bookkeeping, with created, current and queue size all up by k |
| Algo.BooksVisit | src/algo.ts:49-97 | a turn that does not reach the goal keeps the bookkeeping: the pop is sampled, and an unclosed node joins the expanded ones with its successors queued and counted |
| Algo.Astar | src/algo.ts:27-100 | the returned node has the solved id and satisfies the node invariant from the root; expanded nodes satisfy it too, have distinct ids and are never the solved one; studied = expansions < pops <= created; the first sampled queue size is 1 and the peak is the largest sample; an already-solved grid gives `(root, 1, 0, 1)` |
| Algo.BestFirst | src/algo.ts:39-99 | the `astar` loop from the root, with the same guarantees |
| Algo.Visit | src/algo.ts:49-97 | one turn: the peak becomes `max(allCurrentNodes, maxNumNodes)`; an empty queue pops nothing; the goal or an already-closed id only leaves the queue (closed set and studied count unchanged); any other node closes its id, adds 1 to the studied count, and is replaced in the queue by its successors, with created and current counts up by their number |
| Algo.InsertSuccessors | src/algo.ts:78-98 | the queue gains exactly the successors; `createdNodes` and `allCurrentNodes` each grow by their number; a queue of reachable nodes stays so |
| Algo.InsertAll | src/algo.ts:94-97 | inserting each node in turn adds exactly those nodes and counts each once |
| Algo.DominatedMeaning | src/algo.ts:179-180 | an id not recorded, or recorded with 0, is never pruned; a node dominated at one value is dominated at every larger value |
| Algo.AdmittedMembers | src/algo.ts:177-184 | a successor survives exactly when it was generated, is within the bound, and is not dominated by `studied` |
| Algo.SelectSuccessors | src/algo.ts:158-185 | every successor is counted; the survivors are the admitted ones in generation order; the new `nextMaxDepth` is at most the old one and every rejected value, equals one of those, and stays above `maxDepth` |
| Algo.InsertDescending | src/algo.ts:186 | inserting into a descending list keeps it descending and adds exactly that node |
| Algo.SortByValueDescending | src/algo.ts:186 | the sort is a permutation of its input, in non-increasing value |
| Algo.LastIsSmallest | src/algo.ts:130 | the last of the sorted successors, which is popped next, has the smallest value |
| Algo.RecordedStep | src/algo.ts:146 | one more pop writes its value under its id in `studied` |
| Algo.RecordedLatest | src/algo.ts:146 | after a round of pops, each popped id maps to the value of its latest pop |
| Algo.RecordedKeys | src/algo.ts:146 | the keys of `studied` are exactly the ids popped in the current iteration |
| Algo.StackPop | src/algo.ts:130 | popping the stack gives a reachable node within the bound and leaves the rest so |
| Algo.StackPush | src/algo.ts:188 | pushing reachable nodes within the bound keeps the stack invariant |
| Algo.RisingExtend | src/algo.ts:190 | a new bound above the last one keeps the sequence of bounds rising |
| Algo.BoundedSuccessors | src/algo.ts:156-188 | the pushed nodes are a permutation of the admitted successors, sorted by descending value, each reachable, within the bound and not dominated; every successor is counted; the new `nextMaxDepth` is at most the old one and every rejected value, is the old one or a rejected successor's value, and stays above `maxDepth` |
| Algo.RejectStep | src/algo.ts:177-183 | lowering `nextMaxDepth` over one expansion keeps it the least value among all successors rejected so far in the iteration |
| Algo.JustifiedExtend | src/algo.ts:183-190 | a new bound that is the least rejected value of the last iteration is the value of a reachable node the previous bound cut off |
| Algo.IdaStar | src/algo.ts:102-192 | never reports an empty frontier; the first bound is the root's value; each later bound is strictly above the one before (or both are infinite) and is the value of a reachable node the bound before it rejected (or infinite); the returned node has the solved id, satisfies the node invariant, and is within the last bound; counters are at least 1 and the studied count, one per pop, is at most the fuel; an already-solved grid gives `(root, 1, 1, 1)` |
| Algo.Deepening | src/algo.ts:115-191 | the `idastar` outer loop from the root, with the same guarantees |
| Algo.Iteration | src/algo.ts:124-189 | one bound: the counters never decrease, and the studied count grows by exactly the number of pops, the goal pop included; a found node has the solved id, is reachable and within the bound; an emptied stack leaves `nextMaxDepth` above the bound and equal to the least value among the successors rejected by it (infinite when none was); the solved root is the first pop with the counters unchanged except one more studied node |
| Logger.NatToStringValue | src/logger.ts:100 | the printed decimal numeral of n has value n (and `NatToString` starts with '0' only for 0) |
| Logger.NumeralRead | src/logger.ts:102-104 | a printed natural number reads back as itself |
| Logger.IntToStringRead | src/logger.ts:100 | a printed integer, negative ones included, reads back as itself |
| Logger.ReadTimeMillis | src/logger.ts:100 | a string ending in "ms" is read as milliseconds |
| Logger.ReadTimeClock | src/logger.ts:103-104 | a string ending in "s" but not "ms" is read as minutes and seconds |
| Logger.ReadClockSeconds | src/logger.ts:104 | "Ys" is read as 0 minutes and Y seconds |
| Logger.ReadClockMinutes | src/logger.ts:104 | "Xm Ys" is read as X minutes and Y seconds |
| Logger.ParseTime | src/logger.ts:99-105 | every rendering ends in a unit "s", and the unit is "ms" exactly when the duration is below a second |
| Logger.ReadNatCanonical | src/logger.ts:100-104 | numbers are printed without padding: a string the reader accepts as a natural is exactly the printed numeral of its value |
| Logger.ReadIntCanonical | src/logger.ts:100 | a string the reader accepts as an integer is exactly the printed numeral of its value, so neither "05" nor "-0" is read |
| Logger.ParseTimeMillis | src/logger.ts:100 | below 1000 the duration is printed as its own unpadded value followed by "ms" |
| Logger.ParseTimeClock | src/logger.ts:101-104 | from 1000 on: the printed minutes * 60 + seconds equal the whole seconds, seconds < 60, and minutes (and an "m") are printed if and only if the duration is at least a minute |
| Logger.FoldMax | src/logger.ts:82 | the fold is at least the seed and every value, and is the seed or one of the values |
| Logger.FoldMin | src/logger.ts:86 | the fold is at most the seed and every value, and is the seed or one of the values |
| Logger.GetMax | src/logger.ts:81-83 | at least every value and equal to one of them; -Infinity for no values |
| Logger.GetMin | src/logger.ts:85-87 | at most every value and equal to one of them; Infinity for no values |
| Logger.ColorMove | src/logger.ts:111-122 | each move's token is non-empty and holds no space |
| Logger.ReadColorMove | src/logger.ts:111-122 | the four tokens differ, so each token names its move |
| Logger.SplitJoin | src/logger.ts:108 | joining space-free tokens with single spaces and cutting at the spaces gives the tokens back |
| Logger.ReadAll | src/logger.ts:108 | reading the coloured tokens of a path gives the path |
| Logger.FormatPath | src/logger.ts:107-109 | only the empty path prints as nothing, and a non-empty one starts with its first move's arrow |
| Logger.FormatPathRoundTrip | src/logger.ts:107-109 | `formatPath` gives one token per move, in path order, each the move's coloured arrow, and reading it back gives the path |

## Left out

- The utility module's own code (src/utils.ts) is not part of this model. The engine's
  use of it is modelled through contracts:
  - grid identity, the root's and the factories' `total`, and the value getters are
    arbitrary functions held in `Helpers`;
  - the heuristic is an arbitrary `Grid -> nat` function;
  - `Queue`'s priority order is not modelled, so `Pop` may return any element.
- Utils.Queue.Pop: does not state which node comes out (lowest `total`, tie-break),
  because the ordering code is not part of this model.
- Algo.Astar: does not state termination, optimality of the path, or that the goal is
  ever reached, because the loop is bounded by fuel. The same holds for Algo.IdaStar.
- Algo.IdaStar: does not relate `nbStudiedNodes` to `createdNodes`. The root is popped
  again in every iteration without being created again.
- Algo.Iteration: the rejected successors over which `nextMaxDepth` is the least value
  are a ghost set that the method builds. The real result is pinned to the value of a
  reachable node beyond the bound, but a caller cannot name that set.
- Logger.GetMax: `number[]` is modelled as `seq<int>`. Non-integer values and `NaN`
  (which makes `Math.max` give `NaN`) are not modelled.
- Logger.GetMin: the same as Logger.GetMax: integers only, no `NaN`.
- Algo.SortByValueDescending: does not state that the sort is stable for equal values.
- Grid aliasing is not modelled. Copy-then-swap is a function on grid values, so the
  parent's grid is untouched by construction and no array is shared.
- `parseTime` on a fractional number of milliseconds is not modelled; durations are
  integers. JavaScript's printing of non-integers and of exponent forms is left out too.
- Floating point in `getAvg` and `getStandardDeviation` (src/logger.ts:77-79, 89-93)
  is left out.
- Terminal output in src/logger.ts is left out: `logBench`, `logs`, `logOnce`, `logPuzzle`,
  `formatNode`, `formatMsValue` and `formatNodesNumber`. None of it feeds back into the
  search.
- The command-line configuration in src/config.ts is left out. The board size and the
  search style are parameters.
