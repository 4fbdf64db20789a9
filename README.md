# ms_solve: a verified model of the minesweeper consistency solver

ms_solve decides whether a partly revealed minesweeper board can be
completed. It can also count the ways it can be completed.

- **The board.** It is a grid of character codes:
  - a digit `'0'`..`'8'` is a numbered tile;
  - `'?'` is an unknown cell;
  - `'*'` is a mine;
  - `'-'` is a cell known to hold no mine.
  
  The parser surrounds the board with a ring of `'-'` cells, so every neighbour of an interior cell can be read without a bounds check.
- **Preprocessing** (`preprocess_grid`). The solver may first pre-resolve the board. Pre-resolution repeatedly fills in the unknowns around every saturated numbered tile (`resolve_tile`, `preresolve_grid`). It then:
  - lowers the mine target by the mines already on the board;
  - lists the unknown cells row by row, ending the list with a `(-1, -1)` sentinel (`find_unknowns`);
  - optionally sorts the list so that cells next to more numbered tiles come first (`sort_unknowns`, `comp_tiles`).
- **The search** (`solve_tree`). It is a backtracking search over that list:
  - each cell is tried off, then on;
  - after each choice, only the numbered tiles around the changed cell are checked (`consistency_check`);
  - before the on branch, the later cells are reset to unknown (`clear_unknowns`);
  - a complete assignment counts as a goal state when the mine target is met;
  - in single-solution mode the search stops at the first goal.

The model is a set of Dafny modules:

- `Board`: cell codes, grids as `seq<seq<int>>`, the 3x3 block around a cell, and counting inside a block.
- `Consistency`: `consistency_check` as a function. It also defines what it means for a grid to only decide unknowns of another (`Extends`).
- `Propagation`: the specification of `resolve_tile`'s block scan and of its outcome around the tile.
- `Scan`: the row-major list of unknown cells and the mines counted row by row.
- `Sorting`: the `sort_tile` record, `comp_tiles`, and an in-place sort by it.
- `SearchSpec`: an independent reference count of goal states (`Goals`), which enumerates every off/on assignment of the listed cells, and the lemmas tying the search to it.
- `Solver`: the class `Solver`. Its fields are the program's globals (`grid` as `array2<int>`, `ind` as `array<Pos>`, `totalUnknowns`, `mineTarget`, and the `single`, `preresolve` and `sort` options). The imperative functions are methods that update them in place.
- `Threads`: `thread_find`.
- `PreresolveExample`: the board `1?0`, on which pre-resolution changes the goal count.

The main result is about `solve_tree` on the path that never forks. `Solver.Solver.SolveTree` returns exactly the reference count of goal states below decision `k`. That count is capped at 1 in single-solution mode. The search also leaves every cell outside the decisions from `k` on as it found it. The proof rests on these lemmas:

- `SearchSpec.Locality`: checking only the block around the changed cell neither loses nor adds goals.
- `SearchSpec.ClearRestores`: `clear_unknowns` brings back exactly the grid the off branch started from.
- `SearchSpec.PastTarget`: a count past a set target yields nothing.

The search's precondition `mineTarget >= 0 ==> mineCount <= mineTarget` is re-established at every recursive call. So the number of mines placed never exceeds a set target.

`solve_tree` is one C function, but the model splits it into five methods:

- `SolveTree`: the decision at index `k` and the early return at ms_solve.c:509-510.
- `TurnOff`: the off half.
- `TurnOn`: the on half.
- `ResetForOn`: `clear_unknowns` followed by the write of `MINE_ON`.
- `Descend`: the block shared by both halves. It checks consistency, then recurses or counts a goal.

The methods call each other recursively, as the C function calls itself.

Three behaviours of the code are modelled as written:

- **A mine target one below the mines already on the board.** `preprocess_grid` subtracts the mines already on the board from a set target. When those mines exceed the target by exactly one, the target becomes -1. That is the value meaning "no target", so the search counts every completion instead of none. `Solver.Solver.PreprocessGrid` states this arithmetic, and the reference count behind `Solver.Solver.Solve` reads -1 as no target.
- **A board with no unknown cells.** `main` counts it as one goal state. It does not look at the target or at the numbered tiles (ms_solve.c:188-194). `Solver.Solver.Solve` states this.
- **Pre-resolution can change the goal count.** A pre-resolved board can end with no unknown cell, and the rule above then counts it as one goal state, even where the search over the original board finds none. The board `1?0` shows it. The `1` needs the unknown to be a mine and the `0` needs it not to be, so the search alone counts 0 (`PreresolveExample.SearchAlone`). With `-r`, `resolve_tile` on the `1` turns the unknown on and leaves no unknown behind, so the count is 1 (`PreresolveExample.PreresolveFirst`).

The reference count checks exactly the numbered tiles next to some listed cell, as the search does. So a numbered tile with no unknown neighbour is never checked, even when it is already wrong.

## Model

| member | source | states |
|---|---|---|
| Board.MarksAreNotNumbers | ms_solve.c:14-17 | with TILE_ADJUST applied, the unknown, mine-on and mine-off codes fall outside 0..8, so the test at ms_solve.c:560-561 never takes them for numbered tiles (Board.IsNumber) |
| Board.NumberIsInterior | ms_solve.c:764-773 | on a board with the parser's ring of mine-off cells (Board.Bordered), a numbered tile is an interior cell, so its 3x3 block is in range |
| Consistency.ConsistencyCheck | ms_solve.c:548-588 | true exactly when every numbered tile in the 3x3 block around the cell has M <= N <= M + Q, with M and Q its mines and unknowns; reads stay in range on a bordered grid |
| Consistency.CheckFrom | ms_solve.c:556-587 | the scan from the k-th cell of the block on is true exactly when no tile from there on violates the bound (it stops at the first violation) |
| Sorting.CompTiles | ms_solve.c:312-324 | negative exactly when a has more numbered neighbours, positive exactly when fewer, zero otherwise, and always in -1..1 |
| Sorting.CompTilesPreorder | ms_solve.c:312-324 | the comparator is antisymmetric and transitive, as qsort requires |
| Sorting.SortTiles | ms_solve.c:352-354 | the scratch array ends sorted by the comparator and is a permutation of what it held |
| Sorting.SortedCells | ms_solve.c:326-359 | records sorted by the comparator list their cells in non-increasing order of numbered neighbours |
| Sorting.LabelledPermuted | ms_solve.c:352-354 | reordering the records keeps every cell paired with its own count |
| Sorting.IndexesPermuted | ms_solve.c:352-358 | permuting the records permutes the cells copied back the same way |
| Solver.Solver.SortUnknowns | ms_solve.c:328-359 | the unknown list afterwards is a permutation of the list before and is ordered most-constrained first |
| Solver.Solver.LabelTiles | ms_solve.c:335-350 | one record per listed cell, in list order, carrying the number of numbered tiles around that cell |
| Solver.Solver.CountNumbers | ms_solve.c:338-349 | the count equals the number of numbered tiles in the block around the cell |
| Solver.Solver.CopyBack | ms_solve.c:357-358 | the list prefix becomes the sorted cells and the entries past it, the sentinel included, are untouched |
| Solver.Solver.FindUnknowns | ms_solve.c:293-309 | ind[0..n) is the row-major list of unknown interior cells, ind[n] is the sentinel and n is the number of unknown cells |
| Solver.Solver.FindInRow | ms_solve.c:297-305 | one pass of the inner loop appends exactly row i's unknown cells, left to right |
| Scan.ScanIsUnknownSet | ms_solve.c:293-309 | a cell is in the scan exactly when it is in range and unknown, and the scan is in row-major order |
| Scan.RowsUnknownsSpec | ms_solve.c:296-305 | the rows scanned so far list exactly their unknown interior cells, in row-major order |
| Scan.RowMajorIsDistinct | ms_solve.c:293-309 | a row-major list names no cell twice |
| Scan.ScanCountsUnknowns | ms_solve.c:293-309 | the scan is as long as the set of unknown cells |
| Scan.ScanFitsAll | ms_solve.c:628-629 | the list and its sentinel fit the ntiles + 1 entries allocated for ind |
| Solver.Solver.ResolveTile | ms_solve.c:223-277 | decides only unknown cells, returns how many it decided, leaves the grid unchanged when the tile is not numbered or not saturated, and otherwise sets every unknown of the block to the forced value and leaves the tile exactly satisfied; terminates because the unknown count drops before every recursive call |
| Solver.Solver.CollectAround | ms_solve.c:236-247 | the counts equal the unknowns and mines of the block and the recorded cells are the block's unknowns in scan order |
| Solver.Solver.CollectRow | ms_solve.c:237-247 | one row of the block scan extends the counts and the record by that row's cells |
| Solver.Solver.CollectCell | ms_solve.c:239-246 | one cell of the block scan: an unknown is recorded and counted, a mine is counted, anything else is skipped |
| Propagation.ScanCell | ms_solve.c:239-246 | the specification of that step on the block counts and the record, case by case |
| Propagation.UnknownsFirstSpec | ms_solve.c:236-247 | the recorded cells are exactly the unknown cells of the block scanned so far, in row-major order |
| Solver.Solver.DecideAll | ms_solve.c:264-265 | every recorded cell gets the forced value, nothing else changes, and the unknown count drops by the number recorded |
| Board.DecideShrinks | ms_solve.c:261-265 | deciding one unknown removes exactly that cell from the unknown set |
| Solver.Solver.ResolveAround | ms_solve.c:267-274 | re-running resolve_tile around every decided cell only decides unknowns and returns how many |
| Propagation.DecidedBlock | ms_solve.c:249-276 | after the writes and the recursive calls, every unknown of the tile's block holds the forced value and the tile has exactly N mines and no unknowns around it |
| Propagation.ForcedIsExact | ms_solve.c:249-265 | a saturated tile whose unknowns all get the forced value ends with exactly N mines and no unknowns around it |
| Propagation.ForcedCounts | ms_solve.c:264-265 | forcing the block's unknowns to one value moves them all to the mine count (on) or removes them (off) |
| Solver.Solver.PreresolveGrid | ms_solve.c:281-290 | the grid only gains decisions and the result is the number of unknowns decided |
| PreresolveExample.ExampleScan | ms_solve.c:293-309 | the board `1?0` lists one unknown cell, the middle one |
| PreresolveExample.NoGoalWithoutPreresolve | ms_solve.c:434-536 | on the board `1?0` the reference count is 0: off breaks the `1`, on breaks the `0` |
| PreresolveExample.SearchAlone | ms_solve.c:176-194 | preprocessing without pre-resolution, then the search, counts no goal state on the board `1?0` |
| PreresolveExample.PreresolveFirst | ms_solve.c:176-194 | pre-resolving the board `1?0` tile by tile, as preresolve_grid does (ms_solve.c:281-290), leaves no unknown, and main then counts one goal state |
| Solver.Solver.AdjustTarget | ms_solve.c:384-391 | the target drops by the number of mines on the interior, which is the number of interior mine-on cells |
| Scan.MinesOnBoardCount | ms_solve.c:384-391 | the row-by-row mine count of that loop is the size of the set of interior mine-on cells |
| Solver.Solver.AdjustRow | ms_solve.c:388-390 | one row of that loop lowers the target by the mines in the row |
| Solver.Solver.ListUnknowns | ms_solve.c:393-398 | the list holds exactly the unknowns, in row-major order without sort and as a most-constrained-first permutation of it with sort |
| Solver.Solver.PreprocessGrid | ms_solve.c:369-399 | pre-resolves only when asked, lowers a set target (and only a set one) by the mines on the board, and leaves the list holding exactly the unknown cells, sorted when asked |
| SearchSpec.ScanIsDecisions | ms_solve.c:393-394 | the row-major scan is a list of distinct interior cells holding exactly the board's unknowns |
| SearchSpec.DecisionsPermuted | ms_solve.c:396-398 | sorting the list keeps it a list of distinct interior cells holding exactly the unknowns |
| Solver.Solver.ClearUnknowns | ms_solve.c:590-595 | every cell listed from index i on becomes unknown and every other cell is unchanged |
| Solver.Solver.SetCell | ms_solve.c:443 | one grid write on an interior cell, keeping the ring |
| Solver.Solver.Solve | ms_solve.c:176-194 | with unknowns, the count is the reference count from the first decision with no mines placed, capped at 1 in single mode; with none, the count is 1 and the grid is untouched |
| Solver.Solver.SolveTree | ms_solve.c:434-536 | returns the reference count of goal states below decision k (capped at 1 in single mode), and changes no cell outside the decisions from k on |
| Solver.Solver.TurnOff | ms_solve.c:442-504 | with decision k off, returns the count of that branch and changes no cell outside decisions k+1.. |
| Solver.Solver.TurnOn | ms_solve.c:512-533 | with decision k on and one more mine, returns the count of that branch and changes no cell outside decisions k+1.. |
| Solver.Solver.ResetForOn | ms_solve.c:513-514 | after clearing the later decisions and writing the mine, the grid is the entry grid with only decision k set on |
| Solver.Solver.Descend | ms_solve.c:444-503 | checks the block around decision k, then searches the rest, counts one goal at the last decision when the target is met, or counts nothing |
| SearchSpec.TreeCount | ms_solve.c:506-510 | the reference count splits into the off branch alone (when single mode already has a goal, or the target is reached) or the sum of both branches; capping each branch at 1 in single mode and stopping after a goal gives the capped sum |
| SearchSpec.BranchIsGoals | ms_solve.c:444-503 | the branch's count equals the reference count below the decision: a consistent decision below the target with cells left hands the count to the next decision, and otherwise the branch counts one goal exactly at a consistent last decision meeting the target |
| SearchSpec.PastTarget | ms_solve.c:499-503 | with a set target already exceeded, no completion is a goal |
| SearchSpec.Locality | ms_solve.c:538-541 | counting completions exact around decisions k.. equals checking decision k once and counting those exact around k+1.. (pruning loses and adds no goal) |
| SearchSpec.LocalityLeaf | ms_solve.c:542-546 | at a full assignment, exactness around decisions k.. holds exactly when the check at k passes and exactness holds around k+1.. |
| SearchSpec.ExactPassesCheck | ms_solve.c:542-546 | a block whose tiles are exact in a completion passes the check on the partial grid |
| SearchSpec.CheckedIsExact | ms_solve.c:542-546 | a passed check, with no unknown left around the block, makes its tiles exact |
| SearchSpec.ClearRestores | ms_solve.c:513 | clearing the later decisions restores exactly the grid the off branch started from |
| SearchSpec.AnchorAfterDecide | ms_solve.c:443 | writing decision k leaves decisions k+1.. as exactly the grid's unknowns |
| SearchSpec.SameOutsideStep | ms_solve.c:443 | writing decision k and then only later decisions changes only decisions k.. |
| Threads.ThreadFind | ms_solve.c:645-656 | the lowest available slot, or the corruption outcome exactly when no slot is available |

## Left out

- The fork branch of solve_tree (ms_solve.c:454-482), solve_tree_thr (ms_solve.c:403-426) and the pthread machinery are left out because they are concurrency. This covers the mutex and condition variable, thread_alloc, thread_struct_alloc, thread_copy and thread_free. With the default single thread, parse_input takes the only slot (ms_solve.c:742), so the fork test is never true. The model is that path.
- The fork test (ms_solve.c:455-456) and the completion-signal test (ms_solve.c:421) are left out: they only steer the thread hand-off above.
- Threads.ThreadFind: the `Corrupted` outcome stands for the error message and `exit (1)`, which are I/O.
- main's option parsing, help, the print levels, printf and board_print are left out because they are I/O. The options are constructor parameters.
- The gettimeofday timing is left out because it is a clock and floating point.
- parse_input is left out because it is file I/O. The constructor takes the board as the parser leaves it, ring included. Rows missing from a short file, which the C code leaves uninitialised, are not modelled.
- Sorting.SortTiles: qsort is replaced by an insertion sort. Its contract states only what qsort promises, sorted by the comparator and a permutation. The order among equal counts is not specified, since qsort is not stable.
- Solver.Solver.ResolveTile: states the outcome around the tile itself and the count of decided cells. It does not state which further cells its recursive calls decide.
- Solver.Solver.PreresolveGrid: states that only unknowns are decided and how many. It does not state which cells end up decided. Pre-resolution does not keep the goal count in general (see the board `1?0` above), so no such property is stated.
- Solver.Solver.ClearUnknowns: ms_solve.c:594 reads `i` and increments it in one unsequenced expression, which is undefined behaviour in C. The model takes the evident reading: the row and the column of the same entry `ind[i]`, then `i` moves on by one.
- Solver.Solver.SolveTree: states that cells outside decisions k.. are unchanged. It does not state which values the search leaves in decisions k..; the callers clear those cells before they read them again.
- Solver.Solver.TurnOff: as for SolveTree, the values it leaves in decisions k+1.. are not stated.
- Solver.Solver.TurnOn: as for SolveTree, the values it leaves in decisions k+1.. are not stated.
- Solver.Solver.Descend: as for SolveTree, the values it leaves in decisions k+1.. are not stated.
- Solver.Solver.Solve: as for SolveTree, the values the search leaves in the listed cells are not stated.
- C `int` overflow of the counters and of `nrows * ncols` is not modelled: integers are unbounded.
- The recursion depth of solve_tree and resolve_tile (stack use) is not modelled.
