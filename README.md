# Sudoku backtracking solver, modelled in Dafny

This project models the class `Sudoku` of `sudoku_solver.py`, a backtracking solver for 9x9 Sudoku grids.

**Construction.** Building a solver:
- checks that the grid has 9 rows of 9 cells;
- starts one candidate set per row, column and 3x3 block at {1..9};
- scans the grid row by row. Each empty cell (0) goes to the end of a worklist of `(row, col, block)` triples. Each given is removed from the three candidate sets of its cell.

A given that is not there to remove means a repeated digit or a value outside 1..9, and the grid is rejected as unsolvable.

**Search.** `_solve` picks the worklist entry with the fewest candidates (the first one on ties). For each candidate it:
1. writes the candidate (`_set_cell`);
2. records a copy of the grid when the worklist is empty;
3. recurses;
4. undoes the write (`_clear_cell`).

Single-solution mode is the default, as in the source (`onlyOne: bool := true`). In that mode the first solution stops everything and stays on the grid. `solve` fails when nothing was recorded. In all-solutions mode no grid is recorded twice.

**Files.**
- `grid.dfy` (module `Grid`): the geometry and the validity of a grid.
  - Units are rows, columns and blocks, read as 9-cell sequences.
  - It defines the candidate set of a unit, consistency and solvedness, and the row-major prefix the construction scan has seen.
- `state.dfy` (module `SearchState`): the solver's state as a value.
  - The state is the grid, three candidate families and the worklist.
  - `_set_cell`/`_clear_cell` are the transformers `Assign`/`Unassign`.
  - `list.remove` is `RemoveFirst`.
  - It holds the invariant the class keeps and the lemmas about it.
- `solver.dfy` (module `Solver`): the class `Sudoku`.
  - Its fields are updated in place by methods that mirror the source's.
  - Each method's contract ties the new state to the `SearchState` functions.
  - The helper methods `CheckShape`, `InitCandidates`, `ScanGrid`/`ScanRow`/`ScanCell`, `TryEach`/`TryCandidate`/`Descend`/`Ascend`/`RecordIfFilled`/`Backtrack` each carry one loop or one step of the source's `__init__` and `_solve`.

**Errors.** The source raises `ValueError('Invalid grid.')` and `ValueError('Unsolvable Sudoku.')`. The model returns them as the `Result` values `Failure(InvalidGrid)` and `Failure(UnsolvableSudoku)`.

## Model

| member | source | states |
|---|---|---|
| Grid.PosToBlock | sudoku_solver.py:48-50 | the block id of a board cell lies in 0..8; its block row is i/3 and its block column is j/3 |
| Grid.PlaceConsistent | sudoku_solver.py:57-60 | writing a digit into an empty cell of a consistent grid keeps it consistent exactly when the digit is a candidate of the cell's row, column and block |
| Grid.PlaceMissing | sudoku_solver.py:52-55 | writing an allowed digit removes it from the candidate sets of exactly the row, column and block holding the cell, and changes no other unit's set |
| Grid.ClearConsistent | sudoku_solver.py:63-65 | emptying a filled cell of a consistent grid keeps it consistent |
| Grid.ClearMissing | sudoku_solver.py:63-68 | emptying a filled cell gives its digit back to exactly the row, column and block holding the cell |
| Grid.CompleteConsistentIsSolved | sudoku_solver.py:87-88 | a consistent grid without a 0 has every row, column and block a permutation of 1..9 |
| Grid.PlaceExtends | sudoku_solver.py:57-59 | writing into an empty cell keeps every given of the original grid |
| Grid.DistinctDigitsArePermutation | sudoku_solver.py:87-88 | nine pairwise distinct digits of 1..9 are all nine digits |
| Grid.PrefixNone | sudoku_solver.py:33-36 | before the scan every candidate set is the full {1..9}, which is exact for a grid with nothing placed |
| Grid.PrefixStep | sudoku_solver.py:38-46 | scanning one more cell row-major writes that cell's value into an empty cell of the grid seen so far |
| SearchState.RemoveFirst | sudoku_solver.py:61 | Python's `list.remove` of an entry the list holds; the result is one entry shorter (`RemoveFirstSplit` and `RemoveFirstMultiset` say which entry goes) |
| SearchState.ZerosBefore | sudoku_solver.py:38-41 | the empty cells among the first n cells in row-major order, in that order; `ZerosBeforeEntries`, `ZerosBeforeOrdered` and `ZerosBeforeCovers` state what it holds |
| SearchState.EmptyCells | sudoku_solver.py:38-41 | the worklist the scan builds from a whole grid; `EmptyCellsExact` states what it holds |
| SearchState.Options | sudoku_solver.py:75 | the intersection of a worklist entry's row, column and block sets; `OptionsAllowed`, `OptionsAreLegalMoves` and `OptionsAtMostNine` state what it holds |
| SearchState.Assign | sudoku_solver.py:57-61 | the state `_set_cell` leaves: the digit written, taken out of the cell's three sets, and the entry removed from the worklist; `AssignKeepsInvariant` and `UnassignUndoesAssign` state its properties and `Sudoku.SetCell` is proved to produce it |
| SearchState.Unassign | sudoku_solver.py:63-69 | the state `_clear_cell` leaves: the cell emptied, the digit given back to its three sets, and the entry appended to the worklist; `UnassignKeepsInvariant` and `UnassignUndoesAssign` state its properties and `Sudoku.ClearCell` is proved to produce it |
| SearchState.RemoveFirstMultiset | sudoku_solver.py:61 | `list.remove` takes exactly one copy of the entry out of the worklist |
| SearchState.RemoveFirstSplit | sudoku_solver.py:61 | `list.remove` cuts the list at the first occurrence and keeps the order of the rest |
| SearchState.EmptyCellsExact | sudoku_solver.py:38-41 | the worklist built by the scan lists every empty cell exactly once and nothing else, in strictly increasing row-major order |
| SearchState.ZerosBeforeEntries | sudoku_solver.py:38-41 | each cell the scan has appended is a board cell holding 0 that the scan has already passed |
| SearchState.ZerosBeforeOrdered | sudoku_solver.py:38-41 | the appended cells are in strictly increasing row-major order |
| SearchState.ZerosBeforeCovers | sudoku_solver.py:38-41 | every empty cell the scan has passed has been appended |
| SearchState.CompleteHasNoZeros | sudoku_solver.py:38-41 | a grid without an empty cell gives an empty worklist |
| SearchState.ScanStart | sudoku_solver.py:33-36 | the full candidate sets, an empty worklist and a consistent empty prefix are where the scan starts |
| SearchState.ScanEmpty | sudoku_solver.py:40-41 | an empty cell leaves the grid seen so far unchanged and joins the end of the worklist |
| SearchState.ScanGiven | sudoku_solver.py:42-46 | when the three candidate sets of a given's cell all hold it, removing it keeps the sets exact for the larger prefix; when one lacks it, the input is inconsistent |
| SearchState.CandidatesAllowed | sudoku_solver.py:43-46 | with exact candidate sets, a digit is allowed at a cell exactly when the row, column and block sets all hold it, so a `KeyError` means a conflict |
| SearchState.ScanEnd | sudoku_solver.py:38-46 | after all 81 cells the input grid is consistent, the candidate sets are exact for it and the worklist is the list of its empty cells |
| SearchState.FillMatches | sudoku_solver.py:52-55 | removing an allowed digit from the cell's three candidate sets keeps every set equal to the digits its unit misses |
| SearchState.ClearMatches | sudoku_solver.py:63-68 | adding the cleared digit back to the cell's three sets keeps every set equal to the digits its unit misses |
| SearchState.OptionsAllowed | sudoku_solver.py:75 | the intersection of a cell's three candidate sets is exactly the digits its row, column and block allow |
| SearchState.OptionsAreLegalMoves | sudoku_solver.py:75 | a digit is in that intersection exactly when writing it into the worklist cell keeps the grid consistent |
| SearchState.OptionsAtMostNine | sudoku_solver.py:72-78 | no intersection has more than nine digits, so the start value 10 is beaten by the first worklist entry |
| SearchState.RemoveKeepsWorklist | sudoku_solver.py:61 | removing the filled cell's entry keeps the worklist exactly the empty cells, each once |
| SearchState.RemoveKeepsDistinct | sudoku_solver.py:61 | after the removal the entry is gone and no cell is listed twice |
| SearchState.AssignKeepsInvariant | sudoku_solver.py:57-61 | `_set_cell` with one of the cell's options keeps the grid consistent, the candidate sets exact and the worklist exact, and shortens the worklist by one |
| SearchState.UnassignKeepsInvariant | sudoku_solver.py:63-69 | `_clear_cell` of a filled cell keeps the grid consistent, the candidate sets exact and the worklist exact |
| SearchState.AppendKeepsWorklist | sudoku_solver.py:69 | appending the emptied cell keeps the worklist exactly the empty cells, each once |
| SearchState.UnassignUndoesAssign | sudoku_solver.py:86-94 | `_clear_cell(pos, v)` after `_set_cell(pos, v)`, with any restoring search in between, gives back the grid and candidate sets, and the worklist up to order |
| SearchState.AssignRespectsRestored | sudoku_solver.py:85-86 | writing the same candidate in states that agree up to worklist order gives states that agree up to worklist order |
| SearchState.RestoredSameLength | sudoku_solver.py:81-94 | states that agree up to worklist order have worklists of equal length, so the recursion's measure is kept |
| SearchState.EmptyWorklistSolved | sudoku_solver.py:87-88 | under the invariant an empty worklist means a complete, solved grid |
| Solver.KeepThroughPlace | sudoku_solver.py:86-91 | the grids a search records after writing c into an empty cell keep the grid from before the write and hold c in that cell |
| Solver.TurnKeeps | sudoku_solver.py:85-91 | the grids recorded during the turn for candidate c keep the turn's starting grid and hold c at the chosen cell |
| Solver.TurnJoin | sudoku_solver.py:85-94 | a turn's grids hold its candidate at the chosen cell and earlier turns' grids hold other candidates there, so after the turn no grid has been recorded twice |
| Solver.FewestDone | sudoku_solver.py:71-79 | after the scan, nothing was chosen exactly when every entry has 10 or more options; otherwise the chosen entry has the fewest options and no earlier entry has as few |
| Solver.FewestStep | sudoku_solver.py:76-78 | the strict `<` update keeps "first entry with the fewest options so far" |
| Solver.Sudoku.Init | sudoku_solver.py:18-25 | the new object holds the grid and the mode, no solutions, and empty candidate families and worklist, which `Create` then fills in |
| Solver.Sudoku.Create | sudoku_solver.py:18-46 | a grid that is not 9 by 9 fails with InvalidGrid; a 9x9 grid fails with UnsolvableSudoku exactly when it is inconsistent; otherwise the new solver holds the grid, no solutions, exact candidate sets and the worklist of the grid's empty cells |
| Solver.Sudoku.CheckShape | sudoku_solver.py:27-31 | the shape check passes exactly when the grid has 9 rows of 9 cells |
| Solver.Sudoku.InitCandidates | sudoku_solver.py:33-36 | the three families are nine copies of {1..9} each |
| Solver.Sudoku.ScanGrid | sudoku_solver.py:38-46 | the scan succeeds exactly when the grid is consistent, and then leaves exact candidate sets and the row-major worklist of empty cells |
| Solver.Sudoku.ScanRow | sudoku_solver.py:39-46 | scanning row i extends the scanned prefix by nine cells, or reports an inconsistent grid |
| Solver.Sudoku.ScanCell | sudoku_solver.py:40-46 | one cell of the scan extends the scanned prefix by one, or reports an inconsistent grid |
| Solver.Sudoku.DeleteCandidate | sudoku_solver.py:52-55 | the removal succeeds exactly when the row, column and block sets all hold the digit, and then takes it out of exactly those three sets |
| Solver.Sudoku.SetCell | sudoku_solver.py:57-61 | the new state is `Assign` of the old one; the invariant holds and the worklist is one shorter |
| Solver.Sudoku.ClearCell | sudoku_solver.py:63-69 | the new state is `Unassign` of the old one, and the invariant holds |
| Solver.Sudoku.FindBestCell | sudoku_solver.py:71-79 | returns nothing exactly when no entry has fewer than 10 options; otherwise returns the first worklist entry with the fewest options, paired with exactly its options |
| Solver.Sudoku.Search | sudoku_solver.py:81-94 | every recorded grid solves the givens and keeps every filled cell of the grid the search started from; no grid is recorded twice; solutions are only appended; an empty worklist returns at once; in all-solutions mode, or when nothing was found, the grid and candidate sets come back unchanged and the worklist up to order; a single-mode success adds one solution and leaves it on the grid |
| Solver.Sudoku.TryEach | sudoku_solver.py:85-94 | the loop over the chosen cell's options keeps the same guarantees as the search; each turn's grids hold that turn's candidate at the chosen cell, so grids of different turns differ |
| Solver.Sudoku.TryCandidate | sudoku_solver.py:86-94 | one turn either stops with a single-mode solution on the grid, or returns to the state before the turn up to worklist order; every grid it records keeps the turn's starting grid, holds the candidate at the chosen cell, and is recorded once |
| Solver.Sudoku.Descend | sudoku_solver.py:86-90 | writing the candidate gives `Assign` of the turn's starting state; the solutions grow by exactly the grid when the worklist became empty and are unchanged otherwise; it stops exactly when single mode recorded a grid |
| Solver.Sudoku.Ascend | sudoku_solver.py:91-94 | the recursive search then, unless a single wanted solution was found, `_clear_cell` back to the turn's starting state; the grids it records keep the grid it started from, none twice, and none when the worklist was already empty |
| Solver.Sudoku.RecordIfFilled | sudoku_solver.py:87-88 | appends the grid exactly when the worklist is empty, and only a solution of the givens |
| Solver.Sudoku.Backtrack | sudoku_solver.py:94 | `_clear_cell` at the end of a turn restores the turn's starting state up to worklist order |
| Solver.Sudoku.Solve | sudoku_solver.py:96-103 | fails with UnsolvableSudoku exactly when no solution was recorded; otherwise returns the first solution in single mode and all of them otherwise; the grids one call records are pairwise different; on an already complete grid it records nothing |
| Solver.Sudoku.SolveFixed | sudoku_solver.py:96-103 | as Solve (including pairwise different recorded grids), except that an already complete grid with no recorded solution is recorded as its own solution |
| Solver.SolveGrid | sudoku_solver.py:18-103 | construct-then-solve with the corrected `solve`: InvalidGrid exactly for a badly shaped grid; UnsolvableSudoku for repeated givens; every returned grid solves the input; all-solutions mode returns pairwise different grids; a complete valid grid is returned as its own solution |
| Solver.SolveGridAsWritten | sudoku_solver.py:81-99 | construct-then-solve as written: the same errors, soundness and distinctness, but a complete valid grid is reported UnsolvableSudoku |

## Left out

- Completeness of the search is not proved: the model does not show that every solution is found, or that a solvable grid is never reported unsolvable. Only soundness, the invariants and the set/clear symmetry are proved.
- Python set iteration order in `for candidate in candidates` is modelled as an arbitrary choice (`:|`) of a not yet tried candidate. Any order is covered.
- `copy.deepcopy` of the grid is a snapshot of the `seq<seq<int>>` value. Aliasing is left out: the source mutates the caller's list in place, while the model's grid is a value field.
- `list.remove` and `list.append` on the worklist are modelled exactly (`RemoveFirst`, `+ [p]`). After a set/clear pair the worklist is equal only up to order, which the model states with multisets.
- The `KeyError` raised part-way through `_delete_candidate` is modelled by checking all three sets before removing from any. Any partial removal is lost because the object is discarded.
- A grid whose cells are not integers, and rows that are not lists, are outside the model. The grid is `seq<seq<int>>`.
- Calling `solve` twice on one object is allowed. In all-solutions mode the second call appends every solution again, so the list then repeats grids; distinctness is stated for the grids one call records. In single-solution mode the first success leaves the worklist empty, so a second call records nothing and returns the same first solution.
- The source's `_find_best_cell` returning `None` (and the unpacking `TypeError` that would follow) cannot happen on a non-empty worklist. `OptionsAtMostNine` proves this, and `Search` relies on it.
- `example.py` is a usage script whose listed outputs come from running the solver. It is not part of this model.

## Findings

| source | as written | input that shows it | evidently intended | confidence | as-written member | corrected member |
|---|---|---|---|---|---|---|
| sudoku_solver.py:81-83, 96-99 | `_solve` returns at once when the worklist is empty, so a grid that is already complete and valid never reaches `solutions.append`, and `solve` raises 'Unsolvable Sudoku.' | any complete valid grid, e.g. the one holding (3·(r mod 3) + r div 3 + c) mod 9 + 1 at row r, column c | a complete valid grid is returned as its own (only) solution | not executed | Solver.SolveGridAsWritten | Solver.SolveGrid |
