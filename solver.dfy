/**
 * The class `Sudoku` of sudoku_solver.py: a backtracking solver for 9x9
 * grids that keeps the grid, one candidate set per row, column and block,
 * and a worklist of empty cells, and updates all of them in place while it
 * searches. The fields are the source's; `View()` bundles them into the
 * `SearchState.State` value that the specification functions talk about.
 */
module Solver {
  import opened Grid
  import opened SearchState

  datatype Option<T> = None | Some(value: T)

  /** The two `ValueError`s of the source: 'Invalid grid.' and 'Unsolvable Sudoku.' */
  datatype SudokuError = InvalidGrid | UnsolvableSudoku

  datatype Result<T> = Success(value: T) | Failure(error: SudokuError)

  /** What `solve` returns: the first solution, or the list of all of them. */
  datatype Answer = One(grid: Grid) | All(grids: seq<Grid>)

  /** The pair `(pos, candidates)` that `_find_best_cell` returns. */
  datatype Choice = Choice(pos: Cell, options: set<int>)

  /** How many options each worklist entry has, in worklist order. */
  ghost function OptionCounts(st: State): (c: seq<int>)
    requires HasFamilies(st) && forall m :: 0 <= m < |st.empty| ==> IsCell(st.empty[m])
    ensures |c| == |st.empty|
  {
    seq(|st.empty|, m requires 0 <= m < |st.empty| => |Options(st, st.empty[m])|)
  }

  /** Entry k has the fewest options, and no earlier entry has as few. */
  predicate FirstFewest(counts: seq<int>, k: int) {
    && 0 <= k < |counts|
    && (forall m :: 0 <= m < |counts| ==> counts[k] <= counts[m])
    && (forall m :: 0 <= m < k ==> counts[k] < counts[m])
  }

  /** What `_find_best_cell` knows after looking at the first n counts:
      either nothing below `count` = 10 was seen, or entry `at` is the
      first one with the fewest options so far. */
  predicate FewestSoFar(counts: seq<int>, n: int, found: bool, at: int, count: int) {
    && 0 <= n <= |counts|
    && (!found ==> count == 10 && forall m :: 0 <= m < n ==> counts[m] >= 10)
    && (found ==> && 0 <= at < n && count < 10 && count == counts[at]
                  && (forall m :: 0 <= m < n ==> count <= counts[m])
                  && (forall m :: 0 <= m < at ==> count < counts[m]))
  }

  lemma FewestStep(counts: seq<int>, n: int, found: bool, at: int, count: int)
    requires FewestSoFar(counts, n, found, at, count) && n < |counts|
    ensures counts[n] < count ==> FewestSoFar(counts, n + 1, true, n, counts[n])
    ensures counts[n] >= count ==> FewestSoFar(counts, n + 1, found, at, count)
  {
  }

  lemma FewestDone(counts: seq<int>, found: bool, at: int, count: int)
    requires FewestSoFar(counts, |counts|, found, at, count)
    ensures !found <==> forall m :: 0 <= m < |counts| ==> counts[m] >= 10
    ensures found ==> FirstFewest(counts, at)
  {
  }

  /** Every grid recorded from index lo on keeps the filled cells of g. */
  ghost predicate KeepFrom(sols: seq<Grid>, lo: int, g: Grid) {
    && WellShaped(g)
    && forall k :: 0 <= lo <= k < |sols| ==> WellShaped(sols[k]) && Extends(g, sols[k])
  }

  /** Cell (i, j) of g holds a digit of vals. */
  predicate HoldsAt(g: Grid, i: int, j: int, vals: set<int>) {
    WellShaped(g) && 0 <= i < 9 && 0 <= j < 9 && g[i][j] in vals
  }

  /** Every grid recorded from index lo on holds a digit of vals at (i, j). */
  predicate HoldFrom(sols: seq<Grid>, lo: int, i: int, j: int, vals: set<int>) {
    forall k :: 0 <= lo <= k < |sols| ==> HoldsAt(sols[k], i, j, vals)
  }

  /** No grid is recorded twice from index lo on. */
  predicate DistinctFrom(sols: seq<Grid>, lo: int) {
    forall k, l :: 0 <= lo <= k < l < |sols| ==> sols[k] != sols[l]
  }

  /** The solutions a search records after writing c into the empty cell
      (i, j) keep the grid from before the write and hold c at (i, j). */
  lemma KeepThroughPlace(sols: seq<Grid>, lo: int, g: Grid, i: int, j: int, c: int)
    requires WellShaped(g) && 0 <= i < 9 && 0 <= j < 9 && g[i][j] == 0 && c != 0 && 0 <= lo
    requires KeepFrom(sols, lo, Place(g, i, j, c))
    ensures KeepFrom(sols, lo, g) && HoldFrom(sols, lo, i, j, {c})
  {
    forall k | lo <= k < |sols|
      ensures Extends(g, sols[k]) && sols[k][i][j] == c
    {
      assert Place(g, i, j, c)[i][j] == c;
    }
  }

  /** A step that records nothing, or only g, records grids that keep g,
      none twice. */
  lemma RecordKeeps(a: seq<Grid>, b: seq<Grid>, g: Grid)
    requires WellShaped(g) && (b == a || b == a + [g])
    ensures KeepFrom(b, |a|, g) && DistinctFrom(b, |a|)
  {
    assert forall k :: |a| <= k < |b| ==> b[k] == g;
  }

  /** The solutions recorded in a turn of `_solve`'s loop that wrote c at
      the worklist entry p of st0 keep st0's grid and hold c at p. */
  lemma TurnKeeps(st0: State, p: Cell, c: int, g1: Grid, sols: seq<Grid>, lo: int)
    requires Invariant(st0) && p in st0.empty && IsCell(p) && c in Options(st0, p) && 0 <= lo
    requires g1 == Assign(st0, p, c).grid && KeepFrom(sols, lo, g1)
    ensures KeepFrom(sols, lo, st0.grid) && HoldFrom(sols, lo, p.row, p.col, {c})
  {
    OptionsAllowed(st0, p);
    KeepThroughPlace(sols, lo, st0.grid, p.row, p.col, c);
  }

  /** Two runs of recordings, the second starting where the first ended and
      empty when the first is not, together record no grid twice. */
  lemma JoinRuns(a: seq<Grid>, b: seq<Grid>, lo: int, g: Grid)
    requires 0 <= lo <= |a| && a <= b && (|a| > lo ==> b == a)
    requires KeepFrom(a, lo, g) && DistinctFrom(a, lo)
    requires KeepFrom(b, |a|, g) && DistinctFrom(b, |a|)
    ensures KeepFrom(b, lo, g) && DistinctFrom(b, lo)
  {
  }

  /** One turn of `_solve`'s loop records grids holding its candidate c at
      the chosen cell; the earlier turns recorded grids holding other
      digits there, so no grid is recorded twice. */
  lemma TurnJoin(a: seq<Grid>, b: seq<Grid>, lo: int, g: Grid,
                 i: int, j: int, used: set<int>, c: int)
    requires 0 <= lo <= |a| && a <= b && c !in used
    requires KeepFrom(a, lo, g) && HoldFrom(a, lo, i, j, used) && DistinctFrom(a, lo)
    requires KeepFrom(b, |a|, g) && HoldFrom(b, |a|, i, j, {c}) && DistinctFrom(b, |a|)
    ensures KeepFrom(b, lo, g) && HoldFrom(b, lo, i, j, used + {c}) && DistinctFrom(b, lo)
  {
    forall k | lo <= k < |b|
      ensures HoldsAt(b[k], i, j, used + {c})
    {
      if k < |a| {
        assert b[k] == a[k];
      }
    }
    forall k | lo <= k < |b|
      ensures WellShaped(b[k]) && Extends(g, b[k])
    {
      if k < |a| {
        assert b[k] == a[k];
      }
    }
    forall k, l | lo <= k < l < |b|
      ensures b[k] != b[l]
    {
      if l < |a| {
        assert b[k] == a[k] && b[l] == a[l];
      } else if k < |a| {
        assert b[k] == a[k] && b[k][i][j] in used;
        assert b[l][i][j] in {c};
      }
    }
  }

  class Sudoku {
    var grid: Grid                 // self.sudoku
    var onlyOne: bool              // self.only_one_solution
    var solutions: seq<Grid>
    var rows: seq<set<int>>        // self.rows_candidates
    var cols: seq<set<int>>        // self.cols_candidates
    var blocks: seq<set<int>>      // self.blocks_candidates
    var emptyCells: seq<Cell>
    ghost var givens: Grid         // the grid the solver was built from

    /** The search state the fields hold. */
    ghost function View(): State
      reads this`grid, this`rows, this`cols, this`blocks, this`emptyCells
    {
      State(grid, rows, cols, blocks, emptyCells)
    }

    /** The state invariant, and the givens kept on the grid. */
    ghost predicate Inv()
      reads this`grid, this`rows, this`cols, this`blocks, this`emptyCells, this`givens
    {
      && Invariant(View())
      && WellShaped(givens)
      && Extends(givens, grid)
    }

    /** Every recorded solution is a solution of the givens. */
    ghost predicate SolutionsSound()
      reads this`solutions, this`givens
    {
      forall k :: 0 <= k < |solutions| ==> IsSolutionOf(givens, solutions[k])
    }

    /** Inv, and in single-solution mode a found solution is still on the grid. */
    ghost predicate Valid()
      reads this`grid, this`rows, this`cols, this`blocks, this`emptyCells, this`givens
      reads this`onlyOne, this`solutions
    {
      Inv() && (onlyOne && solutions != [] ==> emptyCells == [])
    }

    /** Only the field initialisation that opens `__init__`, as a step of
        `Create`: the object it builds has no candidate sets and no worklist
        yet, so it is not `Valid()` until `Create` has filled them in. */
    constructor Init(g: Grid, onlyOne: bool)
      ensures grid == g && givens == g && this.onlyOne == onlyOne
      ensures solutions == [] && rows == [] && cols == [] && blocks == [] && emptyCells == []
    {
      grid := g;
      this.onlyOne := onlyOne;
      solutions := [];
      cols := [];
      rows := [];
      blocks := [];
      emptyCells := [];
      givens := g;
    }

    /** `__init__`: reject a grid that is not 9 by 9, then scan it row by
        row, listing the empty cells and taking every given out of its row,
        column and block; a given that is not there to take (a repeat, or a
        value outside 1..9) rejects the grid. */
    static method Create(g: Grid, onlyOne: bool := true) returns (r: Result<Sudoku>)
      ensures !WellShaped(g) ==> r == Failure(InvalidGrid)
      ensures WellShaped(g) && !Consistent(g) ==> r == Failure(UnsolvableSudoku)
      ensures WellShaped(g) && Consistent(g) ==> r.Success?
      ensures r.Success? ==>
                && fresh(r.value) && r.value.Valid() && r.value.SolutionsSound()
                && r.value.grid == g && r.value.givens == g && r.value.onlyOne == onlyOne
                && r.value.solutions == [] && r.value.emptyCells == EmptyCells(g)
    {
      var s := new Sudoku.Init(g, onlyOne);
      var shaped := CheckShape(g);
      if !shaped {
        return Failure(InvalidGrid);
      }
      s.InitCandidates();
      var ok := s.ScanGrid();
      if !ok {
        return Failure(UnsolvableSudoku);
      }
      EmptyCellsExact(g);
      return Success(s);
    }

    /** The shape check that opens `__init__`: 9 rows, each of 9 cells. */
    static method CheckShape(g: Grid) returns (ok: bool)
      ensures ok <==> WellShaped(g)
    {
      if |g| != 9 {
        return false;
      }
      for i := 0 to 9
        invariant forall k :: 0 <= k < i ==> |g[k]| == 9
      {
        if |g[i]| != 9 {
          return false;
        }
      }
      return true;
    }

    /** The nine full candidate sets per row, column and block that
        `__init__` starts from. */
    method InitCandidates()
      modifies this`rows, this`cols, this`blocks
      ensures |rows| == |cols| == |blocks| == 9
      ensures forall u :: 0 <= u < 9 ==> rows[u] == Digits && cols[u] == Digits && blocks[u] == Digits
    {
      cols, rows, blocks := [], [], [];
      for u := 0 to 9
        invariant |rows| == u && |cols| == u && |blocks| == u
        invariant forall k :: 0 <= k < u ==> rows[k] == Digits && cols[k] == Digits && blocks[k] == Digits
      {
        cols := cols + [Digits];
        rows := rows + [Digits];
        blocks := blocks + [Digits];
      }
    }

    /** The row-major scan of `__init__`: list the empty cells and take every
        given out of the candidate sets of its row, column and block. ok is
        false, and the grid inconsistent, as soon as a given is not there to
        take. */
    method ScanGrid() returns (ok: bool)
      requires WellShaped(grid) && emptyCells == [] && |rows| == |cols| == |blocks| == 9
      requires forall u :: 0 <= u < 9 ==> rows[u] == Digits && cols[u] == Digits && blocks[u] == Digits
      modifies this`rows, this`cols, this`blocks, this`emptyCells
      ensures ok <==> Consistent(grid)
      ensures ok ==> CandidatesMatch(grid, rows, cols, blocks) && emptyCells == EmptyCells(grid)
    {
      ScanStart(grid, rows, cols, blocks);
      for i := 0 to 9
        invariant ScannedTo(grid, i * 9, rows, cols, blocks, emptyCells)
      {
        ok := ScanRow(i);
        if !ok {
          return false;
        }
      }
      ScanEnd(grid, rows, cols, blocks, emptyCells);
      return true;
    }

    /** The inner loop of the scan in `__init__`: the nine cells of row i. */
    method ScanRow(i: int) returns (ok: bool)
      requires 0 <= i < 9 && ScannedTo(grid, i * 9, rows, cols, blocks, emptyCells)
      modifies this`rows, this`cols, this`blocks, this`emptyCells
      ensures ok ==> ScannedTo(grid, i * 9 + 9, rows, cols, blocks, emptyCells)
      ensures !ok ==> !Consistent(grid)
    {
      ghost var n := i * 9;
      for j := 0 to 9
        invariant n == i * 9 + j && ScannedTo(grid, n, rows, cols, blocks, emptyCells)
      {
        ok := ScanCell(i, j, n);
        if !ok {
          return false;
        }
        n := n + 1;
      }
      return true;
    }

    /** One step of the scan in `__init__`: an empty cell (i, j) joins the
        worklist; a given is taken out of the candidate sets of its row,
        column and block, and ok is false when one of them does not hold it.
        n is the row-major index of (i, j). */
    method ScanCell(i: int, j: int, ghost n: int) returns (ok: bool)
      requires 0 <= i < 9 && 0 <= j < 9 && n == i * 9 + j
      requires ScannedTo(grid, n, rows, cols, blocks, emptyCells)
      modifies this`rows, this`cols, this`blocks, this`emptyCells
      ensures ok ==> ScannedTo(grid, n + 1, rows, cols, blocks, emptyCells)
      ensures !ok ==> !Consistent(grid)
    {
      IndexOfCell(i, j);
      assert n / 9 == i && n % 9 == j;
      if grid[i][j] == 0 {
        ScanEmpty(grid, n);
        assert CellAt(n / 9, n % 9) == Cell(i, j, PosToBlock(i, j));
        emptyCells := emptyCells + [Cell(i, j, PosToBlock(i, j))];
        ok := true;
      } else {
        ScanGiven(grid, i, j, PosToBlock(i, j), grid[i][j], n, rows, cols, blocks);
        ok := DeleteCandidate(i, j, grid[i][j]);
      }
    }

    /** `_delete_candidate`: take d out of the candidate sets of the row, the
        column and the block of (i, j); ok is false, and nothing is taken,
        when one of them does not hold d (the source's `KeyError`). */
    method DeleteCandidate(i: int, j: int, d: int) returns (ok: bool)
      requires 0 <= i < 9 && 0 <= j < 9 && |rows| == 9 && |cols| == 9 && |blocks| == 9
      modifies this`rows, this`cols, this`blocks
      ensures ok <==> d in old(rows[i]) && d in old(cols[j]) && d in old(blocks[PosToBlock(i, j)])
      ensures ok ==>
                && rows == old(rows[i := rows[i] - {d}])
                && cols == old(cols[j := cols[j] - {d}])
                && blocks == old(blocks[PosToBlock(i, j) := blocks[PosToBlock(i, j)] - {d}])
      ensures !ok ==> rows == old(rows) && cols == old(cols) && blocks == old(blocks)
    {
      var b := PosToBlock(i, j);
      ok := d in rows[i] && d in cols[j] && d in blocks[b];
      if ok {
        rows := rows[i := rows[i] - {d}];
        cols := cols[j := cols[j] - {d}];
        blocks := blocks[b := blocks[b] - {d}];
      }
    }

    /** `_set_cell(pos, value)`: write one of the cell's options into it. */
    method SetCell(pos: Cell, value: int)
      requires Inv() && pos in emptyCells && value in Options(View(), pos)
      modifies this
      ensures View() == Assign(old(View()), pos, value)
      ensures Inv()
      ensures |emptyCells| == |old(emptyCells)| - 1
      ensures solutions == old(solutions) && onlyOne == old(onlyOne) && givens == old(givens)
    {
      ghost var st := View();
      var row, col := pos.row, pos.col;
      grid := Place(grid, row, col, value);
      var ok := DeleteCandidate(row, col, value);
      assert ok;
      emptyCells := RemoveFirst(emptyCells, pos);
      AssignKeepsInvariant(st, pos, value);
      PlaceExtends(givens, st.grid, row, col, value);
    }

    /** `_clear_cell(pos, value)`: empty a cell the search filled and give its
        digit back to the cell's row, column and block. */
    method ClearCell(pos: Cell, value: int)
      requires Inv() && IsCell(pos) && grid[pos.row][pos.col] == value && value != 0
      requires givens[pos.row][pos.col] == 0
      modifies this
      ensures View() == Unassign(old(View()), pos, value)
      ensures Inv()
      ensures solutions == old(solutions) && onlyOne == old(onlyOne) && givens == old(givens)
    {
      ghost var st := View();
      var row, col, block := pos.row, pos.col, pos.block;
      grid := Place(grid, row, col, 0);
      rows := rows[row := rows[row] + {value}];
      cols := cols[col := cols[col] + {value}];
      blocks := blocks[block := blocks[block] + {value}];
      emptyCells := emptyCells + [pos];
      UnassignKeepsInvariant(st, pos, value);
    }

    /** `_find_best_cell`: the first worklist entry with the fewest options,
        with those options; nothing when no entry has fewer than 10. */
    method FindBestCell() returns (best: Option<Choice>)
      requires HasFamilies(View()) && forall k :: 0 <= k < |emptyCells| ==> IsCell(emptyCells[k])
      ensures best.None? <==> forall k :: 0 <= k < |emptyCells| ==> OptionCounts(View())[k] >= 10
      ensures best.Some? ==>
                exists k :: FirstFewest(OptionCounts(View()), k) &&
                            best.value == Choice(emptyCells[k], Options(View(), emptyCells[k]))
    {
      ghost var st := View();
      ghost var counts := OptionCounts(st);
      var count := 10;
      best := None;
      ghost var at := 0;
      for n := 0 to |emptyCells|
        invariant FewestSoFar(counts, n, best.Some?, at, count)
        invariant best.Some? ==> best.value == Choice(st.empty[at], Options(st, st.empty[at]))
      {
        var pos := emptyCells[n];
        var candidates := rows[pos.row] * cols[pos.col] * blocks[pos.block];
        assert |candidates| == counts[n];
        FewestStep(counts, n, best.Some?, at, count);
        if |candidates| < count {
          best := Some(Choice(pos, candidates));
          count := |candidates|;
          at := n;
        }
      }
      FewestDone(counts, best.Some?, at, count);
      assert best.Some? ==> FirstFewest(OptionCounts(View()), at);
    }

    /** `_solve`: pick the best cell and try each of its options in turn,
        recording the grid whenever the worklist runs empty. In
        all-solutions mode every option is undone, so the search leaves the
        state as it found it; in single-solution mode the first solution
        stops the search and stays on the grid. A search that starts with an
        empty worklist returns at once and records nothing. Every grid it
        records solves the givens, keeps the grid it started from, and is
        recorded once. */
    method Search()
      requires Valid() && SolutionsSound()
      modifies this
      decreases |emptyCells|, 2
      ensures Valid() && SolutionsSound() && onlyOne == old(onlyOne) && givens == old(givens)
      ensures old(solutions) <= solutions
      ensures KeepFrom(solutions, |old(solutions)|, old(grid))
      ensures DistinctFrom(solutions, |old(solutions)|)
      ensures old(emptyCells) == [] ==> solutions == old(solutions) && View() == old(View())
      ensures !onlyOne || solutions == old(solutions) ==> Restored(old(View()), View())
      ensures onlyOne && solutions != old(solutions) ==>
                && |solutions| == |old(solutions)| + 1
                && emptyCells == []
                && grid == solutions[|solutions| - 1]
    {
      if emptyCells == [] {
        return;
      }
      var best := FindBestCell();
      OptionsAtMostNine(View(), emptyCells[0]);
      assert OptionCounts(View())[0] < 10;
      var pos, candidates := best.value.pos, best.value.options;
      assert givens[pos.row][pos.col] == 0;
      TryEach(pos, candidates);
    }

    /** The loop of `_solve` over the options of the chosen cell, in an
        order the model leaves open; it ends early once a single wanted
        solution is found. */
    method TryEach(pos: Cell, candidates: set<int>)
      requires Valid() && SolutionsSound() && pos in emptyCells && givens[pos.row][pos.col] == 0
      requires candidates == Options(View(), pos)
      modifies this
      decreases |emptyCells|, 1
      ensures Valid() && SolutionsSound() && onlyOne == old(onlyOne) && givens == old(givens)
      ensures old(solutions) <= solutions
      ensures KeepFrom(solutions, |old(solutions)|, old(grid))
      ensures DistinctFrom(solutions, |old(solutions)|)
      ensures !onlyOne || solutions == old(solutions) ==> Restored(old(View()), View())
      ensures onlyOne && solutions != old(solutions) ==>
                && |solutions| == |old(solutions)| + 1
                && emptyCells == []
                && grid == solutions[|solutions| - 1]
    {
      ghost var st0 := View();
      var rest := candidates;
      ghost var tried: set<int> := {};
      while rest != {}
        invariant Valid() && SolutionsSound() && onlyOne == old(onlyOne) && givens == old(givens)
        invariant Restored(st0, View())
        invariant rest <= Options(st0, pos) && rest !! tried
        invariant old(solutions) <= solutions
        invariant onlyOne ==> solutions == old(solutions) == []
        invariant KeepFrom(solutions, |old(solutions)|, st0.grid)
        invariant HoldFrom(solutions, |old(solutions)|, pos.row, pos.col, tried)
        invariant DistinctFrom(solutions, |old(solutions)|)
        decreases rest
      {
        var candidate :| candidate in rest;
        rest := rest - {candidate};
        RestoredSameLength(st0, View());
        ghost var before := solutions;
        var stop := TryCandidate(pos, candidate, st0);
        TurnJoin(before, solutions, |old(solutions)|, st0.grid, pos.row, pos.col, tried, candidate);
        tried := tried + {candidate};
        if stop {
          return;
        }
      }
    }

    /** One turn of `_solve`'s loop: write the candidate, record the grid if
        that filled it, search on, and unless a single solution was wanted
        and found (stop), empty the cell again. Without a stop the state is
        st0 again, up to the order of the worklist. */
    method TryCandidate(pos: Cell, candidate: int, ghost st0: State) returns (stop: bool)
      requires Valid() && SolutionsSound() && Invariant(st0) && Restored(st0, View())
      requires pos in st0.empty && candidate in Options(st0, pos) && givens[pos.row][pos.col] == 0
      requires onlyOne ==> solutions == []
      modifies this
      decreases |emptyCells|, 0
      ensures Valid() && SolutionsSound() && onlyOne == old(onlyOne) && givens == old(givens)
      ensures old(solutions) <= solutions
      ensures KeepFrom(solutions, |old(solutions)|, st0.grid)
      ensures HoldFrom(solutions, |old(solutions)|, pos.row, pos.col, {candidate})
      ensures DistinctFrom(solutions, |old(solutions)|)
      ensures !stop ==> Restored(st0, View()) && (onlyOne ==> solutions == [])
      ensures stop ==>
                && onlyOne && |solutions| == |old(solutions)| + 1
                && emptyCells == [] && grid == solutions[|solutions| - 1]
    {
      ghost var lo := |solutions|;
      stop := Descend(pos, candidate, st0);
      ghost var g1 := grid;
      if !stop {
        ghost var mid := solutions;
        stop := Ascend(pos, candidate, st0);
        JoinRuns(mid, solutions, lo, g1);
      }
      TurnKeeps(st0, pos, candidate, g1, solutions, lo);
    }

    /** The second half of a turn of `_solve`'s loop: search on from the
        written candidate, then, unless a single solution was wanted and
        found (stop), empty the cell again. */
    method Ascend(pos: Cell, candidate: int, ghost st0: State) returns (stop: bool)
      requires Inv() && SolutionsSound() && Invariant(st0) && pos in st0.empty && candidate in Options(st0, pos)
      requires Restored(Assign(st0, pos, candidate), View()) && givens[pos.row][pos.col] == 0
      requires onlyOne ==> solutions == []
      modifies this
      decreases |emptyCells|, 3
      ensures Valid() && SolutionsSound() && onlyOne == old(onlyOne) && givens == old(givens)
      ensures old(solutions) <= solutions
      ensures old(emptyCells) == [] ==> solutions == old(solutions)
      ensures KeepFrom(solutions, |old(solutions)|, old(grid))
      ensures DistinctFrom(solutions, |old(solutions)|)
      ensures !stop ==> Restored(st0, View()) && (onlyOne ==> solutions == [])
      ensures stop ==>
                && onlyOne && |solutions| == |old(solutions)| + 1
                && emptyCells == [] && grid == solutions[|solutions| - 1]
    {
      Search();
      stop := solutions != [] && onlyOne;
      if !stop {
        Backtrack(pos, candidate, st0);
      }
    }

    /** The first half of a turn of `_solve`'s loop: write the candidate,
        and if that filled the grid record it, stopping in single-solution
        mode. */
    method Descend(pos: Cell, candidate: int, ghost st0: State) returns (stop: bool)
      requires Inv() && SolutionsSound() && Invariant(st0) && Restored(st0, View())
      requires pos in st0.empty && candidate in Options(st0, pos) && givens[pos.row][pos.col] == 0
      requires onlyOne ==> solutions == []
      modifies this
      ensures Inv() && SolutionsSound() && onlyOne == old(onlyOne) && givens == old(givens)
      ensures Restored(Assign(st0, pos, candidate), View())
      ensures |emptyCells| < |old(emptyCells)|
      ensures solutions == old(solutions) + if emptyCells == [] then [grid] else []
      ensures stop <==> onlyOne && emptyCells == []
      ensures KeepFrom(solutions, |old(solutions)|, grid) && DistinctFrom(solutions, |old(solutions)|)
      ensures stop ==>
                && onlyOne && |solutions| == |old(solutions)| + 1
                && emptyCells == [] && grid == solutions[|solutions| - 1]
      ensures !stop ==> onlyOne ==> solutions == []
    {
      ghost var stA := View();
      AssignRespectsRestored(st0, stA, pos, candidate);
      SetCell(pos, candidate);
      assert emptyCells == [] ==> IsSolutionOf(givens, grid) by {
        if emptyCells == [] {
          EmptyWorklistSolved(View());
        }
      }
      ghost var before := solutions;
      var filled := RecordIfFilled();
      stop := filled && onlyOne;
      RecordKeeps(before, solutions, grid);
    }

    /** `_solve`'s check after writing a candidate: when no empty cell is
        left, append a copy of the grid to the solutions. Only a grid that
        solves the givens is ever appended. */
    method RecordIfFilled() returns (filled: bool)
      requires Inv() && SolutionsSound() && (emptyCells == [] ==> IsSolutionOf(givens, grid))
      modifies this`solutions
      ensures Inv() && SolutionsSound() && View() == old(View())
      ensures filled <==> emptyCells == []
      ensures solutions == old(solutions) + if filled then [grid] else []
    {
      filled := emptyCells == [];
      if filled {
        solutions := solutions + [grid];
      }
    }

    /** `_clear_cell` at the end of a turn of `_solve`'s loop, with the
        search in between having left the state as the candidate's
        placement made it. */
    method Backtrack(pos: Cell, candidate: int, ghost st0: State)
      requires Inv() && Invariant(st0) && pos in st0.empty && candidate in Options(st0, pos)
      requires Restored(Assign(st0, pos, candidate), View()) && givens[pos.row][pos.col] == 0
      modifies this
      ensures Inv() && Restored(st0, View())
      ensures solutions == old(solutions) && onlyOne == old(onlyOne) && givens == old(givens)
    {
      ghost var st1 := View();
      OptionsAllowed(st0, pos);
      assert candidate != 0 && grid[pos.row][pos.col] == candidate;
      ClearCell(pos, candidate);
      UnassignUndoesAssign(st0, st1, pos, candidate);
    }

    /** `solve`: search, then fail when nothing was recorded, else return the
        first solution or all of them. As written, an input without empty
        cells is never recorded and so is reported unsolvable. */
    method Solve() returns (r: Result<Answer>)
      requires Valid() && SolutionsSound()
      modifies this
      ensures Valid() && SolutionsSound() && onlyOne == old(onlyOne) && givens == old(givens)
      ensures old(solutions) <= solutions
      ensures r.Failure? <==> solutions == []
      ensures r.Failure? ==> r.error == UnsolvableSudoku
      ensures r.Success? ==> r.value == if onlyOne then One(solutions[0]) else All(solutions)
      ensures old(emptyCells) == [] ==> solutions == old(solutions)
      ensures KeepFrom(solutions, |old(solutions)|, old(grid))
      ensures DistinctFrom(solutions, |old(solutions)|)
    {
      Search();
      if solutions == [] {
        return Failure(UnsolvableSudoku);
      }
      if onlyOne {
        return Success(One(solutions[0]));
      } else {
        return Success(All(solutions));
      }
    }

    /** `solve` corrected: a grid that is already complete is its own
        solution. */
    method SolveFixed() returns (r: Result<Answer>)
      requires Valid() && SolutionsSound()
      modifies this
      ensures Valid() && SolutionsSound() && onlyOne == old(onlyOne) && givens == old(givens)
      ensures old(solutions) <= solutions
      ensures r.Failure? <==> solutions == []
      ensures r.Failure? ==> r.error == UnsolvableSudoku
      ensures r.Success? ==> r.value == if onlyOne then One(solutions[0]) else All(solutions)
      ensures old(emptyCells) == [] && old(solutions) == [] ==> solutions == [old(grid)]
      ensures KeepFrom(solutions, |old(solutions)|, old(grid))
      ensures DistinctFrom(solutions, |old(solutions)|)
    {
      if emptyCells == [] && solutions == [] {
        EmptyWorklistSolved(View());
        solutions := [grid];
        RecordKeeps([], solutions, grid);
      } else {
        Search();
      }
      if solutions == [] {
        return Failure(UnsolvableSudoku);
      }
      if onlyOne {
        return Success(One(solutions[0]));
      } else {
        return Success(All(solutions));
      }
    }
  }

  /** `Sudoku(grid, only_one_solution).solve()` with the corrected `solve`:
      the shape and repeat errors of construction, solutions that keep the
      givens, and a complete valid grid returned as its own solution. */
  method SolveGrid(g: Grid, onlyOne: bool := true) returns (r: Result<Answer>)
    ensures !WellShaped(g) <==> r == Failure(InvalidGrid)
    ensures WellShaped(g) && !Consistent(g) ==> r == Failure(UnsolvableSudoku)
    ensures r.Success? && r.value.One? ==> onlyOne && IsSolutionOf(g, r.value.grid)
    ensures r.Success? && r.value.All? ==>
              && !onlyOne && r.value.grids != []
              && (forall k :: 0 <= k < |r.value.grids| ==> IsSolutionOf(g, r.value.grids[k]))
              && (forall k, l :: 0 <= k < l < |r.value.grids| ==> r.value.grids[k] != r.value.grids[l])
    ensures WellShaped(g) && Consistent(g) && Complete(g) ==>
              r == Success(if onlyOne then One(g) else All([g]))
  {
    var made := Sudoku.Create(g, onlyOne);
    if made.Failure? {
      return Failure(made.error);
    }
    var s := made.value;
    if Complete(g) {
      CompleteHasNoZeros(g, 81);
    }
    r := s.SolveFixed();
  }

  /** The same call with `solve` as written: a complete valid grid is
      reported unsolvable. */
  method SolveGridAsWritten(g: Grid, onlyOne: bool := true) returns (r: Result<Answer>)
    ensures !WellShaped(g) <==> r == Failure(InvalidGrid)
    ensures WellShaped(g) && !Consistent(g) ==> r == Failure(UnsolvableSudoku)
    ensures r.Success? && r.value.One? ==> onlyOne && IsSolutionOf(g, r.value.grid)
    ensures r.Success? && r.value.All? ==>
              && !onlyOne && r.value.grids != []
              && (forall k :: 0 <= k < |r.value.grids| ==> IsSolutionOf(g, r.value.grids[k]))
              && (forall k, l :: 0 <= k < l < |r.value.grids| ==> r.value.grids[k] != r.value.grids[l])
    ensures WellShaped(g) && Consistent(g) && Complete(g) ==> r == Failure(UnsolvableSudoku)
  {
    var made := Sudoku.Create(g, onlyOne);
    if made.Failure? {
      return Failure(made.error);
    }
    var s := made.value;
    if Complete(g) {
      CompleteHasNoZeros(g, 81);
    }
    r := s.Solve();
  }
}
