/**
 * The search state of the solver in sudoku_solver.py, as a value: the grid,
 * the three families of candidate sets (rows, columns, blocks) and the
 * worklist of empty cells. `_set_cell` and `_clear_cell` are the state
 * transformers Assign and Unassign; the solver's class is proved to apply
 * exactly these, and the lemmas here say what they preserve and that the
 * second undoes the first.
 */
module SearchState {
  import opened Grid

  /** A worklist entry, the source's `(row, col, block)` triple. */
  datatype Cell = Cell(row: int, col: int, block: int)

  /** An entry for a cell on the board, carrying that cell's block. */
  predicate IsCell(p: Cell) {
    0 <= p.row < 9 && 0 <= p.col < 9 && p.block == PosToBlock(p.row, p.col)
  }

  function CellAt(i: int, j: int): Cell
    requires 0 <= i < 9 && 0 <= j < 9
  {
    Cell(i, j, PosToBlock(i, j))
  }

  /** Row-major position of a cell. */
  function Index(p: Cell): int {
    p.row * 9 + p.col
  }

  /** Position of the first occurrence of x. */
  function FirstIndex<T(==)>(e: seq<T>, x: T): (k: int)
    requires x in e
    ensures 0 <= k < |e| && e[k] == x && x !in e[..k]
  {
    if e[0] == x then 0 else 1 + FirstIndex(e[1..], x)
  }

  /** Python's `list.remove`: drop the first occurrence of x, keep the order
      of everything else. */
  function RemoveFirst<T(==)>(e: seq<T>, x: T): (r: seq<T>)
    requires x in e
    ensures |r| == |e| - 1
  {
    if e[0] == x then e[1..] else [e[0]] + RemoveFirst(e[1..], x)
  }

  /** `list.remove` cuts the list at the first occurrence of x. */
  lemma {:induction false} RemoveFirstSplit<T>(e: seq<T>, x: T)
    requires x in e
    ensures RemoveFirst(e, x) == e[..FirstIndex(e, x)] + e[FirstIndex(e, x) + 1..]
  {
    if e[0] != x {
      var t := e[1..];
      RemoveFirstSplit(t, x);
      var k := FirstIndex(t, x);
      assert FirstIndex(e, x) == k + 1;
      calc {
        RemoveFirst(e, x);
        [e[0]] + RemoveFirst(t, x);
        [e[0]] + (t[..k] + t[k + 1..]);
        { assert [e[0]] + t[..k] == e[..k + 1]; assert t[k + 1..] == e[k + 2..]; }
        e[..k + 1] + e[k + 2..];
      }
    }
  }

  /** `list.remove` takes exactly one copy of x out of the list. */
  lemma RemoveFirstMultiset<T>(e: seq<T>, x: T)
    requires x in e
    ensures multiset(RemoveFirst(e, x)) == multiset(e) - multiset{x}
  {
    RemoveFirstSplit(e, x);
    var k := FirstIndex(e, x);
    assert e == e[..k] + [x] + e[k + 1..];
  }

  /** The empty cells among the first n in row-major order, in that order:
      what the construction loop appends to `empty_cells`. */
  function ZerosBefore(g: Grid, n: int): seq<Cell>
    requires WellShaped(g) && 0 <= n <= 81
    decreases n
  {
    if n == 0 then []
    else
      ZerosBefore(g, n - 1) +
      (if g[(n - 1) / 9][(n - 1) % 9] == 0 then [CellAt((n - 1) / 9, (n - 1) % 9)] else [])
  }

  /** The worklist built from a grid: every empty cell, row-major. */
  function EmptyCells(g: Grid): seq<Cell>
    requires WellShaped(g)
  {
    ZerosBefore(g, 81)
  }

  /** The worklist lists each empty cell of g exactly once, and nothing else. */
  ghost predicate WorklistExact(g: Grid, e: seq<Cell>)
    requires WellShaped(g)
  {
    && (forall k :: 0 <= k < |e| ==> IsCell(e[k]) && g[e[k].row][e[k].col] == 0)
    && (forall a, b {:trigger Index(e[a]), Index(e[b])} :: 0 <= a < b < |e| ==> Index(e[a]) != Index(e[b]))
    && (forall i, j {:trigger CellAt(i, j)} :: 0 <= i < 9 && 0 <= j < 9 && g[i][j] == 0 ==> CellAt(i, j) in e)
  }

  /** Row-major positions determine the cell. */
  lemma IndexOfCell(a: int, b: int)
    requires 0 <= a < 9 && 0 <= b < 9
    ensures (a * 9 + b) / 9 == a && (a * 9 + b) % 9 == b
  {
  }

  /** Every cell the scan has appended so far is an empty cell it has
      already passed. */
  lemma {:induction false} ZerosBeforeEntries(g: Grid, n: int)
    requires WellShaped(g) && 0 <= n <= 81
    ensures forall k :: 0 <= k < |ZerosBefore(g, n)| ==>
              var q := ZerosBefore(g, n)[k];
              IsCell(q) && g[q.row][q.col] == 0 && Index(q) < n
  {
    if n > 0 {
      ZerosBeforeEntries(g, n - 1);
      var e0 := ZerosBefore(g, n - 1);
      var i, j := (n - 1) / 9, (n - 1) % 9;
      var c := CellAt(i, j);
      assert Index(c) == n - 1 && IsCell(c);
      var e := ZerosBefore(g, n);
      if g[i][j] == 0 {
        assert e == e0 + [c];
        forall k | 0 <= k < |e|
          ensures IsCell(e[k]) && g[e[k].row][e[k].col] == 0 && Index(e[k]) < n
        {
          if k == |e0| { assert e[k] == c; } else { assert e[k] == e0[k]; }
        }
      } else {
        assert e == e0;
      }
    }
  }

  /** The scan appends in row-major order. */
  lemma {:induction false} ZerosBeforeOrdered(g: Grid, n: int)
    requires WellShaped(g) && 0 <= n <= 81
    ensures forall a, b :: 0 <= a < b < |ZerosBefore(g, n)| ==>
              Index(ZerosBefore(g, n)[a]) < Index(ZerosBefore(g, n)[b])
  {
    if n > 0 {
      ZerosBeforeOrdered(g, n - 1);
      ZerosBeforeEntries(g, n - 1);
      var e0 := ZerosBefore(g, n - 1);
      var c := CellAt((n - 1) / 9, (n - 1) % 9);
      assert Index(c) == n - 1;
      var e := ZerosBefore(g, n);
      forall a, b | 0 <= a < b < |e|
        ensures Index(e[a]) < Index(e[b])
      {
        assert e[a] == e0[a];
        if b >= |e0| { assert e[b] == c; } else { assert e[b] == e0[b]; }
      }
    }
  }

  /** Every empty cell the scan has passed is in the worklist. */
  lemma {:induction false} ZerosBeforeCovers(g: Grid, n: int)
    requires WellShaped(g) && 0 <= n <= 81
    ensures forall i, j :: 0 <= i < 9 && 0 <= j < 9 && i * 9 + j < n && g[i][j] == 0 ==>
              CellAt(i, j) in ZerosBefore(g, n)
  {
    if n > 0 {
      ZerosBeforeCovers(g, n - 1);
      var e0 := ZerosBefore(g, n - 1);
      var e := ZerosBefore(g, n);
      forall a, b | 0 <= a < 9 && 0 <= b < 9 && a * 9 + b < n && g[a][b] == 0
        ensures CellAt(a, b) in e
      {
        if a * 9 + b == n - 1 {
          IndexOfCell(a, b);
          assert e[|e0|] == CellAt(a, b);
        } else {
          assert CellAt(a, b) in e0;
        }
      }
    }
  }

  /** The worklist built at construction is exact and row-major. */
  lemma EmptyCellsExact(g: Grid)
    requires WellShaped(g)
    ensures WorklistExact(g, EmptyCells(g))
    ensures forall a, b :: 0 <= a < b < |EmptyCells(g)| ==>
              Index(EmptyCells(g)[a]) < Index(EmptyCells(g)[b])
  {
    ZerosBeforeEntries(g, 81);
    ZerosBeforeOrdered(g, 81);
    ZerosBeforeCovers(g, 81);
    var e := EmptyCells(g);
    assert e == ZerosBefore(g, 81);
    forall a, b | 0 <= a < b < |e| ensures Index(e[a]) != Index(e[b]) {
      assert Index(e[a]) < Index(e[b]);
    }
  }

  /** A grid without empty cells yields an empty worklist. */
  lemma {:induction false} CompleteHasNoZeros(g: Grid, n: int)
    requires WellShaped(g) && Complete(g) && 0 <= n <= 81
    ensures ZerosBefore(g, n) == []
  {
    if n > 0 {
      CompleteHasNoZeros(g, n - 1);
      assert g[(n - 1) / 9][(n - 1) % 9] != 0;
    }
  }

  /** The solver's mutable state: grid, candidate families and worklist. */
  datatype State = State(grid: Grid, rows: seq<set<int>>, cols: seq<set<int>>,
                         blocks: seq<set<int>>, empty: seq<Cell>)

  predicate HasFamilies(st: State) {
    WellShaped(st.grid) && |st.rows| == 9 && |st.cols| == 9 && |st.blocks| == 9
  }

  /** Each candidate set holds exactly the digits not placed in its unit. */
  ghost predicate CandidatesMatch(g: Grid, rows: seq<set<int>>, cols: seq<set<int>>, blocks: seq<set<int>>)
    requires WellShaped(g)
  {
    && |rows| == 9 && |cols| == 9 && |blocks| == 9
    && (forall u :: 0 <= u < 9 ==> rows[u] == Missing(Values(g, Row(u))))
    && (forall u :: 0 <= u < 9 ==> cols[u] == Missing(Values(g, Column(u))))
    && (forall u :: 0 <= u < 9 ==> blocks[u] == Missing(Values(g, Block(u))))
  }

  /** What holds of the state outside an active `_set_cell`/`_clear_cell`:
      a consistent grid, candidate sets that match it and an exact worklist. */
  ghost predicate Invariant(st: State) {
    && WellShaped(st.grid)
    && Consistent(st.grid)
    && CandidatesMatch(st.grid, st.rows, st.cols, st.blocks)
    && WorklistExact(st.grid, st.empty)
  }

  /** The intersection `_find_best_cell` computes for a worklist entry. */
  function Options(st: State, p: Cell): set<int>
    requires HasFamilies(st) && IsCell(p)
  {
    st.rows[p.row] * st.cols[p.col] * st.blocks[p.block]
  }

  /** `_set_cell(pos, value)`. */
  function Assign(st: State, p: Cell, v: int): State
    requires HasFamilies(st) && IsCell(p) && p in st.empty
  {
    var i, j := p.row, p.col;
    State(Place(st.grid, i, j, v),
          st.rows[i := st.rows[i] - {v}],
          st.cols[j := st.cols[j] - {v}],
          st.blocks[PosToBlock(i, j) := st.blocks[PosToBlock(i, j)] - {v}],
          RemoveFirst(st.empty, p))
  }

  /** `_clear_cell(pos, value)`. */
  function Unassign(st: State, p: Cell, v: int): State
    requires HasFamilies(st) && IsCell(p)
  {
    var i, j := p.row, p.col;
    State(Place(st.grid, i, j, 0),
          st.rows[i := st.rows[i] + {v}],
          st.cols[j := st.cols[j] + {v}],
          st.blocks[p.block := st.blocks[p.block] + {v}],
          st.empty + [p])
  }

  /** Same grid and candidate sets, and the same worklist up to order. */
  ghost predicate Restored(st0: State, st: State) {
    && st.grid == st0.grid
    && st.rows == st0.rows
    && st.cols == st0.cols
    && st.blocks == st0.blocks
    && multiset(st.empty) == multiset(st0.empty)
  }

  /** Under the invariant the options of a cell are exactly the digits that
      its row, column and block still allow. */
  lemma OptionsAllowed(st: State, p: Cell)
    requires Invariant(st) && IsCell(p)
    ensures Options(st, p) <= Digits
    ensures forall v :: v in Options(st, p) <==> Allowed(st.grid, p.row, p.col, v)
  {
  }

  /** The options of a worklist entry are exactly the digits whose placement
      keeps the grid consistent. */
  lemma OptionsAreLegalMoves(st: State, p: Cell, v: int)
    requires Invariant(st) && p in st.empty && v != 0
    ensures IsCell(p) && WellShaped(Place(st.grid, p.row, p.col, v))
    ensures v in Options(st, p) <==> Consistent(Place(st.grid, p.row, p.col, v))
  {
    OptionsAllowed(st, p);
    PlaceConsistent(st.grid, p.row, p.col, v);
  }

  /** No cell ever has more than nine options, so `_find_best_cell`'s start
      value of 10 is beaten by the first worklist entry. */
  lemma OptionsAtMostNine(st: State, p: Cell)
    requires Invariant(st) && IsCell(p)
    ensures |Options(st, p)| <= 9
  {
    OptionsAllowed(st, p);
    AtMostNineDigits(Options(st, p));
  }

  /** Writing an allowed digit updates exactly the candidate sets of the
      cell's row, column and block. */
  lemma FillMatches(g: Grid, i: int, j: int, v: int,
                    rows: seq<set<int>>, cols: seq<set<int>>, blocks: seq<set<int>>)
    requires WellShaped(g) && 0 <= i < 9 && 0 <= j < 9 && g[i][j] == 0 && Allowed(g, i, j, v)
    requires CandidatesMatch(g, rows, cols, blocks)
    ensures WellShaped(Place(g, i, j, v))
    ensures CandidatesMatch(Place(g, i, j, v), rows[i := rows[i] - {v}], cols[j := cols[j] - {v}],
                            blocks[PosToBlock(i, j) := blocks[PosToBlock(i, j)] - {v}])
  {
    forall u | 0 <= u < 9
      ensures Missing(Values(Place(g, i, j, v), Row(u))) == rows[i := rows[i] - {v}][u]
      ensures Missing(Values(Place(g, i, j, v), Column(u))) == cols[j := cols[j] - {v}][u]
      ensures Missing(Values(Place(g, i, j, v), Block(u))) ==
              blocks[PosToBlock(i, j) := blocks[PosToBlock(i, j)] - {v}][u]
    {
      PlaceMissing(g, i, j, v, Row(u));
      PlaceMissing(g, i, j, v, Column(u));
      PlaceMissing(g, i, j, v, Block(u));
    }
  }

  /** The scan of the input has seen its first n cells, row-major: the grid
      seen so far is consistent, the candidate sets are exact for it and
      the worklist lists its empty cells in order. */
  ghost predicate ScannedTo(g: Grid, n: int, rows: seq<set<int>>, cols: seq<set<int>>,
                            blocks: seq<set<int>>, e: seq<Cell>)
  {
    && WellShaped(g) && 0 <= n <= 81
    && Consistent(Prefix(g, n)) && CandidatesMatch(Prefix(g, n), rows, cols, blocks)
    && e == ZerosBefore(g, n)
  }

  /** Before the scan nothing is placed: every candidate set is full, which
      is exact for the empty prefix. */
  lemma ScanStart(g: Grid, rows: seq<set<int>>, cols: seq<set<int>>, blocks: seq<set<int>>)
    requires WellShaped(g) && |rows| == |cols| == |blocks| == 9
    requires forall u :: 0 <= u < 9 ==> rows[u] == Digits && cols[u] == Digits && blocks[u] == Digits
    ensures ScannedTo(g, 0, rows, cols, blocks, [])
  {
    PrefixNone(g);
  }

  /** After the scan of all 81 cells the prefix is the whole input. */
  lemma ScanEnd(g: Grid, rows: seq<set<int>>, cols: seq<set<int>>, blocks: seq<set<int>>, e: seq<Cell>)
    requires ScannedTo(g, 81, rows, cols, blocks, e)
    ensures Consistent(g) && CandidatesMatch(g, rows, cols, blocks) && e == EmptyCells(g)
  {
    PrefixAll(g);
  }

  /** Scanning an empty cell of the input (row-major index n): the grid
      seen so far does not change and the cell joins the end of the
      worklist. */
  lemma ScanEmpty(g: Grid, n: int)
    requires WellShaped(g) && 0 <= n < 81 && g[n / 9][n % 9] == 0
    ensures Prefix(g, n + 1) == Prefix(g, n)
    ensures ZerosBefore(g, n + 1) == ZerosBefore(g, n) + [CellAt(n / 9, n % 9)]
  {
    PrefixStep(g, n);
    var h, i, j := Prefix(g, n), n / 9, n % 9;
    assert h[i][j := 0] == h[i];
    assert h[i := h[i]] == h;
  }

  /** Scanning a given v of the input (row-major index n): when the three
      candidate sets of its cell all hold v, taking v out of them keeps the
      candidate sets exact for the larger prefix; when one of them lacks v,
      the input repeats a digit in a unit or holds a value outside 0..9. */
  lemma ScanGiven(g: Grid, i: int, j: int, b: int, v: int, n: int,
                   rows: seq<set<int>>, cols: seq<set<int>>, blocks: seq<set<int>>)
    requires WellShaped(g) && 0 <= i < 9 && 0 <= j < 9 && n == i * 9 + j
    requires b == PosToBlock(i, j) && v == g[i][j] && v != 0
    requires Consistent(Prefix(g, n)) && CandidatesMatch(Prefix(g, n), rows, cols, blocks)
    ensures ZerosBefore(g, n + 1) == ZerosBefore(g, n)
    ensures v in rows[i] && v in cols[j] && v in blocks[b] ==>
              && Consistent(Prefix(g, n + 1))
              && CandidatesMatch(Prefix(g, n + 1), rows[i := rows[i] - {v}], cols[j := cols[j] - {v}],
                                 blocks[b := blocks[b] - {v}])
    ensures !(v in rows[i] && v in cols[j] && v in blocks[b]) ==> !Consistent(g)
  {
    assert n / 9 == i && n % 9 == j;
    CandidatesAllowed(Prefix(g, n), i, j, v, rows, cols, blocks);
    if Allowed(Prefix(g, n), i, j, v) {
      ScanAllowed(g, i, j, v, n, rows, cols, blocks);
    } else {
      ScanDisallowed(g, i, j, v, n);
    }
  }

  lemma ScanAllowed(g: Grid, i: int, j: int, v: int, n: int,
                    rows: seq<set<int>>, cols: seq<set<int>>, blocks: seq<set<int>>)
    requires WellShaped(g) && 0 <= i < 9 && 0 <= j < 9 && n == i * 9 + j && v == g[i][j]
    requires Consistent(Prefix(g, n)) && CandidatesMatch(Prefix(g, n), rows, cols, blocks)
    requires Allowed(Prefix(g, n), i, j, v)
    ensures Consistent(Prefix(g, n + 1))
    ensures CandidatesMatch(Prefix(g, n + 1), rows[i := rows[i] - {v}], cols[j := cols[j] - {v}],
                            blocks[PosToBlock(i, j) := blocks[PosToBlock(i, j)] - {v}])
  {
    assert n / 9 == i && n % 9 == j;
    PrefixStep(g, n);
    AllowedKeepsConsistent(Prefix(g, n), i, j, v);
    FillMatches(Prefix(g, n), i, j, v, rows, cols, blocks);
  }

  lemma ScanDisallowed(g: Grid, i: int, j: int, v: int, n: int)
    requires WellShaped(g) && 0 <= i < 9 && 0 <= j < 9 && n == i * 9 + j && v == g[i][j] && v != 0
    requires !Allowed(Prefix(g, n), i, j, v)
    ensures !Consistent(g)
  {
    assert n / 9 == i && n % 9 == j;
    PrefixStep(g, n);
    DisallowedBreaksConsistent(Prefix(g, n), i, j, v);
    PrefixConsistent(g, n + 1);
  }

  /** With exact candidate sets, a digit is allowed at a cell exactly when
      the three candidate sets of the cell hold it. */
  lemma CandidatesAllowed(g: Grid, i: int, j: int, v: int,
                          rows: seq<set<int>>, cols: seq<set<int>>, blocks: seq<set<int>>)
    requires WellShaped(g) && 0 <= i < 9 && 0 <= j < 9 && CandidatesMatch(g, rows, cols, blocks)
    ensures Allowed(g, i, j, v) <==> v in rows[i] && v in cols[j] && v in blocks[PosToBlock(i, j)]
  {
  }

  /** Emptying a filled cell gives its digit back to exactly the candidate
      sets of the cell's row, column and block. */
  lemma ClearMatches(g: Grid, i: int, j: int,
                     rows: seq<set<int>>, cols: seq<set<int>>, blocks: seq<set<int>>)
    requires WellShaped(g) && Consistent(g) && 0 <= i < 9 && 0 <= j < 9 && g[i][j] != 0
    requires CandidatesMatch(g, rows, cols, blocks)
    ensures WellShaped(Place(g, i, j, 0)) && Consistent(Place(g, i, j, 0))
    ensures var v := g[i][j];
      CandidatesMatch(Place(g, i, j, 0), rows[i := rows[i] + {v}], cols[j := cols[j] + {v}],
                      blocks[PosToBlock(i, j) := blocks[PosToBlock(i, j)] + {v}])
  {
    var v := g[i][j];
    forall u | 0 <= u < 9
      ensures Missing(Values(Place(g, i, j, 0), Row(u))) == rows[i := rows[i] + {v}][u]
      ensures Missing(Values(Place(g, i, j, 0), Column(u))) == cols[j := cols[j] + {v}][u]
      ensures Missing(Values(Place(g, i, j, 0), Block(u))) ==
              blocks[PosToBlock(i, j) := blocks[PosToBlock(i, j)] + {v}][u]
    {
      ClearMissing(g, i, j, Row(u));
      ClearMissing(g, i, j, Column(u));
      ClearMissing(g, i, j, Block(u));
    }
    ClearConsistent(g, i, j);
  }

  /** Entry m of the shortened list is entry m or m + 1 of the original,
      whichever side of the removed occurrence it lies. */
  lemma RemoveFirstAt<T>(e: seq<T>, x: T, m: int)
    requires x in e && 0 <= m < |e| - 1
    ensures RemoveFirst(e, x)[m] == e[if m < FirstIndex(e, x) then m else m + 1]
  {
    RemoveFirstSplit(e, x);
  }

  /** Removing an entry whose cell gets filled keeps the worklist exact. */
  lemma RemoveKeepsWorklist(g: Grid, e: seq<Cell>, p: Cell, v: int)
    requires WellShaped(g) && WorklistExact(g, e) && p in e && v != 0
    ensures IsCell(p) && WellShaped(Place(g, p.row, p.col, v))
    ensures WorklistExact(Place(g, p.row, p.col, v), RemoveFirst(e, p))
  {
    RemoveKeepsEntries(g, e, p, v);
    RemoveKeepsDistinct(e, p);
    RemoveKeepsEmptyCells(g, e, p, v);
  }

  lemma RemoveKeepsEntries(g: Grid, e: seq<Cell>, p: Cell, v: int)
    requires WellShaped(g) && WorklistExact(g, e) && p in e
    ensures IsCell(p) && WellShaped(Place(g, p.row, p.col, v))
    ensures forall m :: 0 <= m < |RemoveFirst(e, p)| ==>
              var q := RemoveFirst(e, p)[m];
              IsCell(q) && Place(g, p.row, p.col, v)[q.row][q.col] == 0
  {
    var h, e' := Place(g, p.row, p.col, v), RemoveFirst(e, p);
    var k := FirstIndex(e, p);
    RemoveKeepsDistinct(e, p);
    forall m | 0 <= m < |e'|
      ensures IsCell(e'[m]) && h[e'[m].row][e'[m].col] == 0
    {
      RemoveFirstAt(e, p, m);
      var q := e[if m < k then m else m + 1];
      assert e'[m] == q && q != p;
      assert IsCell(q) && g[q.row][q.col] == 0;
      assert q.row != p.row || q.col != p.col;
      assert h[q.row][q.col] == g[q.row][q.col];
    }
  }

  lemma RemoveKeepsDistinct(e: seq<Cell>, p: Cell)
    requires p in e
    requires forall a, b {:trigger Index(e[a]), Index(e[b])} :: 0 <= a < b < |e| ==> Index(e[a]) != Index(e[b])
    ensures p !in RemoveFirst(e, p)
    ensures var e' := RemoveFirst(e, p);
      forall a, b {:trigger Index(e'[a]), Index(e'[b])} :: 0 <= a < b < |e'| ==> Index(e'[a]) != Index(e'[b])
  {
    var e', k := RemoveFirst(e, p), FirstIndex(e, p);
    forall m | 0 <= m < |e'| ensures Index(e'[m]) != Index(p) {
      RemoveFirstAt(e, p, m);
      var m' := if m < k then m else m + 1;
      assert Index(e[m']) != Index(e[k]) by {
        if m' < k { assert Index(e[m']) != Index(e[k]); } else { assert Index(e[k]) != Index(e[m']); }
      }
    }
    forall a, b | 0 <= a < b < |e'| ensures Index(e'[a]) != Index(e'[b]) {
      RemoveFirstAt(e, p, a);
      RemoveFirstAt(e, p, b);
      var a', b' := if a < k then a else a + 1, if b < k then b else b + 1;
      assert Index(e[a']) != Index(e[b']);
    }
  }

  lemma RemoveKeepsEmptyCells(g: Grid, e: seq<Cell>, p: Cell, v: int)
    requires WellShaped(g) && WorklistExact(g, e) && p in e && v != 0
    ensures IsCell(p) && WellShaped(Place(g, p.row, p.col, v))
    ensures forall a, b :: 0 <= a < 9 && 0 <= b < 9 && Place(g, p.row, p.col, v)[a][b] == 0 ==>
              CellAt(a, b) in RemoveFirst(e, p)
  {
    var h, e' := Place(g, p.row, p.col, v), RemoveFirst(e, p);
    var k := FirstIndex(e, p);
    forall a, b | 0 <= a < 9 && 0 <= b < 9 && h[a][b] == 0
      ensures CellAt(a, b) in e'
    {
      assert (a, b) != (p.row, p.col);
      var m :| 0 <= m < |e| && e[m] == CellAt(a, b);
      assert m != k;
      var m' := if m < k then m else m - 1;
      RemoveFirstAt(e, p, m');
    }
  }

  /** `_set_cell` with one of the cell's options keeps the invariant and
      shortens the worklist by one. */
  lemma AssignKeepsInvariant(st: State, p: Cell, v: int)
    requires Invariant(st) && p in st.empty && v in Options(st, p)
    ensures Invariant(Assign(st, p, v))
    ensures |Assign(st, p, v).empty| == |st.empty| - 1
  {
    var g, i, j := st.grid, p.row, p.col;
    OptionsAllowed(st, p);
    AllowedKeepsConsistent(g, i, j, v);
    FillMatches(g, i, j, v, st.rows, st.cols, st.blocks);
    RemoveKeepsWorklist(g, st.empty, p, v);
  }

  /** `_clear_cell` of a filled cell keeps the invariant. */
  lemma UnassignKeepsInvariant(st: State, p: Cell, v: int)
    requires Invariant(st) && IsCell(p) && st.grid[p.row][p.col] == v && v != 0
    ensures Invariant(Unassign(st, p, v))
  {
    ClearMatches(st.grid, p.row, p.col, st.rows, st.cols, st.blocks);
    AppendKeepsWorklist(st.grid, st.empty, p);
  }

  /** Emptying a filled cell and appending it keeps the worklist exact. */
  lemma AppendKeepsWorklist(g: Grid, e: seq<Cell>, p: Cell)
    requires WellShaped(g) && WorklistExact(g, e) && IsCell(p) && g[p.row][p.col] != 0
    ensures WorklistExact(Place(g, p.row, p.col, 0), e + [p])
  {
    var i, j := p.row, p.col;
    var h, e' := Place(g, i, j, 0), e + [p];
    forall k | 0 <= k < |e'| ensures IsCell(e'[k]) && h[e'[k].row][e'[k].col] == 0 {
      if k < |e| {
        var q := e[k];
        assert g[q.row][q.col] == 0;
        assert e'[k] == q;
      }
    }
    forall a, b | 0 <= a < b < |e'| ensures Index(e'[a]) != Index(e'[b]) {
      if b == |e| {
        var q := e[a];
        assert g[q.row][q.col] == 0;
        assert Index(e'[a]) != Index(p);
      } else {
        assert Index(e[a]) != Index(e[b]);
      }
    }
    forall a, b | 0 <= a < 9 && 0 <= b < 9 && h[a][b] == 0
      ensures CellAt(a, b) in e'
    {
      if (a, b) != (i, j) {
        assert CellAt(a, b) in e;
      } else {
        assert e'[|e|] == CellAt(a, b);
      }
    }
  }

  /** States that agree up to the order of the worklist have worklists of
      the same length. */
  lemma RestoredSameLength(st0: State, st: State)
    requires Restored(st0, st)
    ensures |st.empty| == |st0.empty|
  {
    assert |multiset(st.empty)| == |multiset(st0.empty)|;
  }

  /** Assigning the same cell in two states that agree up to the order of
      the worklist gives states that still agree up to that order. */
  lemma AssignRespectsRestored(st0: State, st: State, p: Cell, v: int)
    requires HasFamilies(st0) && IsCell(p) && p in st0.empty && Restored(st0, st)
    ensures p in st.empty && Restored(Assign(st0, p, v), Assign(st, p, v))
  {
    assert p in multiset(st.empty);
    RemoveFirstMultiset(st0.empty, p);
    RemoveFirstMultiset(st.empty, p);
  }

  /** `_clear_cell(pos, v)` after `_set_cell(pos, v)` (and any search that
      restored the state in between) gives back the grid and the candidate
      sets, and the worklist up to order. */
  lemma UnassignUndoesAssign(st0: State, st1: State, p: Cell, v: int)
    requires HasFamilies(st0) && IsCell(p) && p in st0.empty && st0.grid[p.row][p.col] == 0
    requires v in Options(st0, p)
    requires Restored(Assign(st0, p, v), st1)
    ensures HasFamilies(st1) && Restored(st0, Unassign(st1, p, v))
  {
    var g, i, j := st0.grid, p.row, p.col;
    var st2 := Unassign(st1, p, v);
    assert st2.grid == g by {
      assert st2.grid[i] == g[i];
    }
    assert st2.rows == st0.rows by {
      assert st2.rows[i] == st0.rows[i];
    }
    assert st2.cols == st0.cols by {
      assert st2.cols[j] == st0.cols[j];
    }
    assert st2.blocks == st0.blocks by {
      assert st2.blocks[p.block] == st0.blocks[p.block];
    }
    RemoveFirstMultiset(st0.empty, p);
  }

  /** An empty worklist means a solved grid. */
  lemma EmptyWorklistSolved(st: State)
    requires Invariant(st) && st.empty == []
    ensures Complete(st.grid) && IsSolved(st.grid)
  {
    forall i, j | 0 <= i < 9 && 0 <= j < 9
      ensures st.grid[i][j] != 0
    {
      var c := CellAt(i, j);
      assert st.grid[i][j] == 0 ==> c in st.empty;
    }
    CompleteConsistentIsSolved(st.grid);
  }
}
