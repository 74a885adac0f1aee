/**
 * Geometry and validity of a 9x9 Sudoku grid as the solver in
 * sudoku_solver.py holds it: a list of 9 rows of 9 integers, 0 meaning an
 * empty cell. A unit is a row, a column or a 3x3 block; its values are read
 * as a sequence of 9 cells so that rows, columns and blocks share one proof.
 */
module Grid {

  type Grid = seq<seq<int>>

  /** The digits a filled cell may hold; the source's `set(range(1, 10))`. */
  const Digits: set<int> := {1, 2, 3, 4, 5, 6, 7, 8, 9}

  /** Exactly 9 rows of exactly 9 cells each. */
  predicate WellShaped(g: Grid) {
    |g| == 9 && forall i :: 0 <= i < 9 ==> |g[i]| == 9
  }

  /** `_pos_to_block`: the block of cell (i, j), blocks numbered row-major. */
  function PosToBlock(i: int, j: int): (b: int)
    requires 0 <= i < 9 && 0 <= j < 9
    ensures 0 <= b < 9
    ensures b / 3 == i / 3 && b % 3 == j / 3
  {
    (i / 3) * 3 + j / 3
  }

  datatype Unit = Row(index: int) | Column(index: int) | Block(index: int)

  predicate IsUnit(un: Unit) {
    0 <= un.index < 9
  }

  /** Row of the m-th cell of a unit (a block is read row by row). */
  function CellRow(un: Unit, m: int): int {
    match un
    case Row(u) => u
    case Column(_) => m
    case Block(b) => (b / 3) * 3 + m / 3
  }

  /** Column of the m-th cell of a unit. */
  function CellCol(un: Unit, m: int): int {
    match un
    case Row(_) => m
    case Column(u) => u
    case Block(b) => (b % 3) * 3 + m % 3
  }

  /** Whether cell (i, j) lies in the unit. */
  predicate Contains(un: Unit, i: int, j: int)
    requires 0 <= i < 9 && 0 <= j < 9
  {
    match un
    case Row(u) => i == u
    case Column(u) => j == u
    case Block(b) => PosToBlock(i, j) == b
  }

  /** Where cell (i, j) sits among the 9 cells of a unit that contains it. */
  function Slot(un: Unit, i: int, j: int): int {
    match un
    case Row(_) => j
    case Column(_) => i
    case Block(_) => (i % 3) * 3 + j % 3
  }

  /** The m-th cell of a unit is on the board, and it is (i, j) exactly when
      the unit contains (i, j) and m is that cell's slot. */
  lemma CellOfUnit(un: Unit, m: int, i: int, j: int)
    requires IsUnit(un) && 0 <= m < 9 && 0 <= i < 9 && 0 <= j < 9
    ensures 0 <= CellRow(un, m) < 9 && 0 <= CellCol(un, m) < 9
    ensures CellRow(un, m) == i && CellCol(un, m) == j
            <==> Contains(un, i, j) && m == Slot(un, i, j)
  {
    if un.Block? {
      var b := un.index;
      assert PosToBlock(i, j) == b <==> (i / 3 == b / 3 && j / 3 == b % 3);
    }
  }

  /** The values of a unit's 9 cells, in slot order. */
  function Values(g: Grid, un: Unit): (s: seq<int>)
    requires WellShaped(g) && IsUnit(un)
    ensures |s| == 9
  {
    seq(9, m requires 0 <= m < 9 =>
      CellOfUnit(un, m, 0, 0);
      g[CellRow(un, m)][CellCol(un, m)])
  }

  /** No nonzero value occurs twice. */
  predicate NoDuplicates(s: seq<int>) {
    forall a, b :: 0 <= a < b < |s| && s[a] != 0 ==> s[a] != s[b]
  }

  /** Every cell holds 0..9 and no row, column or block repeats a digit. */
  ghost predicate Consistent(g: Grid)
    requires WellShaped(g)
  {
    && (forall i, j :: 0 <= i < 9 && 0 <= j < 9 ==> 0 <= g[i][j] <= 9)
    && (forall un :: IsUnit(un) ==> NoDuplicates(Values(g, un)))
  }

  /** No cell is empty. */
  predicate Complete(g: Grid)
    requires WellShaped(g)
  {
    forall i, j :: 0 <= i < 9 && 0 <= j < 9 ==> g[i][j] != 0
  }

  /** The candidate set of a unit: the digits not yet placed in it. */
  function Missing(s: seq<int>): set<int> {
    set d | d in Digits && d !in s
  }

  /** The grid with cell (i, j) overwritten by v. */
  function Place(g: Grid, i: int, j: int, v: int): Grid
    requires WellShaped(g) && 0 <= i < 9 && 0 <= j < 9
  {
    g[i := g[i][j := v]]
  }

  /** A unit's values after writing v at (i, j): the unit's slot for (i, j)
      changes when it contains (i, j), and nothing else does. */
  lemma PlaceValues(g: Grid, i: int, j: int, v: int, un: Unit)
    requires WellShaped(g) && 0 <= i < 9 && 0 <= j < 9 && IsUnit(un)
    ensures WellShaped(Place(g, i, j, v))
    ensures Values(Place(g, i, j, v), un) ==
            if Contains(un, i, j) then Values(g, un)[Slot(un, i, j) := v] else Values(g, un)
  {
    var h := Place(g, i, j, v);
    forall m | 0 <= m < 9
      ensures Values(h, un)[m] ==
              (if Contains(un, i, j) then Values(g, un)[Slot(un, i, j) := v] else Values(g, un))[m]
    {
      CellOfUnit(un, m, i, j);
      if Contains(un, i, j) {
        CellOfUnit(un, Slot(un, i, j), i, j);
      }
    }
  }

  /** Filling an empty slot with a candidate removes exactly that candidate. */
  lemma MissingAfterFill(s: seq<int>, k: int, v: int)
    requires 0 <= k < |s| && s[k] == 0 && v in Missing(s)
    ensures Missing(s[k := v]) == Missing(s) - {v}
    ensures NoDuplicates(s) ==> NoDuplicates(s[k := v])
  {
    forall d | d in Digits
      ensures d in s[k := v] <==> d == v || d in s
    {
      if d in s && d != v {
        var m :| 0 <= m < |s| && s[m] == d;
        assert s[k := v][m] == d;
      }
      if d in s[k := v] && d != v {
        var m :| 0 <= m < |s| && s[k := v][m] == d;
        assert s[m] == d;
      }
      if d == v {
        assert s[k := v][k] == d;
      }
    }
  }

  /** Writing a nonzero value that the sequence already holds creates a repeat. */
  lemma FillRepeats(s: seq<int>, k: int, v: int)
    requires 0 <= k < |s| && s[k] == 0 && v != 0 && v in s
    ensures !NoDuplicates(s[k := v])
  {
    var m :| 0 <= m < |s| && s[m] == v;
    var t := s[k := v];
    assert m != k && t[m] == v && t[k] == v;
    if m < k {
      assert t[m] != 0 && t[m] == t[k];
    } else {
      assert t[k] != 0 && t[k] == t[m];
    }
  }

  /** Emptying a slot of a repeat-free sequence gives its digit back. */
  lemma MissingAfterClear(s: seq<int>, k: int)
    requires 0 <= k < |s| && 1 <= s[k] <= 9 && NoDuplicates(s)
    ensures Missing(s[k := 0]) == Missing(s) + {s[k]}
    ensures NoDuplicates(s[k := 0])
  {
    var v := s[k];
    assert v in Digits;
    forall d | d in Digits
      ensures d in s[k := 0] <==> d != v && d in s
    {
      if d in s[k := 0] {
        var m :| 0 <= m < |s| && s[k := 0][m] == d;
        assert m != k && s[m] == d;
        if m < k { assert s[m] != s[k]; } else { assert s[k] != s[m]; }
      }
      if d != v && d in s {
        var m :| 0 <= m < |s| && s[m] == d;
        assert m != k && s[k := 0][m] == d;
      }
    }
  }

  /** Whether v is a candidate of the row, the column and the block of (i, j). */
  predicate Allowed(g: Grid, i: int, j: int, v: int)
    requires WellShaped(g) && 0 <= i < 9 && 0 <= j < 9
  {
    && v in Missing(Values(g, Row(i)))
    && v in Missing(Values(g, Column(j)))
    && v in Missing(Values(g, Block(PosToBlock(i, j))))
  }

  /** Writing a digit into an empty cell of a consistent grid keeps it
      consistent exactly when the digit is a candidate of the cell's row,
      column and block. */
  lemma PlaceConsistent(g: Grid, i: int, j: int, v: int)
    requires WellShaped(g) && Consistent(g) && 0 <= i < 9 && 0 <= j < 9
    requires g[i][j] == 0 && v != 0
    ensures WellShaped(Place(g, i, j, v))
    ensures Consistent(Place(g, i, j, v)) <==> Allowed(g, i, j, v)
  {
    if Allowed(g, i, j, v) {
      AllowedKeepsConsistent(g, i, j, v);
    } else {
      DisallowedBreaksConsistent(g, i, j, v);
    }
  }

  lemma AllowedKeepsConsistent(g: Grid, i: int, j: int, v: int)
    requires WellShaped(g) && Consistent(g) && 0 <= i < 9 && 0 <= j < 9
    requires g[i][j] == 0 && Allowed(g, i, j, v)
    ensures WellShaped(Place(g, i, j, v)) && Consistent(Place(g, i, j, v))
  {
    var h := Place(g, i, j, v);
    forall un | IsUnit(un)
      ensures NoDuplicates(Values(h, un))
    {
      PlaceValues(g, i, j, v, un);
      if Contains(un, i, j) {
        CellOfUnit(un, Slot(un, i, j), i, j);
        assert un == Row(i) || un == Column(j) || un == Block(PosToBlock(i, j));
        MissingAfterFill(Values(g, un), Slot(un, i, j), v);
      }
    }
  }

  lemma DisallowedBreaksConsistent(g: Grid, i: int, j: int, v: int)
    requires WellShaped(g) && 0 <= i < 9 && 0 <= j < 9
    requires g[i][j] == 0 && v != 0 && !Allowed(g, i, j, v)
    ensures WellShaped(Place(g, i, j, v)) && !Consistent(Place(g, i, j, v))
  {
    var h := Place(g, i, j, v);
    assert h[i][j] == v;
    if v in Digits {
      var un :| un in [Row(i), Column(j), Block(PosToBlock(i, j))] && v in Values(g, un);
      assert un == Row(i) || un == Column(j) || un == Block(PosToBlock(i, j));
      CellOfUnit(un, Slot(un, i, j), i, j);
      PlaceValues(g, i, j, v, un);
      FillRepeats(Values(g, un), Slot(un, i, j), v);
      assert !NoDuplicates(Values(h, un));
    }
  }

  /** Filling a cell with a candidate of its row, column and block takes the
      digit out of exactly those three candidate sets. */
  lemma PlaceMissing(g: Grid, i: int, j: int, v: int, un: Unit)
    requires WellShaped(g) && 0 <= i < 9 && 0 <= j < 9 && IsUnit(un)
    requires g[i][j] == 0 && Allowed(g, i, j, v)
    ensures WellShaped(Place(g, i, j, v))
    ensures Missing(Values(Place(g, i, j, v), un)) ==
            if Contains(un, i, j) then Missing(Values(g, un)) - {v} else Missing(Values(g, un))
  {
    PlaceValues(g, i, j, v, un);
    if Contains(un, i, j) {
      CellOfUnit(un, Slot(un, i, j), i, j);
      assert un == Row(i) || un == Column(j) || un == Block(PosToBlock(i, j));
      MissingAfterFill(Values(g, un), Slot(un, i, j), v);
    }
  }

  /** The slot of a filled cell in a unit containing it, emptied. */
  lemma ClearSlot(g: Grid, i: int, j: int, un: Unit)
    requires WellShaped(g) && Consistent(g) && 0 <= i < 9 && 0 <= j < 9 && IsUnit(un)
    requires g[i][j] != 0 && Contains(un, i, j)
    ensures 0 <= Slot(un, i, j) < 9 && Values(g, un)[Slot(un, i, j)] == g[i][j]
    ensures Missing(Values(g, un)[Slot(un, i, j) := 0]) == Missing(Values(g, un)) + {g[i][j]}
    ensures NoDuplicates(Values(g, un)[Slot(un, i, j) := 0])
  {
    var s, k := Values(g, un), Slot(un, i, j);
    CellOfUnit(un, k, i, j);
    assert s[k] == g[i][j] && 1 <= g[i][j] <= 9;
    assert NoDuplicates(s);
    MissingAfterClear(s, k);
  }

  /** Emptying a filled cell of a consistent grid keeps it consistent. */
  lemma ClearConsistent(g: Grid, i: int, j: int)
    requires WellShaped(g) && Consistent(g) && 0 <= i < 9 && 0 <= j < 9
    requires g[i][j] != 0
    ensures WellShaped(Place(g, i, j, 0)) && Consistent(Place(g, i, j, 0))
  {
    var h := Place(g, i, j, 0);
    forall u | IsUnit(u)
      ensures NoDuplicates(Values(h, u))
    {
      PlaceValues(g, i, j, 0, u);
      if Contains(u, i, j) {
        ClearSlot(g, i, j, u);
      }
    }
  }

  /** Emptying a filled cell of a consistent grid gives its digit back to
      exactly the row, column and block of the cell. */
  lemma ClearMissing(g: Grid, i: int, j: int, un: Unit)
    requires WellShaped(g) && Consistent(g) && 0 <= i < 9 && 0 <= j < 9 && IsUnit(un)
    requires g[i][j] != 0
    ensures WellShaped(Place(g, i, j, 0))
    ensures Missing(Values(Place(g, i, j, 0), un)) ==
            if Contains(un, i, j) then Missing(Values(g, un)) + {g[i][j]} else Missing(Values(g, un))
  {
    PlaceValues(g, i, j, 0, un);
    if Contains(un, i, j) {
      ClearSlot(g, i, j, un);
    }
  }

  /** A unit holding every digit exactly once. */
  ghost predicate IsDigitPermutation(s: seq<int>) {
    |s| == 9 && forall d :: d in s <==> d in Digits
  }

  /** A solved grid: every row, column and block is a permutation of 1..9. */
  ghost predicate IsSolved(g: Grid) {
    WellShaped(g) && forall un :: IsUnit(un) ==> IsDigitPermutation(Values(g, un))
  }

  /** g keeps every nonzero cell of g0. */
  predicate Extends(g0: Grid, g: Grid)
    requires WellShaped(g0) && WellShaped(g)
  {
    forall i, j :: 0 <= i < 9 && 0 <= j < 9 && g0[i][j] != 0 ==> g[i][j] == g0[i][j]
  }

  /** g is a solution of the puzzle g0: solved, and keeping g0's givens. */
  ghost predicate IsSolutionOf(g0: Grid, g: Grid) {
    WellShaped(g0) && IsSolved(g) && Extends(g0, g)
  }

  function Elems(s: seq<int>): set<int> {
    set x | x in s
  }

  /** A sequence with no repeated nonzero value and no 0 has as many distinct
      elements as it has positions. */
  lemma {:induction false} DistinctElems(s: seq<int>)
    requires NoDuplicates(s) && 0 !in s
    ensures |Elems(s)| == |s|
  {
    if s != [] {
      var n := |s| - 1;
      var t := s[..n];
      assert NoDuplicates(t) by {
        forall a, b | 0 <= a < b < |t| && t[a] != 0 ensures t[a] != t[b] {
          assert t[a] == s[a] && t[b] == s[b];
        }
      }
      DistinctElems(t);
      assert Elems(s) == Elems(t) + {s[n]} by {
        assert s == t + [s[n]];
      }
      assert s[n] !in Elems(t) by {
        forall a | 0 <= a < n ensures t[a] != s[n] {
          assert s[a] != 0 && s[a] != s[n];
        }
      }
    }
  }

  lemma SubsetOfSameSize(a: set<int>, b: set<int>)
    requires a <= b && |a| == |b|
    ensures a == b
  {
    assert b == a + (b - a);
    assert |b - a| == 0;
  }

  /** A set of digits has at most nine members. */
  lemma AtMostNineDigits(a: set<int>)
    requires a <= Digits
    ensures |a| <= 9
  {
    assert |Digits| == 9;
    assert Digits == a + (Digits - a);
  }

  /** Pigeonhole: nine distinct digits are all nine digits. */
  lemma DistinctDigitsArePermutation(s: seq<int>)
    requires |s| == 9 && (forall k :: 0 <= k < 9 ==> 1 <= s[k] <= 9) && NoDuplicates(s)
    ensures IsDigitPermutation(s)
  {
    assert 0 !in s;
    DistinctElems(s);
    assert Elems(s) <= Digits by {
      forall x | x in Elems(s) ensures x in Digits {
        var k :| 0 <= k < 9 && s[k] == x;
        assert 1 <= x <= 9;
      }
    }
    assert |Digits| == 9;
    SubsetOfSameSize(Elems(s), Digits);
    forall d | d in Digits ensures d in s {
      assert d in Elems(s);
    }
  }

  /** A consistent grid without empty cells is solved. */
  lemma CompleteConsistentIsSolved(g: Grid)
    requires WellShaped(g) && Consistent(g) && Complete(g)
    ensures IsSolved(g)
  {
    forall un | IsUnit(un)
      ensures IsDigitPermutation(Values(g, un))
    {
      var s := Values(g, un);
      forall k | 0 <= k < 9 ensures 1 <= s[k] <= 9 {
        CellOfUnit(un, k, 0, 0);
      }
      DistinctDigitsArePermutation(s);
    }
  }

  /** Writing into an empty cell keeps every given. */
  lemma PlaceExtends(g0: Grid, g: Grid, i: int, j: int, v: int)
    requires WellShaped(g0) && WellShaped(g) && Extends(g0, g)
    requires 0 <= i < 9 && 0 <= j < 9 && g[i][j] == 0
    ensures WellShaped(Place(g, i, j, v)) && Extends(g0, Place(g, i, j, v))
  {
  }

  /** The grid as it stands once the cells before row-major index n have
      been scanned: those keep their value, the rest are empty. */
  function Prefix(g: Grid, n: int): (h: Grid)
    requires WellShaped(g)
    ensures WellShaped(h)
  {
    seq(9, i requires 0 <= i < 9 =>
      seq(9, j requires 0 <= j < 9 => if i * 9 + j < n then g[i][j] else 0))
  }

  /** Scanning one more cell writes that cell's value into an empty cell. */
  lemma PrefixStep(g: Grid, n: int)
    requires WellShaped(g) && 0 <= n < 81
    ensures Prefix(g, n)[n / 9][n % 9] == 0
    ensures Prefix(g, n + 1) == Place(Prefix(g, n), n / 9, n % 9, g[n / 9][n % 9])
  {
    var h, h' := Prefix(g, n), Place(Prefix(g, n), n / 9, n % 9, g[n / 9][n % 9]);
    forall i | 0 <= i < 9 ensures Prefix(g, n + 1)[i] == h'[i] {
      forall j | 0 <= j < 9 ensures Prefix(g, n + 1)[i][j] == h'[i][j] {
        assert i * 9 + j == n <==> i == n / 9 && j == n % 9;
      }
    }
  }

  /** Once all 81 cells are scanned the grid is the input grid. */
  lemma PrefixAll(g: Grid)
    requires WellShaped(g)
    ensures Prefix(g, 81) == g
  {
    forall i | 0 <= i < 9 ensures Prefix(g, 81)[i] == g[i] {
    }
  }

  /** Before the scan every unit is empty, so every digit is a candidate. */
  lemma PrefixNone(g: Grid)
    requires WellShaped(g)
    ensures Consistent(Prefix(g, 0))
    ensures forall un :: IsUnit(un) ==> Missing(Values(Prefix(g, 0), un)) == Digits
  {
    var h := Prefix(g, 0);
    forall un | IsUnit(un)
      ensures NoDuplicates(Values(h, un)) && Missing(Values(h, un)) == Digits
    {
      EmptyUnit(h, un);
    }
  }

  /** A unit of a grid whose cells are all empty. */
  lemma EmptyUnit(h: Grid, un: Unit)
    requires WellShaped(h) && IsUnit(un) && forall i, j :: 0 <= i < 9 && 0 <= j < 9 ==> h[i][j] == 0
    ensures NoDuplicates(Values(h, un)) && Missing(Values(h, un)) == Digits
  {
    forall m | 0 <= m < 9 ensures Values(h, un)[m] == 0 {
      CellOfUnit(un, m, 0, 0);
    }
    MissingOfEmpty(Values(h, un));
  }

  /** A unit with no digit placed misses every digit. */
  lemma MissingOfEmpty(s: seq<int>)
    requires forall m :: 0 <= m < |s| ==> s[m] == 0
    ensures Missing(s) == Digits
  {
    assert 0 !in Digits;
  }

  /** Emptying cells cannot create a repeat. */
  lemma MaskedNoDuplicates(s: seq<int>, t: seq<int>)
    requires NoDuplicates(s) && |t| == |s|
    requires forall m :: 0 <= m < |t| ==> t[m] == s[m] || t[m] == 0
    ensures NoDuplicates(t)
  {
  }

  /** Every scanned prefix of a consistent grid is consistent. */
  lemma PrefixConsistent(g: Grid, n: int)
    requires WellShaped(g)
    ensures Consistent(g) ==> Consistent(Prefix(g, n))
  {
    if Consistent(g) {
      ConsistentPrefix(g, n);
    }
  }

  lemma ConsistentPrefix(g: Grid, n: int)
    requires WellShaped(g) && Consistent(g)
    ensures Consistent(Prefix(g, n))
  {
    var h := Prefix(g, n);
    forall un | IsUnit(un)
      ensures NoDuplicates(Values(h, un))
    {
      forall m | 0 <= m < 9
        ensures Values(h, un)[m] == Values(g, un)[m] || Values(h, un)[m] == 0
      {
        CellOfUnit(un, m, 0, 0);
      }
      MaskedNoDuplicates(Values(g, un), Values(h, un));
    }
  }
}
