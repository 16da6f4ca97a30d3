/** The board of the generator: an N x N grid of integers (0 = empty cell),
    with N = B * B for the block size B. This module holds the constraint
    regions (row, column, B x B block), the legality and consistency
    predicates, and cell counting. */
module Board {

  type Grid = seq<seq<int>>

  datatype Option<T> = None | Some(value: T)

  /** `g` has `n` rows of `n` cells each. */
  predicate IsSquare(g: Grid, n: nat)
  {
    |g| == n && forall r :: 0 <= r < n ==> |g[r]| == n
  }

  /** The all-empty n x n grid (`[[0] * N for _ in range(N)]`). */
  function EmptyGrid(n: nat): (g: Grid)
    ensures IsSquare(g, n)
    ensures forall r, c :: 0 <= r < n && 0 <= c < n ==> g[r][c] == 0
  {
    seq(n, _ => seq(n, _ => 0))
  }

  /** `g` with cell (r, c) set to `v` (`grid[r][c] = v`). */
  function Update(g: Grid, r: nat, c: nat, v: int): Grid
    requires r < |g| && c < |g[r]|
  {
    g[r := g[r][c := v]]
  }

  /** Cells (r1, c1) and (r2, c2) share a row, a column or a B x B block. */
  predicate SameUnit(b: nat, r1: int, c1: int, r2: int, c2: int)
    requires b > 0
  {
    r1 == r2 || c1 == c2 || (r1 / b == r2 / b && c1 / b == c2 / b)
  }

  /** Value `v` occurs nowhere in the row, the column or the block of (r, c). */
  predicate IsLegal(g: Grid, b: nat, r: int, c: int, v: int)
    requires b > 0
  {
    forall r2, c2 :: 0 <= r2 < |g| && 0 <= c2 < |g[r2]| && SameUnit(b, r, c, r2, c2) ==> g[r2][c2] != v
  }

  /** No row, column or block holds the same nonzero value twice. */
  predicate Consistent(g: Grid, b: nat)
    requires b > 0
  {
    forall r1, c1, r2, c2 ::
      0 <= r1 < |g| && 0 <= c1 < |g[r1]| && 0 <= r2 < |g| && 0 <= c2 < |g[r2]| &&
      (r1 != r2 || c1 != c2) && SameUnit(b, r1, c1, r2, c2) && g[r1][c1] != 0
      ==> g[r1][c1] != g[r2][c2]
  }

  /** No cell is empty. */
  predicate IsComplete(g: Grid)
  {
    forall r, c :: 0 <= r < |g| && 0 <= c < |g[r]| ==> g[r][c] != 0
  }

  /** (i, j) is the first empty cell of `g` in row-major order, the cell the
      searches work on next. */
  predicate IsFirstEmpty(g: Grid, i: int, j: int)
  {
    0 <= i < |g| && 0 <= j < |g[i]| && g[i][j] == 0 &&
    forall r, c :: 0 <= r < |g| && 0 <= c < |g[r]| && (r < i || (r == i && c < j)) ==> g[r][c] != 0
  }

  /** Every cell holds a value in [0, n]. */
  predicate InDomain(g: Grid, n: nat)
  {
    forall r, c :: 0 <= r < |g| && 0 <= c < |g[r]| ==> 0 <= g[r][c] <= n
  }

  /** `g` has the shape of `h` and agrees with every nonzero cell of `h`. */
  predicate Extends(g: Grid, h: Grid)
  {
    |g| == |h| && (forall r :: 0 <= r < |h| ==> |g[r]| == |h[r]|) &&
    forall r, c :: 0 <= r < |h| && 0 <= c < |h[r]| && h[r][c] != 0 ==> g[r][c] == h[r][c]
  }

  /** A solved board: full, every value in 1..N, no duplicate in any region. */
  predicate IsSolution(g: Grid, b: nat)
    requires b > 0
  {
    IsSquare(g, b * b) &&
    (forall r, c :: 0 <= r < b * b && 0 <= c < b * b ==> 1 <= g[r][c] <= b * b) &&
    Consistent(g, b)
  }

  /** `s` is a solution that agrees with every nonzero cell of `g`. */
  predicate SolutionOf(s: Grid, g: Grid, b: nat)
    requires b > 0
  {
    IsSolution(s, b) && Extends(s, g)
  }

  /** Some solution agrees with every nonzero cell of `g`. */
  ghost predicate Completable(g: Grid, b: nat)
    requires b > 0
  {
    exists s :: SolutionOf(s, g, b)
  }

  /** A board with an empty cell has a first one in row-major order. */
  lemma FirstEmptyExists(g: Grid)
    requires !IsComplete(g)
    ensures exists i, j :: IsFirstEmpty(g, i, j)
  {
    var i := 0;
    while forall c :: 0 <= c < |g[i]| ==> g[i][c] != 0
      invariant 0 <= i < |g|
      invariant forall r, c :: 0 <= r < i && 0 <= c < |g[r]| ==> g[r][c] != 0
      invariant exists r, c :: i <= r < |g| && 0 <= c < |g[r]| && g[r][c] == 0
      decreases |g| - i
    {
      i := i + 1;
    }
    var j := 0;
    while g[i][j] != 0
      invariant 0 <= j < |g[i]|
      invariant forall c :: 0 <= c < j ==> g[i][c] != 0
      invariant exists c :: j <= c < |g[i]| && g[i][c] == 0
      decreases |g[i]| - j
    {
      j := j + 1;
    }
    assert IsFirstEmpty(g, i, j);
  }

  /** The first empty cell is unique. */
  lemma FirstEmptyUnique(g: Grid, i: int, j: int, i2: int, j2: int)
    requires IsFirstEmpty(g, i, j) && IsFirstEmpty(g, i2, j2)
    ensures i == i2 && j == j2
  {
  }

  // ---------------------------------------------------------------------
  // Block arithmetic: the block origin (r - r % B) used by the legality scan

  lemma MulAtLeast(b: int, d: int)
    requires b > 0
    ensures d >= 1 ==> b * d >= b
  {
    if d >= 1 {
      assert b * d == b * (d - 1) + b;
    }
  }

  lemma MulMonotone(b: int, x: int, y: int)
    requires b >= 0
    ensures x <= y ==> b * x <= b * y
  {
    assert b * y - b * x == b * (y - x);
  }

  /** Row r2 is in the block-row of r exactly when it lies in
      [r - r % b, r - r % b + b). */
  lemma BlockOrigin(b: nat, r: int, r2: int)
    requires b > 0 && r >= 0 && r2 >= 0
    ensures r2 / b == r / b <==> r - r % b <= r2 < r - r % b + b
  {
    var q, q2 := r / b, r2 / b;
    assert r - r % b == b * q;
    assert r2 == b * q2 + r2 % b;
    MulAtLeast(b, q2 - q);
    MulAtLeast(b, q - q2);
    assert b * (q2 - q) == b * q2 - b * q;
  }

  /** For 0 <= r < b * b, the block scan starting at r - r % b stays inside
      the grid. */
  lemma BlockWithinGrid(b: nat, r: int)
    requires b > 0 && 0 <= r < b * b
    ensures 0 <= r - r % b && r - r % b + b <= b * b
  {
    var q := r / b;
    assert r - r % b == b * q;
    MulMonotone(b, b, q);
    MulMonotone(b, q + 1, b);
    assert b * (q + 1) == b * q + b;
  }

  /** `v` occurs in row r (the scan `num in grid[linha]`). */
  predicate InRow(g: Grid, r: nat, v: int)
    requires r < |g|
  {
    v in g[r]
  }

  /** `v` occurs in column c (the scan over every row). */
  predicate InColumn(g: Grid, c: nat, v: int)
  {
    exists i :: 0 <= i < |g| && c < |g[i]| && g[i][c] == v
  }

  /** `v` occurs in the b x b block scanned from the origin
      (r - r % b, c - c % b). */
  predicate InBlock(g: Grid, b: nat, r: nat, c: nat, v: int)
    requires b > 0
  {
    exists r2, c2 :: r - r % b <= r2 < r - r % b + b && c - c % b <= c2 < c - c % b + b &&
      0 <= r2 < |g| && 0 <= c2 < |g[r2]| && g[r2][c2] == v
  }

  /** A cell lies in the scanned block exactly when it shares the block of
      (r, c) in the sense of `SameUnit`. */
  lemma InScannedBlock(b: nat, r: nat, c: nat, r2: nat, c2: nat)
    requires b > 0
    ensures (r - r % b <= r2 < r - r % b + b && c - c % b <= c2 < c - c % b + b) <==> (r2 / b == r / b && c2 / b == c / b)
  {
    BlockOrigin(b, r, r2);
    BlockOrigin(b, c, c2);
  }

  /** A value found by any of the three scans is not legal. */
  lemma ScanHitIllegal(g: Grid, b: nat, r: nat, c: nat, v: int)
    requires b > 0 && r < |g|
    ensures InRow(g, r, v) || InColumn(g, c, v) || InBlock(g, b, r, c, v) ==> !IsLegal(g, b, r, c, v)
  {
    if InRow(g, r, v) {
      var k :| 0 <= k < |g[r]| && g[r][k] == v;
      assert SameUnit(b, r, c, r, k);
    } else if InColumn(g, c, v) {
      var i :| 0 <= i < |g| && c < |g[i]| && g[i][c] == v;
      assert SameUnit(b, r, c, i, c);
    } else if InBlock(g, b, r, c, v) {
      var r2, c2 :| r - r % b <= r2 < r - r % b + b && c - c % b <= c2 < c - c % b + b &&
        0 <= r2 < |g| && 0 <= c2 < |g[r2]| && g[r2][c2] == v;
      InScannedBlock(b, r, c, r2, c2);
      assert SameUnit(b, r, c, r2, c2);
    }
  }

  /** A value no scan finds is legal. */
  lemma NoScanHitLegal(g: Grid, b: nat, r: nat, c: nat, v: int)
    requires b > 0 && r < |g| && !InRow(g, r, v) && !InColumn(g, c, v) && !InBlock(g, b, r, c, v)
    ensures IsLegal(g, b, r, c, v)
  {
    forall r2, c2 | 0 <= r2 < |g| && 0 <= c2 < |g[r2]| && SameUnit(b, r, c, r2, c2)
      ensures g[r2][c2] != v
    {
      if r2 == r {
        assert g[r][c2] in g[r];
      } else if c2 != c {
        InScannedBlock(b, r, c, r2, c2);
      }
    }
  }

  /** The declarative legality predicate agrees with the three scans of the
      legality check: `v` is legal at (r, c) exactly when it is in neither
      the row, nor the column, nor the block at the scanned origin. */
  lemma LegalIffNoScanHit(g: Grid, b: nat, r: nat, c: nat, v: int)
    requires b > 0 && r < |g|
    ensures IsLegal(g, b, r, c, v) <==> !InRow(g, r, v) && !InColumn(g, c, v) && !InBlock(g, b, r, c, v)
  {
    ScanHitIllegal(g, b, r, c, v);
    if !InRow(g, r, v) && !InColumn(g, c, v) && !InBlock(g, b, r, c, v) {
      NoScanHitLegal(g, b, r, c, v);
    }
  }

  // ---------------------------------------------------------------------
  // Placement and consistency

  /** Writing a legal nonzero value into an empty cell keeps the board
      consistent: the invariant of every committed placement. */
  lemma PlaceKeepsConsistent(g: Grid, b: nat, r: nat, c: nat, v: int)
    requires b > 0 && r < |g| && c < |g[r]|
    requires Consistent(g, b) && g[r][c] == 0 && v != 0 && IsLegal(g, b, r, c, v)
    ensures Consistent(Update(g, r, c, v), b)
  {
    var g' := Update(g, r, c, v);
    forall r1, c1, r2, c2 |
      0 <= r1 < |g'| && 0 <= c1 < |g'[r1]| && 0 <= r2 < |g'| && 0 <= c2 < |g'[r2]| &&
      (r1 != r2 || c1 != c2) && SameUnit(b, r1, c1, r2, c2) && g'[r1][c1] != 0
      ensures g'[r1][c1] != g'[r2][c2]
    {
      if r1 == r && c1 == c {
        assert g'[r2][c2] == g[r2][c2];
      } else if r2 == r && c2 == c {
        assert SameUnit(b, r, c, r1, c1);
        assert g'[r1][c1] == g[r1][c1];
      } else {
        assert g'[r1][c1] == g[r1][c1] && g'[r2][c2] == g[r2][c2];
      }
    }
  }

  /** Emptying a cell keeps the board consistent (the undo of a placement). */
  lemma ClearKeepsConsistent(g: Grid, b: nat, r: nat, c: nat)
    requires b > 0 && r < |g| && c < |g[r]| && Consistent(g, b)
    ensures Consistent(Update(g, r, c, 0), b)
  {
  }

  /** Emptying a cell of a puzzle keeps it a sub-board of its solution,
      and leaves every other cell as it was. */
  lemma ClearKeepsExtends(s: Grid, g: Grid, r: nat, c: nat)
    requires r < |g| && c < |g[r]| && Extends(s, g)
    ensures Extends(s, Update(g, r, c, 0))
    ensures forall r2, c2 :: 0 <= r2 < |g| && 0 <= c2 < |g[r2]| && (r2 != r || c2 != c) ==>
      Update(g, r, c, 0)[r2][c2] == g[r2][c2]
  {
  }

  /** A board that agrees with `g` after the placement of `v` at the
      empty cell (r, c) agrees with `g` itself. */
  lemma PlacementExtends(g: Grid, r: nat, c: nat, v: int, h: Grid)
    requires r < |g| && c < |g[r]| && g[r][c] == 0
    requires Extends(h, Update(g, r, c, v))
    ensures Extends(h, g)
  {
    var p := Update(g, r, c, v);
    forall r2, c2 | 0 <= r2 < |g| && 0 <= c2 < |g[r2]| && (r2 != r || c2 != c)
      ensures p[r2][c2] == g[r2][c2]
    {
    }
  }

  /** Writing a value of [0, n] keeps every value of the board in [0, n]. */
  lemma PlaceKeepsDomain(g: Grid, n: nat, r: nat, c: nat, v: int)
    requires r < |g| && c < |g[r]| && InDomain(g, n) && 0 <= v <= n
    ensures InDomain(Update(g, r, c, v), n)
  {
  }

  /** Emptying the cell again undoes a placement into an empty cell. */
  lemma UndoRestores(g: Grid, r: nat, c: nat, v: int)
    requires r < |g| && c < |g[r]| && g[r][c] == 0
    ensures Update(Update(g, r, c, v), r, c, 0) == g
  {
    assert g[r][c := v][c := 0] == g[r];
  }

  /** One more refuted candidate, for candidates tried in a shuffled order
      `vs`: the first k + 1 of them are refuted once the first k and the
      (k+1)-th are. */
  lemma RefuteCandidateIn(g: Grid, b: nat, r: nat, c: nat, vs: seq<int>, k: nat)
    requires b > 0 && r < |g| && c < |g[r]| && k < |vs|
    requires forall w :: w in vs[..k] ==> !Completable(Update(g, r, c, w), b)
    requires !Completable(Update(g, r, c, vs[k]), b)
    ensures forall w :: w in vs[..k + 1] ==> !Completable(Update(g, r, c, w), b)
  {
    assert vs[..k + 1] == vs[..k] + [vs[k]];
  }

  /** A board with the same nonzero value in two distinct cells of one
      row, column or block is no solution. */
  lemma ClashNotSolution(s: Grid, b: nat, r1: int, c1: int, r2: int, c2: int)
    requires b > 0 && 0 <= r1 < |s| && 0 <= c1 < |s[r1]| && 0 <= r2 < |s| && 0 <= c2 < |s[r2]|
    requires (r1 != r2 || c1 != c2) && SameUnit(b, r1, c1, r2, c2)
    requires s[r1][c1] != 0 && s[r1][c1] == s[r2][c2]
    ensures !IsSolution(s, b)
  {
  }

  /** Placing a value that fails the legality check can never lead to a
      solution. */
  lemma IllegalNotCompletable(g: Grid, b: nat, r: nat, c: nat, v: int)
    requires b > 0 && r < |g| && c < |g[r]| && g[r][c] == 0 && v != 0
    requires !IsLegal(g, b, r, c, v)
    ensures !Completable(Update(g, r, c, v), b)
  {
    var g' := Update(g, r, c, v);
    var r2, c2 :| 0 <= r2 < |g| && 0 <= c2 < |g[r2]| && SameUnit(b, r, c, r2, c2) && g[r2][c2] == v;
    assert r2 != r || c2 != c;
    assert g'[r2][c2] == v && g'[r][c] == v;
    forall s | Extends(s, g')
      ensures !IsSolution(s, b)
    {
      ClashNotSolution(s, b, r, c, r2, c2);
    }
  }

  /** A solution of `g` is also a solution of `g` with its own value of the
      empty cell (r, c) placed, and that value is one of 1..N. */
  lemma SolutionFixesCell(g: Grid, b: nat, r: nat, c: nat)
    requires b > 0 && r < |g| && c < |g[r]| && g[r][c] == 0
    ensures forall s :: SolutionOf(s, g, b) ==>
      1 <= s[r][c] <= b * b && SolutionOf(s, Update(g, r, c, s[r][c]), b)
  {
  }

  /** If no value 1..N placed in the empty cell (r, c) can be completed,
      then `g` itself cannot be completed. */
  lemma NoCandidateNotCompletable(g: Grid, b: nat, r: nat, c: nat)
    requires b > 0 && r < |g| && c < |g[r]| && g[r][c] == 0
    requires forall v :: 1 <= v <= b * b ==> !Completable(Update(g, r, c, v), b)
    ensures !Completable(g, b)
  {
    SolutionFixesCell(g, b, r, c);
  }

  /** The same conclusion when the refuted values are listed in the order
      `vs`, a list that contains every value 1..N. */
  lemma NoCandidateInNotCompletable(g: Grid, b: nat, r: nat, c: nat, vs: seq<int>)
    requires b > 0 && r < |g| && c < |g[r]| && g[r][c] == 0
    requires forall v :: 1 <= v <= b * b ==> v in vs
    requires forall w :: w in vs ==> !Completable(Update(g, r, c, w), b)
    ensures !Completable(g, b)
  {
    NoCandidateNotCompletable(g, b, r, c);
  }

  // ---------------------------------------------------------------------
  // Counting empty and filled cells

  /** The number of cells of `row` that are empty (`empty`) or filled (`!empty`). */
  function CountRow(row: seq<int>, empty: bool): nat
  {
    if row == [] then 0
    else CountRow(row[..|row| - 1], empty) + (if (row[|row| - 1] == 0) == empty then 1 else 0)
  }

  /** The number of cells of `g` that are empty (`empty`) or filled (`!empty`). */
  function CountCells(g: Grid, empty: bool): nat
  {
    if g == [] then 0
    else CountCells(g[..|g| - 1], empty) + CountRow(g[|g| - 1], empty)
  }

  function Indicator(x: int, empty: bool): nat
  {
    if (x == 0) == empty then 1 else 0
  }

  lemma {:induction false} CountRowUpdate(row: seq<int>, c: nat, v: int, empty: bool)
    requires c < |row|
    ensures CountRow(row[c := v], empty) == CountRow(row, empty) - Indicator(row[c], empty) + Indicator(v, empty)
  {
    var n := |row|;
    var row' := row[c := v];
    if c == n - 1 {
      assert row'[..n - 1] == row[..n - 1];
    } else {
      assert row'[..n - 1] == row[..n - 1][c := v];
      CountRowUpdate(row[..n - 1], c, v, empty);
      CountRowContains(row[..n - 1], c, empty);
    }
  }

  lemma {:induction false} CountRowContains(row: seq<int>, c: nat, empty: bool)
    requires c < |row|
    ensures CountRow(row, empty) >= Indicator(row[c], empty)
  {
    var n := |row|;
    if c < n - 1 {
      CountRowContains(row[..n - 1], c, empty);
    }
  }

  /** Writing `v` into cell (r, c) changes the count of empty (or filled)
      cells by exactly that one cell's change. */
  lemma {:induction false} CountCellsUpdate(g: Grid, r: nat, c: nat, v: int, empty: bool)
    requires r < |g| && c < |g[r]|
    ensures CountCells(Update(g, r, c, v), empty)
         == CountCells(g, empty) - Indicator(g[r][c], empty) + Indicator(v, empty)
  {
    var n := |g|;
    var g' := Update(g, r, c, v);
    CountRowUpdate(g[r], c, v, empty);
    if r == n - 1 {
      assert g'[..n - 1] == g[..n - 1];
      CountRowContains(g[r], c, empty);
    } else {
      assert g'[..n - 1] == Update(g[..n - 1], r, c, v);
      CountCellsUpdate(g[..n - 1], r, c, v, empty);
      CountCellsContains(g[..n - 1], r, c, empty);
    }
  }

  lemma {:induction false} CountCellsContains(g: Grid, r: nat, c: nat, empty: bool)
    requires r < |g| && c < |g[r]|
    ensures CountCells(g, empty) >= Indicator(g[r][c], empty)
  {
    var n := |g|;
    if r < n - 1 {
      CountCellsContains(g[..n - 1], r, c, empty);
    } else {
      CountRowContains(g[r], c, empty);
    }
  }

  /** A full grid of `|g|` rows of `n` cells has `|g| * n` filled cells. */
  lemma {:induction false} CompleteCount(g: Grid, n: nat)
    requires forall r :: 0 <= r < |g| ==> |g[r]| == n
    requires IsComplete(g)
    ensures CountCells(g, false) == |g| * n
  {
    if g != [] {
      var m := |g|;
      CompleteCount(g[..m - 1], n);
      FullRowCount(g[m - 1]);
      assert (m - 1) * n + n == m * n;
    }
  }

  lemma {:induction false} FullRowCount(row: seq<int>)
    requires forall c :: 0 <= c < |row| ==> row[c] != 0
    ensures CountRow(row, false) == |row|
  {
    if row != [] {
      FullRowCount(row[..|row| - 1]);
    }
  }
}
