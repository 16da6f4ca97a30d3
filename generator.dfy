/** The backtracking engine, `SudokuGenerator`: a board of block size B
    (N = B * B) that it fills in place by randomized backtracking, thins out
    to a puzzle, and can re-solve while reporting every placement and
    retraction. The random orders the source draws with `random.shuffle` are
    inputs here: `shuffles(k)` is the k-th shuffled candidate list
    [1..N] and `cells` the shuffled list of all N * N coordinates. */
module Generator {
  import opened Board
  import opened Trace

  /** `s` is the list [1..N] in some order. */
  predicate IsCandidateOrder(s: seq<int>, n: nat)
  {
    |s| == n && (forall v :: v in s ==> 1 <= v <= n) && (forall v :: 1 <= v <= n ==> v in s)
  }

  /** `cells` lists every coordinate of the N x N board exactly once. */
  predicate IsCellOrder(cells: seq<(int, int)>, n: nat)
  {
    |cells| == n * n &&
    (forall k :: 0 <= k < |cells| ==> 0 <= cells[k].0 < n && 0 <= cells[k].1 < n) &&
    (forall k1, k2 :: 0 <= k1 < k2 < |cells| ==> cells[k1] != cells[k2])
  }

  /** `x` limited to [lo, hi]. */
  function Clamp(x: int, lo: int, hi: int): int
  {
    if x < lo then lo else if x > hi then hi else x
  }

  /** The removal walk after k steps: the first k listed cells of the
      square board `g` are empty, the rest still hold their value in `s`. */
  predicate ClearedUpTo(g: Grid, s: Grid, cells: seq<(int, int)>, n: nat, k: nat)
  {
    IsSquare(g, n) && IsSquare(s, n) && IsCellOrder(cells, n) && k <= |cells| &&
    (forall m :: k <= m < |cells| ==> g[cells[m].0][cells[m].1] == s[cells[m].0][cells[m].1]) &&
    (forall m :: 0 <= m < k ==> g[cells[m].0][cells[m].1] == 0)
  }

  /** Emptying the k-th listed cell is one more step of the walk; no other
      listed cell changes. */
  lemma ClearListedCell(g: Grid, s: Grid, cells: seq<(int, int)>, n: nat, k: nat)
    requires ClearedUpTo(g, s, cells, n, k) && k < |cells|
    ensures ClearedUpTo(Update(g, cells[k].0, cells[k].1, 0), s, cells, n, k + 1)
  {
    var g' := Update(g, cells[k].0, cells[k].1, 0);
    forall m | 0 <= m < |cells| && m != k
      ensures g'[cells[m].0][cells[m].1] == g[cells[m].0][cells[m].1]
    {
      if m < k {
        assert cells[m] != cells[k];
      } else {
        assert cells[k] != cells[m];
      }
    }
  }

  class SudokuGenerator {
    const B: nat
    const N: nat
    const numKnown: int
    var grid: Grid

    ghost predicate Valid()
      reads this
    {
      B >= 1 && N == B * B && IsSquare(grid, N)
    }

    /** A generator for block size `blockSize` that will leave
        `numKnownCells` clues, on an all-empty board. */
    constructor (blockSize: nat := 3, numKnownCells: int := 20)
      requires blockSize >= 1
      ensures Valid()
      ensures B == blockSize && N == blockSize * blockSize && numKnown == numKnownCells
      ensures grid == EmptyGrid(N)
    {
      B := blockSize;
      N := blockSize * blockSize;
      numKnown := numKnownCells;
      grid := EmptyGrid(blockSize * blockSize);
    }

    /** Whether `num` may go at (row, col): it occurs neither in the row,
        nor in the column, nor in the block whose origin is
        (row - row % B, col - col % B). Reads the board, changes nothing. */
    method IsValidPlacement(row: nat, col: nat, num: int) returns (ok: bool)
      requires Valid() && row < N && col < N
      ensures ok == IsLegal(grid, B, row, col, num)
    {
      if num in grid[row] {
        var c2 :| 0 <= c2 < N && grid[row][c2] == num;
        assert SameUnit(B, row, col, row, c2);
        return false;
      }

      var i := 0;
      while i < N
        invariant 0 <= i <= N
        invariant forall r2 :: 0 <= r2 < i ==> grid[r2][col] != num
      {
        if grid[i][col] == num {
          assert SameUnit(B, row, col, i, col);
          return false;
        }
        i := i + 1;
      }

      var startRow := row - row % B;
      var startCol := col - col % B;
      BlockWithinGrid(B, row);
      BlockWithinGrid(B, col);
      i := 0;
      while i < B
        invariant 0 <= i <= B
        invariant forall r2, c2 :: startRow <= r2 < startRow + i && startCol <= c2 < startCol + B ==> grid[r2][c2] != num
      {
        var j := 0;
        while j < B
          invariant 0 <= j <= B
          invariant forall r2, c2 :: startRow <= r2 < startRow + i && startCol <= c2 < startCol + B ==> grid[r2][c2] != num
          invariant forall r2, c2 :: r2 == startRow + i && startCol <= c2 < startCol + j ==> grid[r2][c2] != num
        {
          if grid[startRow + i][startCol + j] == num {
            InScannedBlock(B, row, col, startRow + i, startCol + j);
            assert SameUnit(B, row, col, startRow + i, startCol + j);
            return false;
          }
          j := j + 1;
        }
        i := i + 1;
      }

      NoScanHitLegal(grid, B, row, col, num);
      return true;
    }

    /** The first empty cell in row-major order, the cell both searches
        work on next; `found` is false when the board is full. Reads the
        board, changes nothing. */
    method FirstEmptyCell() returns (found: bool, i: nat, j: nat)
      requires Valid()
      ensures found ==> i < N && j < N && grid[i][j] == 0
      ensures found ==> forall r, c :: 0 <= r < N && 0 <= c < N && (r < i || (r == i && c < j)) ==> grid[r][c] != 0
      ensures !found ==> IsComplete(grid)
    {
      i := 0;
      while i < N
        invariant 0 <= i <= N
        invariant forall r, c :: 0 <= r < i && 0 <= c < N ==> grid[r][c] != 0
      {
        j := 0;
        while j < N
          invariant 0 <= j <= N
          invariant forall r, c :: 0 <= r < i && 0 <= c < N ==> grid[r][c] != 0
          invariant forall c :: 0 <= c < j ==> grid[i][c] != 0
        {
          if grid[i][j] == 0 {
            return true, i, j;
          }
          j := j + 1;
        }
        i := i + 1;
      }
      return false, 0, 0;
    }

    /** The silent randomized fill. At the first empty cell it tries the
        candidates in the order `shuffles(draw)`, placing each legal one and
        recursing; a failed recursion undoes the placement. It succeeds when
        no empty cell remains. `nextDraw` counts the shuffles drawn so far. */
    method FillGrid(shuffles: nat -> seq<int>, draw: nat) returns (ok: bool, nextDraw: nat)
      requires Valid()
      requires forall k :: IsCandidateOrder(shuffles(k), N)
      modifies this
      decreases CountCells(grid, true)
      ensures Valid()
      ensures ok ==> IsComplete(grid) && Extends(grid, old(grid))
      ensures ok && InDomain(old(grid), N) ==> InDomain(grid, N)
      ensures ok && Consistent(old(grid), B) ==> Consistent(grid, B)
      ensures !ok ==> grid == old(grid) && !Completable(old(grid), B)
    {
      var found, i, j := FirstEmptyCell();
      if !found {
        return true, draw;
      }
      var numbers := shuffles(draw);
      nextDraw := draw + 1;
      var k := 0;
      while k < |numbers|
        invariant 0 <= k <= |numbers|
        invariant grid == old(grid)
        invariant forall v :: v in numbers[..k] ==> !Completable(Update(grid, i, j, v), B)
      {
        var num := numbers[k];
        assert num in numbers && 1 <= num <= N;
        var legal := IsValidPlacement(i, j, num);
        if legal {
          ghost var before := grid;
          grid := Update(grid, i, j, num);
          CountCellsUpdate(before, i, j, num, true);
          ok, nextDraw := FillGrid(shuffles, nextDraw);
          if ok {
            if Consistent(before, B) {
              PlaceKeepsConsistent(before, B, i, j, num);
            }
            if InDomain(before, N) {
              PlaceKeepsDomain(before, N, i, j, num);
            }
            PlacementExtends(before, i, j, num, grid);
            return;
          }
          UndoRestores(before, i, j, num);
          grid := Update(grid, i, j, 0);
        } else {
          IllegalNotCompletable(grid, B, i, j, num);
        }
        RefuteCandidateIn(grid, B, i, j, numbers, k);
        k := k + 1;
      }
      assert numbers[..k] == numbers;
      NoCandidateInNotCompletable(grid, B, i, j, numbers);
      ok := false;
    }

    /** Builds a puzzle: empties the board, fills it, then walks `cells`
        emptying filled cells until N * N - numKnown have been removed.
        Returns `None` when the fill fails. `solution` is the filled board
        before removal. */
    method GenerateSudoku(shuffles: nat -> seq<int>, cells: seq<(int, int)>)
      returns (puzzle: Option<Grid>, ghost solution: Grid)
      requires Valid()
      requires forall k :: IsCandidateOrder(shuffles(k), N)
      requires IsCellOrder(cells, N)
      modifies this
      ensures Valid()
      ensures puzzle.None? ==> grid == EmptyGrid(N) && !Completable(EmptyGrid(N), B)
      ensures puzzle.Some? ==> puzzle.value == grid
      ensures puzzle.Some? ==> IsSolution(solution, B) && Extends(solution, grid)
      ensures puzzle.Some? ==> CountCells(grid, false) == Clamp(numKnown, 0, N * N)
      ensures puzzle.Some? ==> forall k :: 0 <= k < |cells| ==>
        (grid[cells[k].0][cells[k].1] == 0 <==> k < Clamp(N * N - numKnown, 0, N * N))
    {
      grid := EmptyGrid(N);
      var filled, _ := FillGrid(shuffles, 0);
      if !filled {
        return None, grid;
      }
      solution := grid;
      CompleteCount(grid, N);

      var toRemove := N * N - numKnown;
      var removed := 0;
      var k := 0;
      while k < |cells|
        invariant 0 <= k <= |cells| && removed == k
        invariant removed == 0 || removed <= toRemove
        invariant ClearedUpTo(grid, solution, cells, N, k)
        invariant CountCells(grid, false) == N * N - removed
        invariant Extends(solution, grid)
        invariant IsComplete(solution)
      {
        if removed >= toRemove {
          break;
        }
        var (r, c) := cells[k];
        if grid[r][c] != 0 {
          CountCellsUpdate(grid, r, c, 0, false);
          ClearKeepsExtends(solution, grid, r, c);
          ClearListedCell(grid, solution, cells, N, k);
          grid := Update(grid, r, c, 0);
          removed := removed + 1;
        }
        k := k + 1;
      }
      return Some(grid), solution;
    }

    /** The traced solver, with the candidates in the fixed order 1..N. It
        returns whether the board was solved and the events it yields, in
        order: an `Attempt` right after each legal placement and a
        `Backtrack` right after each undo. Its outcome and events are
        exactly those of the reference search `Search`, whose guarantees
        `SearchFacts`, `SearchRefutes` and `SearchAttempts` prove. */
    method SolveVisual() returns (solved: bool, events: seq<Event>)
      requires Valid()
      modifies this
      decreases CountCells(grid, true), 1
      ensures Valid()
      ensures ValidTrace(old(grid), B, events) && TouchesOnlyEmpty(old(grid), events)
      ensures Replay(old(grid), events) == grid
      ensures solved ==> IsComplete(grid)
      ensures !solved ==> grid == old(grid) && !Completable(old(grid), B)
      ensures !solved ==> Balanced(events)
      ensures solved ==> OpenAtEmpty(old(grid), events)
      ensures solved && events == [] <==> IsComplete(old(grid))
      ensures (solved, events) == Search(old(grid), B)
      ensures AttemptsAtFirstEmpty(old(grid), events)
    {
      var found, i, j := FirstEmptyCell();
      if !found {
        return true, [];
      }
      SearchAtFirstEmpty(grid, B, i, j);
      solved, events := TryCandidates(i, j);
      SearchFacts(old(grid), B);
      SearchRefutes(old(grid), B);
      SearchAttempts(old(grid), B);
    }

    /** The candidate loop of the traced solver at its first empty cell
        (i, j): each legal value 1..N in turn is placed, announced, searched
        below and, when that fails, taken back and announced again. The
        outcome and events are those of `TryFrom` from candidate 1. */
    method TryCandidates(i: nat, j: nat) returns (solved: bool, events: seq<Event>)
      requires Valid() && i < N && j < N && grid[i][j] == 0
      modifies this
      decreases CountCells(grid, true), 0
      ensures Valid()
      ensures (solved, events) == TryFrom(old(grid), B, i, j, 1)
      ensures Replay(old(grid), events) == grid
    {
      events := [];
      var num := 1;
      assert [] + TryFrom(grid, B, i, j, 1).1 == TryFrom(grid, B, i, j, 1).1;
      while num <= N
        invariant 1 <= num <= N + 1
        invariant grid == old(grid)
        invariant TryFrom(grid, B, i, j, 1) == After(events, TryFrom(grid, B, i, j, num))
        invariant Replay(grid, events) == grid
      {
        var legal := IsValidPlacement(i, j, num);
        if legal {
          ghost var before := grid;
          grid := Update(grid, i, j, num);
          CountCellsUpdate(before, i, j, num, true);
          var subSolved, sub := SolveVisual();
          ReplayCandidate(before, events, i, j, num, sub);
          if subSolved {
            TryFromSolved(before, B, i, j, num, events);
            events := events + [Event(i, j, num, Attempt)] + sub;
            return true, events;
          }
          TryFromFailed(before, B, i, j, num, events);
          UndoRestores(before, i, j, num);
          grid := Update(grid, i, j, 0);
          events := events + [Event(i, j, num, Attempt)] + sub + [Event(i, j, 0, Backtrack)];
        } else {
          TryFromIllegal(grid, B, i, j, num);
        }
        num := num + 1;
      }
      TryFromExhausted(grid, B, i, j, events);
      solved := false;
    }
  }
}
