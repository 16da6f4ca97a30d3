/** The one piece of logic of the window class that belongs to the engine:
    the range check on the block size B and the number of clues before a
    new puzzle is generated, and the generation it guards. Widgets, dialogs
    and timing are not modelled. */
module SudokuGui {
  import opened Board
  import opened Generator

  /** Why a configuration is refused; `maxCells` is the N * N bound the
      error message reports. */
  datatype ConfigError = BlockSizeOutOfRange | ClueCountOutOfRange(maxCells: int)

  /** What pressing "generate" leads to. */
  datatype Outcome = Rejected(err: ConfigError) | GenerationFailed | Generated(puzzle: Grid)

  /** The range check on the entered block size and clue count: the block
      size is checked first, then the clue count against N * N. */
  function ValidateConfig(blockSize: int, clues: int): (err: Option<ConfigError>)
    ensures err.None? <==> 2 <= blockSize <= 4 && 1 <= clues <= blockSize * blockSize * (blockSize * blockSize)
    ensures err == Some(BlockSizeOutOfRange) <==> blockSize < 2 || 4 < blockSize
    ensures err.Some? && err.value.ClueCountOutOfRange? ==>
      err.value.maxCells == blockSize * blockSize * (blockSize * blockSize) && 16 <= err.value.maxCells <= 256
  {
    if blockSize < 2 || blockSize > 4 then
      Some(BlockSizeOutOfRange)
    else
      var gridSize := blockSize * blockSize;
      var maxCells := gridSize * gridSize;
      if clues < 1 || clues > maxCells then Some(ClueCountOutOfRange(maxCells)) else None
  }

  /** Validates the configuration and, when it is accepted, builds a
      generator for it and generates a puzzle. An accepted configuration
      yields a puzzle with exactly `clues` givens that can be completed to
      a solution. */
  method NewPuzzle(blockSize: int, clues: int, shuffles: nat -> seq<int>, cells: seq<(int, int)>)
    returns (outcome: Outcome)
    requires 2 <= blockSize <= 4 ==> forall k :: IsCandidateOrder(shuffles(k), blockSize * blockSize)
    requires 2 <= blockSize <= 4 ==> IsCellOrder(cells, blockSize * blockSize)
    ensures outcome.Rejected? <==> ValidateConfig(blockSize, clues).Some?
    ensures outcome.Rejected? ==> outcome.err == ValidateConfig(blockSize, clues).value
    ensures outcome.Generated? ==>
      blockSize >= 1 && IsSquare(outcome.puzzle, blockSize * blockSize) &&
      CountCells(outcome.puzzle, false) == clues && Completable(outcome.puzzle, blockSize)
    ensures outcome.GenerationFailed? ==>
      blockSize >= 1 && !Completable(EmptyGrid(blockSize * blockSize), blockSize)
  {
    var check := ValidateConfig(blockSize, clues);
    if check.Some? {
      return Rejected(check.value);
    }
    var generator := new SudokuGenerator(blockSize, clues);
    var puzzle, solution := generator.GenerateSudoku(shuffles, cells);
    if puzzle.None? {
      return GenerationFailed;
    }
    assert SolutionOf(solution, puzzle.value, blockSize);
    return Generated(puzzle.value);
  }
}
