/** hooks/useGameState.ts: the game state record and the three updaters
    that replace it (resetGame, addDotToPath, clearPath). The grid is a
    reference to the generated GameGrid; the updaters never touch it. */
module GameState {
  import opened SeqUtil
  import opened GameTypes
  import PathValidator
  import SolvableMazeGenerator

  /** The dots chosen so far, with the verdicts computed for them. */
  datatype PathState = PathState(dots: seq<Dot>, isComplete: bool, isValid: bool)

  datatype State = State(grid: GameGrid, currentPath: PathState, isGameComplete: bool, difficulty: Difficulty)

  /** The path every new game and every clear starts from. */
  const EmptyPath: PathState := PathState([], false, true)

  /** The stored verdicts are those of validatePath and isPathComplete on the
      stored dots, and the game is complete exactly when both hold. */
  ghost predicate Consistent(s: State)
    reads s.grid
  {
    s.currentPath.isValid == PathValidator.PathValid(s.grid.cells, s.currentPath.dots) &&
    s.currentPath.isComplete == PathValidator.PathComplete(s.currentPath.dots) &&
    s.isGameComplete == (s.currentPath.isComplete && s.currentPath.isValid)
  }

  /** resetGame (and the initial state): a fresh 5x5 grid for easy, 6x6
      otherwise, and an empty, valid path. */
  method ResetGame(difficulty: Difficulty) returns (s: State, ghost drawn: nat)
    ensures fresh(s.grid) && s.grid.size == BoardSize(difficulty) && s.grid.WellFormed()
    ensures s.grid.solutionPath.Some? &&
            SolvableMazeGenerator.SolvableLayout(s.grid.dots, s.grid.solutionPath.value, s.grid.size)
    ensures |s.grid.dots| == DotCount || drawn == SolvableMazeGenerator.SelectionFuel
    ensures s.difficulty == difficulty && s.currentPath == EmptyPath && !s.isGameComplete
    ensures Consistent(s)
  {
    var size := if difficulty == Easy then 5 else 6;
    var grid;
    grid, drawn := SolvableMazeGenerator.GenerateSolvableMaze(size, None);
    s := State(grid, EmptyPath, false, difficulty);
  }

  /** addDotToPath: appends `dot` and recomputes both verdicts for the new
      dot list; grid and difficulty are carried over. */
  function AddDotToPath(prev: State, dot: Dot): (next: State)
    reads prev.grid
    ensures next.grid == prev.grid && next.difficulty == prev.difficulty
    ensures next.currentPath.dots == prev.currentPath.dots + [dot]
    ensures Consistent(next)
  {
    var dots := prev.currentPath.dots + [dot];
    var isValid := PathValidator.PathValid(prev.grid.cells, dots);
    var isComplete := PathValidator.PathComplete(dots);
    prev.(currentPath := PathState(dots, isComplete, isValid), isGameComplete := isComplete && isValid)
  }

  /** clearPath: back to the empty path; grid and difficulty are kept. */
  function ClearPath(prev: State): (next: State)
    reads prev.grid
    ensures next.grid == prev.grid && next.difficulty == prev.difficulty
    ensures next.currentPath.dots == [] && next.currentPath.isValid
    ensures !next.currentPath.isComplete && !next.isGameComplete
    ensures Consistent(next)
  {
    prev.(currentPath := EmptyPath, isGameComplete := false)
  }

  /** Appending to a consistent state keeps the path valid exactly when the
      new dot is numbered next after the previous last dot and reachable
      from it; the first dot is always accepted. */
  lemma AddDotValidity(prev: State, dot: Dot)
    requires Consistent(prev)
    ensures AddDotToPath(prev, dot).currentPath.isValid <==>
              prev.currentPath.isValid &&
              (prev.currentPath.dots == [] ||
               (PathValidator.ValidConnection(Last(prev.currentPath.dots), dot) &&
                PathValidator.Reachable(prev.grid.cells, Last(prev.currentPath.dots).position, dot.position)))
  {
    PathValidator.PathValidAppend(prev.grid.cells, prev.currentPath.dots, dot);
  }

  /** Once the path is invalid, no sequence of added dots makes it valid
      again; only clearPath or resetGame recovers. */
  lemma {:induction false} InvalidStaysInvalid(prev: State, added: seq<Dot>)
    requires Consistent(prev) && !prev.currentPath.isValid
    ensures !AddAll(prev, added).currentPath.isValid && !AddAll(prev, added).isGameComplete
    decreases |added|
  {
    if added != [] {
      var init := added[..|added| - 1];
      InvalidStaysInvalid(prev, init);
      AddDotValidity(AddAll(prev, init), added[|added| - 1]);
    }
  }

  /** The state after addDotToPath for each dot of `added` in turn. */
  function AddAll(prev: State, added: seq<Dot>): (next: State)
    reads prev.grid
    ensures next.grid == prev.grid && next.difficulty == prev.difficulty
    ensures next.currentPath.dots == prev.currentPath.dots + added
    ensures added != [] ==> Consistent(next)
    ensures added == [] ==> next == prev
  {
    if added == [] then prev
    else AddDotToPath(AddAll(prev, added[..|added| - 1]), added[|added| - 1])
  }

  /** A finished game holds the eight dots in the order 1, 2, ..., 8, each
      reachable from the one before. */
  lemma GameCompleteOrdered(s: State)
    requires Consistent(s) && s.isGameComplete
    ensures |s.currentPath.dots| == DotCount
    ensures forall k :: 0 <= k < |s.currentPath.dots| ==> s.currentPath.dots[k].number == k + 1
    ensures forall k :: 0 <= k < |s.currentPath.dots| - 1 ==>
              PathValidator.Reachable(s.grid.cells, s.currentPath.dots[k].position, s.currentPath.dots[k + 1].position)
  {
    PathValidator.ValidCompleteNumbers(s.grid.cells, s.currentPath.dots);
    forall k | 0 <= k < |s.currentPath.dots| - 1
      ensures PathValidator.Reachable(s.grid.cells, s.currentPath.dots[k].position, s.currentPath.dots[k + 1].position)
    {
      assert PathValidator.GoodStep(s.grid.cells, s.currentPath.dots, k);
    }
  }

  /** Entering the dots 1..8 of a puzzle in order from a cleared path
      finishes the game exactly when every step is reachable. */
  lemma NumberedDotsFinish(prev: State, added: seq<Dot>)
    requires |added| == DotCount
    requires forall k :: 0 <= k < |added| ==> added[k].number == k + 1
    ensures AddAll(ClearPath(prev), added).isGameComplete <==>
              forall k :: 0 <= k < |added| - 1 ==>
                PathValidator.Reachable(prev.grid.cells, added[k].position, added[k + 1].position)
  {
    ClearedThenAdded(prev, added);
    NumberedStepsReachable(prev.grid.cells, added);
  }

  /** A generated grid with all eight dots: entering its dots in order from
      a cleared path finishes the game exactly when every step is reachable. */
  lemma GeneratedDotsFinish(prev: State)
    requires prev.grid.solutionPath.Some?
    requires SolvableMazeGenerator.SolvableLayout(prev.grid.dots, prev.grid.solutionPath.value, prev.grid.size)
    requires |prev.grid.dots| == DotCount
    ensures PathValidator.PathComplete(prev.grid.dots)
    ensures AddAll(ClearPath(prev), prev.grid.dots).isGameComplete <==>
              forall k :: 0 <= k < DotCount - 1 ==>
                PathValidator.Reachable(prev.grid.cells, prev.grid.dots[k].position, prev.grid.dots[k + 1].position)
  {
    NumberedDotsFinish(prev, prev.grid.dots);
  }

  /** After clearPath, adding a non-empty list of dots leaves exactly those
      dots, and the game is complete when they are valid and complete. */
  lemma ClearedThenAdded(prev: State, added: seq<Dot>)
    requires added != []
    ensures AddAll(ClearPath(prev), added).currentPath.dots == added
    ensures AddAll(ClearPath(prev), added).isGameComplete <==>
              PathValidator.PathComplete(added) && PathValidator.PathValid(prev.grid.cells, added)
  {
    AppendEmpty(added);
  }

  /** For dots numbered 1, 2, ..., 8, validity is reachability of each
      step, and the list is complete. */
  lemma NumberedStepsReachable(cells: seq<seq<Cell>>, added: seq<Dot>)
    requires |added| == DotCount
    requires forall k :: 0 <= k < |added| ==> added[k].number == k + 1
    ensures PathValidator.PathComplete(added)
    ensures PathValidator.PathValid(cells, added) <==>
              forall k :: 0 <= k < |added| - 1 ==>
                PathValidator.Reachable(cells, added[k].position, added[k + 1].position)
  {
    forall k | 0 <= k < |added| - 1
      ensures PathValidator.GoodStep(cells, added, k) <==>
              PathValidator.Reachable(cells, added[k].position, added[k + 1].position)
    {
      assert PathValidator.ValidConnection(added[k], added[k + 1]);
    }
  }
}
