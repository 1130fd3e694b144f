# zip-game puzzle engine in Dafny

This project models the engine of the zip-game puzzle and proves properties of that model. A puzzle is an N x N board (5 x 5 "easy", 6 x 6 "medium") with eight numbered dots. The player draws one path that runs through every cell and meets the dots in the order 1 to 8.

The model covers the following parts of the engine:
- the seeded linear congruential generator and the daily-challenge seed hash;
- the randomized backtracking search for a Hamiltonian path, with its Fisher-Yates neighbour shuffle and its "snake" fallback;
- the choice of dot positions along that path, and the placement of the dots on the grid;
- the L-shaped reachability rule and the validation of a dot sequence;
- the alternate solvability heuristic: explicit HV/VH routes, 60 % coverage, and spiral fallback positions;
- the cell-drag state machine and the dot-covering solver with its player-path report;
- the game-state updaters and the keyboard cursor;
- the move/time tracker and the user-statistics record transform.

## Modelling conventions

Each source file is one Dafny module, and each module keeps the form of its source:
- Objects whose fields change are classes with `modifies` frames. These are `SeededRandom`, the grid (`GameGrid`), the shared `path`/`visited` pair of the two backtracking searches (`Trail`), the drag session and `GamePerformanceTracker`.
- Loops are methods with invariants, proved against specification functions.
- The record-copying updaters of `useGameState`, `useKeyboardNavigation` and `updateUserStats` are functions.

`GameTypes` holds the data model of `types/game.ts` and the board geometry shared by all modules. `SeqUtil` holds generic sequence facts.

Arithmetic and sizes:
- Integers are unbounded. Where JavaScript arithmetic matters, the model spells it out:
  - the LCG state stays below 2^53, so the doubles are exact;
  - `%` truncates (`JsRem`);
  - `hash & hash` wraps to signed 32 bits (`ToInt32`);
  - `Math.floor(d / 1000)` with a positive divisor is Dafny's `/`.
- The 0.6 coverage factor of `canReachAllCells` is `size * size * 6 / 10`. This equals `Math.floor(size * size * 0.6)` for every board size the game uses.

Nondeterminism and external inputs:
- `Math.random` branches are a nondeterministic choice of an in-range integer (`DrawInt` with a null generator).
- The wall clock is a parameter: `now` in milliseconds for the tracker, and `today` as a day number for the statistics.

Where the documented intent and the code disagree, the model follows the code:
- The comments in `canReachHV`/`canReachVH` say that only the start and end positions are skipped (lib/pathValidator.ts:24 and lib/pathValidator.ts:34). The tests `x === from.x || x === to.x` and `y === from.y || y === to.y` also skip the corner of the L, so the corner is never inspected. `PathValidator.CornerQuirk` exhibits a 2 x 2 board where both corners are occupied and the diagonal is still reachable. `SolvabilityChecker.CornerTested` shows that the route builder of the solvability heuristic does test the corner and rejects the same pair.
- Out-of-bounds dot placements:
  - The generator's `placeDots` logs them and skips them (lib/solvableMazeGenerator.ts:236-241). The skipped entry still consumes its forEach index, so ids and numbers can have gaps.
  - `gridGenerator.placeDots` has no bounds check at all. It is modelled with an in-bounds precondition, because the source would crash.
- The generator seeds its random source only for a truthy seed (lib/solvableMazeGenerator.ts:10), so seed 0 means unseeded.
- `getDailyChallengeSeed` can return 2^31. That happens when the wrapped hash is -2^31, and it lies outside the signed 32-bit range.
- With a one-cell path, `selectRandomDotPositions` returns `[path[0], path[0]]`. Short paths give fewer than eight dots: there is no `min(dotCount - 2, len - 2) + 2` padding.
- The statistics record is updated in full, including dates and streaks, by the code in lib/userStats.ts.

Seeded reproducibility: with a non-zero seed every random choice of the generator is a function of the seed. The ghost functions `Search`, `TryAll`, `FromStart`, `Attempt`, `Varied`, `IndexDraws`, `SeededPicks` and `SeededLayout` compute, from the generator state alone, what each seeded method returns and the state it leaves. `GenerateSolvableMaze` ensures that a seeded puzzle's solution path and dots are those of `SeededLayout(size, seed)`, so the same seed and size always give the same puzzle.

## Model

| member | source | states |
|---|---|---|
| Random.JsRem | lib/seededRandom.ts:15 | JavaScript's `%` by a positive modulus: non-negative dividends give [0, m), negative ones (-m, 0] |
| Random.LcgStep | lib/seededRandom.ts:15 | the recurrence keeps a non-negative state in [0, 2^32) and any state in (-2^32, 2^32) |
| Random.FloorIsQuotient | lib/seededRandom.ts:16-21 | floor((state / 2^32) * max) computed on reals equals the integer quotient (state * max) div 2^32 |
| Random.ScaledDrawInRange | lib/seededRandom.ts:20-22 | for a state in [0, 2^32) and max > 0 the draw lies in [0, max) |
| Random.Draws | lib/seededRandom.ts:12-22 | one draw per requested bound |
| Random.DrawsInRange | lib/seededRandom.ts:12-22 | from a non-negative state every draw with a positive bound is in [0, bound) |
| Random.SeededRandom.constructor | lib/seededRandom.ts:7-9 | the generator holds exactly the given seed |
| Random.SeededRandom.Next | lib/seededRandom.ts:12-17 | the state advances by one LCG step and the result is new state / 2^32, in [0, 1) for a non-negative old state |
| Random.SeededRandom.NextInt | lib/seededRandom.ts:20-22 | advances the state once and returns (new state * max) div 2^32, in [0, max) for a non-negative state and positive max |
| Random.SeededRandom.SetSeed | lib/seededRandom.ts:25-27 | the state becomes exactly s |
| Random.DrawAll | lib/seededRandom.ts:12-22 | a sequence of nextInt calls yields Draws of the starting state and leaves the state after that many steps |
| Random.StateAfter | lib/seededRandom.ts:12-17 | any number of LCG steps keeps a state in [0, 2^32) in that range |
| Random.SameSeedSameDraws | lib/seededRandom.ts:7-22 | two generators built from the same seed produce identical draw sequences, each in range for a non-negative seed |
| Random.ReseedMatchesFresh | lib/seededRandom.ts:25-27 | after setSeed(s) a generator draws exactly what a fresh SeededRandom(s) draws |
| Random.ToInt32 | lib/seededRandom.ts:39 | the wrapped value lies in [-2^31, 2^31) |
| Random.ToInt32Congruent | lib/seededRandom.ts:39 | wrapping ignores multiples of 2^32 |
| Random.ToInt32Difference | lib/seededRandom.ts:39 | the wrapped value differs from the input by a multiple of 2^32 |
| Random.StringHash | lib/seededRandom.ts:35-40 | the loop's hash stays a signed 32-bit value |
| Random.StringHashIsPolynomial | lib/seededRandom.ts:35-40 | the shift-subtract-add loop computes the polynomial hash sum c_i * 31^(n-1-i), wrapped to signed 32 bits |
| Random.DailyChallengeSeed | lib/seededRandom.ts:31-44 | the seed is the absolute value of the wrapped polynomial hash of the date string, in [0, 2^31]; equal strings give equal seeds |
| GameTypes.Distance | lib/pathValidator.ts:8-10 | the Manhattan distance is zero exactly for equal positions |
| GameTypes.DistanceMetric | lib/pathValidator.ts:8-10 | the distance is symmetric and obeys the triangle inequality |
| GameTypes.Adjacent | hooks/useDragPath.ts:11-16 | two positions are adjacent exactly when their Manhattan distance is 1 |
| GameTypes.DotPositions | lib/mazeSolver.ts:6 | grid.dots.map(dot => dot.position): same length, entry k is dot k's position |
| GameTypes.WalkConcat | lib/solvabilityChecker.ts:37-68 | two disjoint walks joined by an adjacent step form one walk |
| GameTypes.InBoard | lib/mazeSolver.ts:77-78 | a cell is in the board set exactly when it is in bounds |
| GameTypes.Row | lib/mazeSolver.ts:90-92 | the row has size cells, cell x at (x, y) |
| GameTypes.RowMajor | lib/mazeSolver.ts:89-93 | rows * size cells |
| GameTypes.RowMajorMembers | lib/mazeSolver.ts:86-96 | the enumeration holds exactly the cells with x < size and y < rows |
| GameTypes.RowMajorDistinct | lib/mazeSolver.ts:86-96 | the enumeration has no repeated cell |
| GameTypes.RowMajorAt | lib/mazeSolver.ts:86-96 | entry y * size + x is the cell (x, y) |
| GameTypes.BoardCard | types/game.ts:19-23 | a size x size board has size * size cells |
| GameTypes.WalkCoverage | lib/solvableMazeGenerator.ts:50-53 | a repetition-free on-board walk has at most size * size cells, and one of exactly that length covers every cell |
| GameTypes.DotsOnPath | lib/mazeSolver.ts:119-121 | the dots on the path are at most all the dots |
| GameTypes.DotsOnPathAll | lib/mazeSolver.ts:119-123 | the filter keeps every dot exactly when every dot's cell lies on the path |
| GameTypes.GameGrid.constructor | types/game.ts:19-23 | a grid with the given size and cells, no dots and no solution path |
| GameTypes.Trail.constructor | lib/mazeSolver.ts:9-10 | an empty path and an empty visited set |
| GameTypes.Trail.Push | lib/mazeSolver.ts:38-39 | visited.add and path.push of an unvisited cell next to the end keep the path a walk whose cells are exactly the visited set |
| GameTypes.Trail.Pop | lib/mazeSolver.ts:60-61 | visited.delete and path.pop undo the last push and keep the invariant |
| GameTypes.Trail.Clear | lib/mazeSolver.ts:14-15 | visited.clear() and path.length = 0 empty both |
| GridGenerator.EmptyCells | lib/gridGenerator.ts:7-16 | size rows of size cells each |
| GridGenerator.WithDot | lib/gridGenerator.ts:33-34 | putting a dot on a cell keeps the matrix shape |
| GridGenerator.Occupy | lib/gridGenerator.ts:26-36 | placing a list of dots keeps the matrix shape |
| GridGenerator.LastDotAt | lib/gridGenerator.ts:33-34 | the last dot placed on a cell, None exactly when no dot is on it |
| GridGenerator.OccupyCell | lib/gridGenerator.ts:33-34 | after placing dots, a cell no dot lands on is unchanged and any other cell is occupied and carries the last dot placed on it |
| GridGenerator.DotsFor | lib/gridGenerator.ts:26-31 | entry k becomes the dot with id k, position k and number k + 1 |
| GridGenerator.CreateEmptyGrid | lib/gridGenerator.ts:4-23 | a fresh well-formed grid of the requested size, cell [y][x] at (x, y) unoccupied, not on the path and dotless, no dots |
| GridGenerator.OccupySnoc | lib/gridGenerator.ts:26-36 | placing one more dot is one WithDot on the matrix the earlier dots produced |
| GridGenerator.PutDot | lib/gridGenerator.ts:27-35 | one forEach step: the dot is appended and only its cell changes |
| GridGenerator.PlaceDots | lib/gridGenerator.ts:25-37 | the dots for the positions are appended after the existing ones and only their cells become occupied |
| PathValidator.ValidConnection | lib/pathValidator.ts:3-6 | to follows from exactly when its number is above from's by at most one, i.e. the next number; a dot never connects to itself |
| PathValidator.HVCellsMembers | lib/pathValidator.ts:17-40 | canReachHV inspects row from.y strictly between the two columns and column to.x strictly between the two rows |
| PathValidator.VHCellsMembers | lib/pathValidator.ts:42-65 | canReachVH inspects column from.x strictly between the rows and row to.y strictly between the columns |
| PathValidator.HVMirrorsVH | lib/pathValidator.ts:17-65 | canReachHV(a, b) inspects exactly the cells of canReachVH(b, a) |
| PathValidator.ReachableSymmetric | lib/pathValidator.ts:12-15 | isReachable(a, b) holds exactly when isReachable(b, a) does |
| PathValidator.EndpointsAndCornerSkipped | lib/pathValidator.ts:23-37 | neither route inspects its endpoints or the corner of its L |
| PathValidator.AdjacentReachable | lib/pathValidator.ts:23-37 | identical or 4-adjacent positions inspect no cell and are always reachable |
| PathValidator.CornerQuirk | lib/pathValidator.ts:23-37 | a diagonal pair whose two L corners are both occupied is still reachable |
| PathValidator.CanReachHV | lib/pathValidator.ts:17-40 | the two loops return true exactly when no inspected cell of the HV route is occupied |
| PathValidator.CanReachVH | lib/pathValidator.ts:42-65 | the mirrored loops return true exactly when no inspected cell of the VH route is occupied |
| PathValidator.IsReachable | lib/pathValidator.ts:12-15 | true exactly when one of the two L routes is clear |
| PathValidator.ValidatePath | lib/pathValidator.ts:67-86 | true exactly for fewer than two dots or when every consecutive pair is numbered in sequence and reachable |
| PathValidator.PathValidAppend | lib/pathValidator.ts:67-86 | appending a dot keeps the path valid exactly when the last step is a valid connection and reachable |
| PathValidator.PathValidPrefix | lib/pathValidator.ts:67-86 | every prefix of a valid path is valid |
| PathValidator.ValidNumbersConsecutive | lib/pathValidator.ts:3-6 | in a valid path the numbers step up by one to the last dot |
| PathValidator.PathComplete | lib/pathValidator.ts:88-90 | a complete path is non-empty and its last dot is numbered with the count of dots, eight |
| PathValidator.ValidCompleteNumbers | lib/pathValidator.ts:67-90 | a valid and complete path holds the dots numbered 1 to 8 in order |
| SolvabilityChecker.HLeg | lib/solvabilityChecker.ts:43-52 | the row leg has one cell per column step |
| SolvabilityChecker.VLeg | lib/solvabilityChecker.ts:54-63 | the column leg has one cell per row step |
| SolvabilityChecker.HLegShape | lib/solvabilityChecker.ts:43-52 | the row leg starts at from, moves one column at a time toward the target column without reaching it, and ends next to it |
| SolvabilityChecker.VLegShape | lib/solvabilityChecker.ts:54-63 | the column leg starts at its row, moves one row at a time toward the target row without reaching it, and ends next to it |
| SolvabilityChecker.LegsInBounds | lib/solvabilityChecker.ts:37-101 | between two on-board cells every leg stays on the board |
| SolvabilityChecker.JoinLegs | lib/solvabilityChecker.ts:37-68 | two disjoint walks followed by `to` form one walk |
| SolvabilityChecker.RouteLengths | lib/solvabilityChecker.ts:37-101 | both routes have Manhattan distance + 1 cells and end at `to` |
| SolvabilityChecker.HVRouteWalk | lib/solvabilityChecker.ts:37-68 | the HV route starts at from, ends at to, has distance + 1 cells and is a self-avoiding walk of adjacent cells |
| SolvabilityChecker.VHRouteWalk | lib/solvabilityChecker.ts:70-101 | the VH route starts at from, ends at to, has distance + 1 cells and is a self-avoiding walk of adjacent cells |
| SolvabilityChecker.LRouteWalk | lib/solvabilityChecker.ts:26-35 | any route findPath returns starts at from, ends at to, has distance + 1 cells and is a walk |
| SolvabilityChecker.HVPathClear | lib/solvabilityChecker.ts:37-68 | when getHVPath succeeds, the HV route of isReachable is clear |
| SolvabilityChecker.VHPathClear | lib/solvabilityChecker.ts:70-101 | when getVHPath succeeds, the VH route of isReachable is clear |
| SolvabilityChecker.LRouteReachable | lib/solvabilityChecker.ts:26-35 | a route from findPath implies isReachable |
| SolvabilityChecker.CornerTested | lib/solvabilityChecker.ts:103-117 | the route builder does test the L corner: the quirk pair of isReachable has no route here |
| SolvabilityChecker.UnobstructedLegs | lib/solvabilityChecker.ts:103-117 | a route passes isObstructed exactly when each of its legs does |
| SolvabilityChecker.Obstructed | lib/solvabilityChecker.ts:103-117 | a cell that does not block is on the board and, if occupied, is one of the two ends; an on-board end never blocks |
| SolvabilityChecker.ScanRow | lib/solvabilityChecker.ts:43-52 | the row loop returns the row leg when no cell of it is obstructed, else null |
| SolvabilityChecker.ScanColumn | lib/solvabilityChecker.ts:54-63 | the column loop returns the column leg when no cell of it is obstructed, else null |
| SolvabilityChecker.GetHVPath | lib/solvabilityChecker.ts:37-68 | returns the HV route when unobstructed, else null |
| SolvabilityChecker.GetVHPath | lib/solvabilityChecker.ts:70-101 | returns the VH route when unobstructed, else null |
| SolvabilityChecker.FindPath | lib/solvabilityChecker.ts:26-35 | the HV route if it exists, otherwise the VH route, otherwise null |
| SolvabilityChecker.CoveredPairs | lib/solvabilityChecker.ts:7-19 | the covered set exists exactly when every consecutive pair has a route, and then it holds every dot's cell |
| SolvabilityChecker.RouteEnds | lib/solvabilityChecker.ts:26-35 | a route contains both ends |
| SolvabilityChecker.CoveredOnBoard | lib/solvabilityChecker.ts:7-23 | the covered cells are board cells, at most size * size of them |
| SolvabilityChecker.ReachesAllCellsReachable | lib/solvabilityChecker.ts:3-24 | acceptance implies exactly eight dots with each consecutive pair in number order reachable |
| SolvabilityChecker.AddAll | lib/solvabilityChecker.ts:18 | adding a route's cells to the visited set is set union |
| SolvabilityChecker.SortByNumber | lib/solvabilityChecker.ts:7 | the dots sorted by number: a sorted permutation |
| SolvabilityChecker.CanReachAllCells | lib/solvabilityChecker.ts:3-24 | true exactly for eight dots whose consecutive pairs all have routes covering at least 60 % of the board |
| SolvabilityChecker.CoveredNone | lib/solvabilityChecker.ts:14-16 | once a pair has no route, no longer prefix is accepted |
| SolvabilityChecker.ColumnCellsShape | lib/solvabilityChecker.ts:220-226 | the inner loop keeps exactly the kept cells of its column so far, in row order |
| SolvabilityChecker.ColumnMajorAppend | lib/solvabilityChecker.ts:219-228 | appending a later column keeps column-major order |
| SolvabilityChecker.RingCellsShape | lib/solvabilityChecker.ts:219-228 | the outer loop keeps exactly the kept cells of its columns so far, column-major |
| SolvabilityChecker.SpiralCells | lib/solvabilityChecker.ts:216-231 | the result is exactly the on-board cells at Chebyshev distance r from the centre, column-major and without repeats |
| SolvabilityChecker.GetSpiralPositions | lib/solvabilityChecker.ts:216-231 | the nested loops build the ring of SpiralCells |
| SolvabilityChecker.HoldsBoard | lib/solvabilityChecker.ts:186-202 | a repetition-free list of every board cell has at least size * size entries |
| SolvabilityChecker.NearCentre | lib/solvabilityChecker.ts:186-202 | every cell is within ring size - 1 of the centre |
| SolvabilityChecker.AddRing | lib/solvabilityChecker.ts:188-199 | one ring adds new cells at that radius without repeats up to dotCount, and takes the whole ring when it stops short |
| SolvabilityChecker.GetFallbackPositions | lib/solvabilityChecker.ts:176-214 | dotCount distinct on-board cells, the centre first, ordered by ring |
| SolvableMazeGenerator.DrawInt | lib/solvableMazeGenerator.ts:33-34 | a seeded draw advances the generator once and returns its nextInt; any draw with positive max lies in [0, max) |
| SolvableMazeGenerator.Neighbours | lib/solvableMazeGenerator.ts:104-109 | four candidate cells |
| SolvableMazeGenerator.NeighboursAdjacent | lib/solvableMazeGenerator.ts:104-109 | every candidate is adjacent to the current cell |
| SolvableMazeGenerator.Swap | lib/solvableMazeGenerator.ts:114 | a swap is a permutation |
| SolvableMazeGenerator.SwapEntries | lib/solvableMazeGenerator.ts:114 | the in-place array swap matches Swap on the contents |
| SolvableMazeGenerator.FisherYates | lib/solvableMazeGenerator.ts:112-115 | the shuffle is a permutation |
| SolvableMazeGenerator.ShuffleStep | lib/solvableMazeGenerator.ts:112-115 | one shuffle round draws nextInt(i + 1) in [0, i] and swaps with it |
| SolvableMazeGenerator.GetRandomizedDirections | lib/solvableMazeGenerator.ts:103-118 | a permutation of the four neighbours; seeded, it consumes exactly three draws with bounds 4, 3, 2 |
| SolvableMazeGenerator.Search | lib/solvableMazeGenerator.ts:60-101 | the seeded search as a function of the path so far, the cell tried and the generator state: a failure leaves the path as it was; a success extends it, starting with current, to exactly targetLength cells; the state stays in [0, 2^32) |
| SolvableMazeGenerator.TryAll | lib/solvableMazeGenerator.ts:91-96 | the seeded loop over the shuffled directions: a failure leaves the path as it was, a success extends it to exactly targetLength cells |
| SolvableMazeGenerator.FindRandomHamiltonianPath | lib/solvableMazeGenerator.ts:60-101 | off-board or visited cells fail without drawing; on failure the path and visited set are as on entry; on success the path extends the old one from current, reaches targetLength and stays a walk whose cells are the visited set; seeded, the result, the new path and the generator state are exactly Search of the entry path and state |
| SolvableMazeGenerator.ExploreFrom | lib/solvableMazeGenerator.ts:87-100 | once current is pushed: on failure current is popped and removed from visited, leaving the entry path; on success the path reaches targetLength with the entry path and current as its prefix; seeded, the outcome is TryAll over the three-draw shuffle of the neighbours |
| SolvableMazeGenerator.TryDirections | lib/solvableMazeGenerator.ts:91-96 | the first successful direction wins; when all fail the trail is as on entry; seeded, the result, path and state are TryAll's from the entry state |
| SolvableMazeGenerator.GenerateRandomHamiltonianFromStart | lib/solvableMazeGenerator.ts:47-58 | any result is a Hamiltonian path of the board starting at start; an off-board start gives null; seeded, the result and the final state are FromStart's |
| SolvableMazeGenerator.FromStart | lib/solvableMazeGenerator.ts:47-58 | a path the seeded search finds from start has size * size cells and begins at start; the state stays in [0, 2^32) |
| SolvableMazeGenerator.SnakeRow | lib/solvableMazeGenerator.ts:163-229 | each snake row has size cells in its walking direction |
| SolvableMazeGenerator.SnakeLength | lib/solvableMazeGenerator.ts:163-232 | rows walked times size cells |
| SolvableMazeGenerator.SnakeRowWalk | lib/solvableMazeGenerator.ts:163-229 | a row is a walk of adjacent cells |
| SolvableMazeGenerator.SnakeMembers | lib/solvableMazeGenerator.ts:163-229 | the first rows walked lie in the rows nearest the starting corner |
| SolvableMazeGenerator.SnakeTurn | lib/solvableMazeGenerator.ts:163-229 | the end of one row is adjacent to the start of the next |
| SolvableMazeGenerator.SnakeLast | lib/solvableMazeGenerator.ts:163-229 | the snake ends at the last cell of its last row |
| SolvableMazeGenerator.SnakeDisjoint | lib/solvableMazeGenerator.ts:163-229 | a new row shares no cell with the rows before it |
| SolvableMazeGenerator.SnakeStep | lib/solvableMazeGenerator.ts:163-229 | adding a row keeps the snake a walk |
| SolvableMazeGenerator.SnakeWalk | lib/solvableMazeGenerator.ts:163-229 | the snake of any number of rows is a walk |
| SolvableMazeGenerator.SnakeFirst | lib/solvableMazeGenerator.ts:163-229 | the snake starts at the first cell of its first row |
| SolvableMazeGenerator.SnakeHamiltonian | lib/solvableMazeGenerator.ts:163-232 | for every corner the snake is a Hamiltonian path of the board starting at that corner |
| SolvableMazeGenerator.GenerateSnakePath | lib/solvableMazeGenerator.ts:163-232 | the loops build the snake for the given corner |
| SolvableMazeGenerator.GenerateRandomSnakePath | lib/solvableMazeGenerator.ts:154-159 | a Hamiltonian snake from some corner; seeded, from the corner nextInt(4) picks |
| SolvableMazeGenerator.GenerateVariedHamiltonianPath | lib/solvableMazeGenerator.ts:25-45 | after at most 100 attempts or the snake fallback, always a Hamiltonian path of the board; seeded, the path and the final state are Varied(size, 0, entry state), so the same state gives the same path |
| SolvableMazeGenerator.Attempt | lib/solvableMazeGenerator.ts:31-37 | one seeded attempt (two start draws, then the search) keeps the state in [0, 2^32) |
| SolvableMazeGenerator.TryRandomStart | lib/solvableMazeGenerator.ts:32-37 | any candidate is a Hamiltonian path of the board; seeded, the candidate and the state are Attempt's |
| SolvableMazeGenerator.Varied | lib/solvableMazeGenerator.ts:25-45 | the seeded result from any attempt on always has size * size cells and leaves the state in [0, 2^32) |
| SolvableMazeGenerator.SnakeFallback | lib/solvableMazeGenerator.ts:43-44 | the fallback is a Hamiltonian path of the board; seeded, path and state are what Varied yields once all 100 attempts are used up |
| SolvableMazeGenerator.SelectionTarget | lib/solvableMazeGenerator.ts:133 | the loop aims for dotCount - 2 indices capped by the interior size |
| SolvableMazeGenerator.DrawIndices | lib/solvableMazeGenerator.ts:130-136 | distinct in-range indices, at most the target, with fewer only when the draw budget ran out; seeded, the indices and the state are IndexDraws' from the empty set |
| SolvableMazeGenerator.IndexDraws | lib/solvableMazeGenerator.ts:130-136 | the seeded selection loop keeps the indices distinct and below the bound, ends with at most the target count unless it drew nothing, and keeps the state in [0, 2^32) |
| SolvableMazeGenerator.SortIndices | lib/solvableMazeGenerator.ts:139 | the ascending sort of the selected indices: a strictly increasing permutation of them, still in range |
| SolvableMazeGenerator.SortedIndexSet | lib/solvableMazeGenerator.ts:139 | sorting distinct indices below a bound gives a strictly increasing sequence below that bound |
| SolvableMazeGenerator.ChooseInterior | lib/solvableMazeGenerator.ts:130-139 | strictly increasing interior indices, at most the target, fewer only when the budget ran out; seeded, shifted past path[0] they are SeededPicks' |
| SolvableMazeGenerator.SeededPicks | lib/solvableMazeGenerator.ts:129-139 | the seeded picks are strictly increasing path indices strictly between the first and the last cell; the state stays in [0, 2^32) |
| SolvableMazeGenerator.PlacedAt | lib/solvableMazeGenerator.ts:141-151 | path[0] first, the last path cell last, and path[picks[k]] as entry k + 1 between them |
| SolvableMazeGenerator.SelectRandomDotPositions | lib/solvableMazeGenerator.ts:120-152 | path[0] first, the last path cell last, and between them path cells at strictly increasing interior indices, i.e. PlacedAt(path, picks); seeded, the picks and the state are SeededPicks' |
| SolvableMazeGenerator.DotsOnBoard | lib/solvableMazeGenerator.ts:234-252 | only on-board positions become dots |
| SolvableMazeGenerator.DotsOnBoardMembers | lib/solvableMazeGenerator.ts:234-252 | a dot is placed exactly when its index's position is on the board, with id = index and number = index + 1 |
| SolvableMazeGenerator.DotsOnBoardStep | lib/solvableMazeGenerator.ts:235-251 | one forEach step adds the dot for its index when on the board, and nothing otherwise |
| SolvableMazeGenerator.DotsOnBoardAllInBounds | lib/solvableMazeGenerator.ts:234-252 | with every position on the board it places the same dots as gridGenerator's placeDots |
| SolvableMazeGenerator.PlaceDotIfOnBoard | lib/solvableMazeGenerator.ts:235-251 | an on-board position gets its dot and cell; an off-board one changes nothing |
| SolvableMazeGenerator.PlaceDots | lib/solvableMazeGenerator.ts:234-252 | the on-board dots are appended and only their cells become occupied |
| SolvableMazeGenerator.Bracketed | lib/solvableMazeGenerator.ts:142-149 | the first index, the sorted interior indices and the last index are strictly increasing |
| SolvableMazeGenerator.SelectionLayout | lib/solvableMazeGenerator.ts:120-152 | the selected positions, numbered in order, lie on the path with dot 1 at its start, the last dot at its end, and the dots in path order |
| SolvableMazeGenerator.FullSelection | lib/solvableMazeGenerator.ts:129-133 | from 3 x 3 boards on the selection aims for all six interior dots, so eight in total |
| SolvableMazeGenerator.ChooseLayout | lib/solvableMazeGenerator.ts:11-14 | the path and dot positions form a solvable layout; from 3 x 3 boards on there are exactly eight positions unless the draw budget was spent; seeded, they are SeededLayout of the size and the entry state |
| SolvableMazeGenerator.FinishGrid | lib/solvableMazeGenerator.ts:17-20 | the dots are placed on the empty grid and the solution path is attached |
| SolvableMazeGenerator.GenerateSolvableMaze | lib/solvableMazeGenerator.ts:6-23 | a fresh grid whose solution path is a Hamiltonian path with dot 1 at its start, the last dot at its end and the dots in path order, and whose cells are the empty board with the dots placed; from 3 x 3 boards on it has exactly eight dots unless the draw budget was spent; with a non-zero seed the solution path and the dots are those of SeededLayout(size, seed), so a seed reproduces its puzzle |
| DragPath.AdjacentSymmetric | hooks/useDragPath.ts:11-16 | areAdjacent is symmetric and irreflexive |
| DragPath.DotAt | hooks/useDragPath.ts:36 | find returns a dot on that cell exactly when there is one |
| DragPath.DotAtUnique | hooks/useDragPath.ts:36 | with no two dots on one cell, find returns that cell's dot |
| DragPath.ValidateDotSequence | hooks/useDragPath.ts:23-47 | true exactly when every dot is on the path and the dots met along it are numbered 1, 2, ... with at least one per dot |
| DragPath.MetStep | hooks/useDragPath.ts:35-44 | one more cell adds its dot, if any, to the dots met |
| DragPath.MetOutOfOrder | hooks/useDragPath.ts:39-41 | a dot met with the wrong number rules out an in-order sequence |
| DragPath.MetExtends | hooks/useDragPath.ts:35-44 | the dots met along a prefix are a prefix of those met along a longer one |
| DragPath.InOrderDots | hooks/useDragPath.ts:33-46 | dot positions occurring along the path in list order have increasing first indices |
| DragPath.MetPrefix | hooks/useDragPath.ts:35-44 | on a repetition-free path visiting the dots in order, the dots met so far are the first dots of the list |
| DragPath.MetHit | hooks/useDragPath.ts:38-43 | the step onto dot c's cell meets exactly dot c next |
| DragPath.MissSplit | hooks/useDragPath.ts:38 | a cell that is not the next dot's cell holds no dot |
| DragPath.MetMiss | hooks/useDragPath.ts:38 | a cell without a dot leaves the dots met unchanged |
| DragPath.SolutionPathAccepted | hooks/useDragPath.ts:103-114 | the generator's solution path fills the board and passes validateDotSequence |
| DragPath.DraggedWalk | hooks/useDragPath.ts:72-116 | a drag step keeps the path a non-empty walk; it becomes a prefix (rewind) or the old path plus the new cell |
| DragPath.Dragged | hooks/useDragPath.ts:72-116 | a drag step leaves a non-empty path that is a prefix of the old one or the old one plus pos; a proper prefix exactly when pos is on the board and occurs before the last cell; the old path plus pos exactly when pos is on the board, not on the path and adjacent to its end |
| DragPath.RewindRedo | hooks/useDragPath.ts:83-100 | dragging back onto the previous cell drops the last one, and dragging forward again restores it |
| DragPath.DragSession.constructor | hooks/useDragPath.ts:50-53 | empty path, not dragging, no positions |
| DragPath.DragSession.MouseDown | hooks/useDragPath.ts:56-69 | drags only on an empty path (which becomes [pos]) or on the path's last cell; otherwise nothing changes |
| DragPath.DragSession.MouseMove | hooks/useDragPath.ts:72-116 | not dragging: nothing changes; dragging: the path takes one drag step, lastDragPos becomes the cell exactly when the path changed, the path stays a walk of at most size * size cells, and completion fires exactly when an extension fills the board and the dot order is valid |
| DragPath.DragSession.MouseUp | hooks/useDragPath.ts:119-126 | stops dragging and clears the drag position when dragging; the path is kept |
| DragPath.DragSession.ClearPath | hooks/useDragPath.ts:129-134 | empty path, not dragging, no positions |
| MazeSolver.Steps | lib/mazeSolver.ts:67-72 | four moves |
| MazeSolver.OnBoard | lib/mazeSolver.ts:77-80 | keeps exactly the on-board entries |
| MazeSolver.NeighboursExact | lib/mazeSolver.ts:65-84 | a cell is listed exactly when it is on the board and adjacent |
| MazeSolver.NeighboursAdjacent | lib/mazeSolver.ts:65-84 | every listed cell is on the board and adjacent |
| MazeSolver.NeighboursDistinct | lib/mazeSolver.ts:65-84 | no neighbour is listed twice |
| MazeSolver.NeighboursPrefixDistinct | lib/mazeSolver.ts:74-81 | filtering a repetition-free list keeps it repetition-free |
| MazeSolver.GetAdjacentPositions | lib/mazeSolver.ts:65-84 | the in-bounds neighbours in the order down, right, up, left |
| MazeSolver.GetAllGridPositions | lib/mazeSolver.ts:86-96 | the cells row by row, each row left to right |
| MazeSolver.AllGridPositionsExact | lib/mazeSolver.ts:86-96 | size * size cells, each board cell exactly once |
| MazeSolver.Connected | lib/mazeSolver.ts:42-44 | the targets already on the path, at most all of them |
| MazeSolver.ConnectedAll | lib/mazeSolver.ts:42-46 | the filter keeps every target exactly when the path covers them all |
| MazeSolver.FindPathRecursive | lib/mazeSolver.ts:25-63 | visited cells are rejected; on false the path and visited set are as on entry; on true the path extends the old one from current, is a self-avoiding walk, covers every target, and its last cell is the first to complete them |
| MazeSolver.TryNeighbours | lib/mazeSolver.ts:53-57 | the first successful neighbour wins; when all fail the trail is as on entry |
| MazeSolver.FindSolutionPath | lib/mazeSolver.ts:4-23 | null when there are no dots; any path is a self-avoiding on-board walk that starts at a dot's cell and passes every dot |
| MazeSolver.ValidatePlayerPath | lib/mazeSolver.ts:99-131 | hasSelfCrossing exactly when a cell repeats; connectedDots counts the dots on the path and equals totalDots exactly when all are on it; isValid exactly when there is no repeat and all dots are on the path |
| GameState.ResetGame | hooks/useGameState.ts:19-29 | a fresh generated grid of side 5 for easy and 6 otherwise, an empty valid path, game not complete; the grid has eight dots unless the draw budget was spent |
| GameState.AddDotToPath | hooks/useGameState.ts:31-51 | appends the dot and keeps the grid and difficulty; the verdicts are validatePath and isPathComplete of the new list, and the game is complete when both hold |
| GameState.ClearPath | hooks/useGameState.ts:53-59 | empty, valid, incomplete path; grid and difficulty kept |
| GameState.AddDotValidity | hooks/useGameState.ts:31-51 | the path stays valid exactly when the new dot is numbered next after the last dot and reachable from it, the first dot always |
| GameState.InvalidStaysInvalid | hooks/useGameState.ts:31-51 | once invalid, no sequence of added dots makes the path valid or the game complete |
| GameState.AddAll | hooks/useGameState.ts:31-51 | adding a list of dots appends them all and leaves a consistent state |
| GameState.GameCompleteOrdered | hooks/useGameState.ts:48 | a finished game holds eight dots numbered 1 to 8 in order, each reachable from the one before |
| GameState.NumberedDotsFinish | hooks/useGameState.ts:31-59 | entering dots 1 to 8 after clearPath finishes the game exactly when every step is reachable |
| GameState.GeneratedDotsFinish | hooks/useGameState.ts:31-51 | a generated grid with all eight dots is a complete dot list, and entering them in order from a cleared path finishes the game exactly when every step is reachable |
| GameState.ClearedThenAdded | hooks/useGameState.ts:31-59 | after clearPath the path is exactly the added dots |
| GameState.NumberedStepsReachable | lib/pathValidator.ts:67-90 | for dots numbered 1 to 8 validity is reachability of each step, and the list is complete |
| KeyboardNavigation.Move | hooks/useKeyboardNavigation.ts:23-55 | an arrow key moves the cursor to the cell it points at when that cell is on the board and keeps it otherwise; other keys leave it |
| KeyboardNavigation.Selected | hooks/useKeyboardNavigation.ts:48-54 | Space/Enter select the dot under the cursor, exactly when there is one |
| KeyboardNavigation.MoveAllStaysOnBoard | hooks/useKeyboardNavigation.ts:24-47 | from any on-board cell, no key sequence takes the cursor off the board |
| KeyboardNavigation.Repeat | hooks/useKeyboardNavigation.ts:23-55 | n presses of one key |
| KeyboardNavigation.MoveAllAppend | hooks/useKeyboardNavigation.ts:23-55 | pressing a then b is pressing b from where a leaves the cursor |
| KeyboardNavigation.DownPresses | hooks/useKeyboardNavigation.ts:30-35 | n ArrowDown presses within the board move n rows down |
| KeyboardNavigation.RightPresses | hooks/useKeyboardNavigation.ts:42-47 | n ArrowRight presses within the board move n columns right |
| KeyboardNavigation.EveryCellSelectable | hooks/useKeyboardNavigation.ts:12-47 | from the start (0, 0) every cell is reached by y ArrowDown and x ArrowRight presses |
| PerformanceTracker.DigitChar | lib/performanceTracker.ts:134-136 | a digit character with its value |
| PerformanceTracker.Decimal | lib/performanceTracker.ts:134-136 | toString of a non-negative integer: at least one digit, a single one exactly below 10 |
| PerformanceTracker.DecimalRoundTrip | lib/performanceTracker.ts:134-136 | reading the digits back gives the number |
| PerformanceTracker.FormatDuration | lib/performanceTracker.ts:127-138 | the text has at least two characters and ends in "s" exactly when the duration is under one minute |
| PerformanceTracker.PadStart2 | lib/performanceTracker.ts:134 | padStart(2, '0') keeps strings of two or more and left-pads shorter ones with zeros to two |
| PerformanceTracker.SecondsForm | lib/performanceTracker.ts:136 | "<digits>s" reads back as its number |
| PerformanceTracker.MinutesForm | lib/performanceTracker.ts:134 | "<m>:<ss>" reads back as 60 m + ss |
| PerformanceTracker.MinutesParts | lib/performanceTracker.ts:134 | the parts of "<m>:<ss>" are where the reader looks |
| PerformanceTracker.MinutesShape | lib/performanceTracker.ts:134 | a string with a colon three from the end reads as minutes and seconds |
| PerformanceTracker.PaddedSeconds | lib/performanceTracker.ts:131-134 | seconds below 60 padded to two digits read back as themselves |
| PerformanceTracker.FormatDurationReadsBack | lib/performanceTracker.ts:127-138 | a non-negative duration is shown as floor(d / 1000) whole seconds, as "<s>s" exactly below one minute and as "m:ss" from one minute on |
| PerformanceTracker.GamePerformanceTracker.constructor | lib/performanceTracker.ts:4-9 | start 0, no moves, unlimited mode, easy, not tracking |
| PerformanceTracker.GamePerformanceTracker.StartGame | lib/performanceTracker.ts:14-20 | starts tracking now with no moves and the given mode and difficulty |
| PerformanceTracker.GamePerformanceTracker.TrackMove | lib/performanceTracker.ts:25-28 | one more move while tracking, nothing otherwise |
| PerformanceTracker.GamePerformanceTracker.ResetMoves | lib/performanceTracker.ts:33-36 | no moves while tracking, nothing otherwise |
| PerformanceTracker.GamePerformanceTracker.CompleteGame | lib/performanceTracker.ts:41-58 | the record holds the move count, the elapsed time (0 when not tracking), mode, difficulty and outcome; tracking stops, everything else is kept |
| PerformanceTracker.GamePerformanceTracker.StopTracking | lib/performanceTracker.ts:63-65 | clears only the tracking flag |
| PerformanceTracker.GamePerformanceTracker.CurrentDuration | lib/performanceTracker.ts:84-87 | 0 when not tracking, otherwise the time since the start |
| PerformanceTracker.GamePerformanceTracker.FormattedDuration | lib/performanceTracker.ts:127-138 | "0s" when not tracking; otherwise the text shows the elapsed whole seconds |
| UserStats.DefaultStats | types/userStats.ts:43-63 | the defaults are a sane record |
| UserStats.StreakFrom | lib/userStats.ts:122-135 | the run never exceeds the list |
| UserStats.Streak | lib/userStats.ts:113-138 | the streak is at most the number of dates, and 0 when today is absent |
| UserStats.StreakFromRun | lib/userStats.ts:122-135 | on a strictly descending list the count is the length of the run of consecutive days ending at the expected day |
| UserStats.RunExtends | lib/userStats.ts:127-130 | a matching newest date extends the run by one day |
| UserStats.NewestFirstMembers | lib/userStats.ts:117 | sorting and reversing keeps the dates |
| UserStats.ReverseDescending | lib/userStats.ts:117 | an ascending repetition-free list reversed is strictly descending |
| UserStats.NewestFirstDescending | lib/userStats.ts:117 | distinct dates sorted newest first are strictly descending |
| UserStats.StreakIsRun | lib/userStats.ts:113-138 | for distinct dates no later than today, the streak n has today, today - 1, ..., today - n + 1 completed and today - n not |
| UserStats.CalculateCurrentStreak | lib/userStats.ts:113-138 | the loop computes the streak of the dates ending today |
| UserStats.AddCompletedDate | lib/userStats.ts:87-90 | today is added at most once, the list stays sorted, and nothing else changes |
| UserStats.UpdateUserStats | lib/userStats.ts:43-108 | counters per mode; totals and best time from completed games only; a new daily completion records today, recomputes the streak and raises the best streak; otherwise dates and streaks are kept |
| UserStats.UpdateKeepsSane | lib/userStats.ts:43-108 | an update keeps won <= played, streak <= best streak, non-negative totals and sorted, distinct dates |
| UserStats.AddCompletedDateDistinct | lib/userStats.ts:87-90 | adding today keeps the dates distinct |
| UserStats.DailyStreakIsRun | lib/userStats.ts:83-101 | after a new daily completion the streak is at least 1 and is the run of consecutive days ending today |
| UserStats.MigrateStatsIfNeeded | lib/userStats.ts:152-184 | a version 1.0 record is returned unchanged; any other gets every field, missing ones from the defaults, and loses its version |
| UserStats.MigrateIdempotent | lib/userStats.ts:152-184 | migrating a migrated record changes nothing, and a complete record keeps its values |

## Left out

- Rendering, canvas drawing, the pixel-to-cell mapping, UI composition, routing, analytics and static pages are not part of this model.
- React hook machinery (`useState`, `useCallback`, `useEffect`, listeners) is not modelled. Only the transitions the hooks wrap are. Staleness of closures and batching of state updates are not modelled: each handler sees the state its call began with.
- `getTodaysSeed`, `getTodaysDateString` and `lib/dailyChallenge.ts` read the clock and local storage. They are not modelled, and the date string is a parameter. UTC versus local-time differences are not modelled.
- `getUserStats`, `saveUserStats`, `resetStats`, `importUserStats`, `exportUserStats`, `getDailyStats`, `getUnlimitedStats`, `getPerformanceStats` and `getStatsSummary` are storage or display code.
- UserStats.UpdateUserStats: `averageCompletionTime` and `averageMovesPerGame` are floating-point and are dropped from the record.
- UserStats.UpdateUserStats: dates are day numbers. ISO date strings sort like their day numbers, and stepping the date back one day is day - 1 (daylight-saving effects of `setDate` are not modelled).
- UserStats.MigrateStatsIfNeeded: a stored field is either present with the right type or missing. Fields of the wrong JSON type are not modelled.
- Random.SeededRandom.Next: returns the exact rational state / 2^32. Rounding to a double is not modelled; it is exact for these values.
- Random.SeededRandom.constructor: seeds must lie in (-2^32, 2^32), the range where the double arithmetic of the LCG is exact. The generator entry point takes seeds in [0, 2^32).
- SolvableMazeGenerator.DrawInt: an unseeded `Math.random` draw is any integer in [0, max), chosen nondeterministically.
- SolvableMazeGenerator.DrawIndices: the rejection loop that draws interior indices is bounded by a fuel budget (`SelectionFuel`). It is therefore weaker than the source, which retries until enough distinct indices are drawn; with the budget spent, fewer interior dots are chosen. The seeded functions IndexDraws and SeededPicks, and with them SeededLayout, carry the same budget.
- SolvableMazeGenerator.GenerateSolvableMaze: requires size >= 1. An empty board makes the source read `path[0]` of an empty path.
- GameState.ResetGame, PerformanceTracker.GamePerformanceTracker.StartGame and PerformanceTracker.GamePerformanceTracker.CompleteGame: the source's default arguments are not modelled; callers pass them explicitly. These are `difficulty = gameState.difficulty` (hooks/useGameState.ts:19), `gameMode = 'unlimited'` and `difficulty = 'easy'` (lib/performanceTracker.ts:14), and `completed = true` (lib/performanceTracker.ts:41).
- `generateGrid` (lib/gridGenerator.ts:39-41) is a direct call of `generateSolvableMaze(size)`. `GameState.ResetGame` calls the generator model directly.
- GridGenerator.PlaceDots: requires every position on the board, because the source indexes the cell matrix without a check and would crash.
- PathValidator.CanReachHV: requires both endpoints on the board. The source reads `grid.cells[y][x]` and crashes on a missing row. The same requirement holds for PathValidator.CanReachVH, PathValidator.IsReachable and PathValidator.ValidatePath.
- `generateSolvablePositions`, `generateRandomPositions` and `createTestGrid` (lib/solvabilityChecker.ts:119-174) are the unseeded random generator of the alternate strategy. They are not modelled.
- SolvabilityChecker.GetFallbackPositions: the random top-up loop (lib/solvabilityChecker.ts:204-211) is proved unnecessary when dotCount <= size * size, because the spiral reaches every cell. With more dots the source loops forever, so the model requires dotCount <= size * size.
- SolvabilityChecker.CanReachAllCells: the coverage factor 0.6 is computed as size * size * 6 / 10 in integers.
- The string keys `"x,y"` of the visited sets are modelled as the positions themselves.
- MazeSolver.FindSolutionPath: requires every dot on the board, which holds for generated grids; the source has no check. A null result is not proved to mean that no path exists. The unused `getAllGridPositions` call at its start is dropped.
- MazeSolver.FindPathRecursive: requires that the trail does not yet cover the targets. This holds at every call the source makes: the first call starts with an empty trail and at least one dot, and each recursive call follows a failed coverage test.
- DragPath.DragSession.MouseDown: requires an on-board cell, because the grid component reports only on-board cells.
- `pauseTracking` and `resumeTracking` only re-read the clock. `getPerformanceSummary` and the trivial getters `isCurrentlyTracking`, `getCurrentMoveCount`, `getCurrentGameMode` and `getCurrentDifficulty` are field reads. The `date` field of `GamePerformance` comes from the clock. None of these is modelled.
- Console logging of skipped dot positions and of migrations is not modelled.
