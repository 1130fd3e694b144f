/** lib/solvableMazeGenerator.ts: a puzzle is a Hamiltonian path of the board
    (a random backtracking walk, or a boustrophedon "snake" when 100 attempts
    fail) with dot 1 on its first cell, dot 8 on its last cell and dots 2..7 on
    cells picked along it in path order. Following the path therefore solves
    the puzzle. */
module SolvableMazeGenerator {
  import opened SeqUtil
  import opened GameTypes
  import opened Random
  import GridGenerator

  // ---------------------------------------------------------------------
  // The source of draws

  /** A generator is either a SeededRandom with a non-negative state or, when
      null, Math.random. */
  predicate RngOk(rng: SeededRandom?)
    reads rng
  {
    rng != null ==> 0 <= rng.seed < Modulus
  }

  /** `rng.nextInt(max)` when seeded, otherwise Math.floor(Math.random() * max),
      which is some value of [0, max) that the model leaves open. */
  method DrawInt(rng: SeededRandom?, max: int) returns (r: int)
    requires RngOk(rng)
    modifies rng
    ensures RngOk(rng)
    ensures rng != null ==> rng.seed == LcgStep(old(rng.seed)) && r == ScaledDraw(rng.seed, max)
    ensures max > 0 ==> 0 <= r < max
  {
    if rng != null {
      r := rng.NextInt(max);
    } else if max > 0 {
      r :| 0 <= r < max;
    } else {
      r := 0;
    }
  }

  // ---------------------------------------------------------------------
  // getRandomizedDirections

  /** The four neighbours in the order right, left, down, up. */
  function Neighbours(c: Position): (r: seq<Position>)
    ensures |r| == 4
  {
    [Position(c.x + 1, c.y), Position(c.x - 1, c.y), Position(c.x, c.y + 1), Position(c.x, c.y - 1)]
  }

  lemma NeighboursAdjacent(c: Position, p: Position)
    requires p in Neighbours(c)
    ensures Adjacent(c, p)
  {
  }

  function Swap<T>(s: seq<T>, i: int, j: int): (r: seq<T>)
    requires 0 <= i < |s| && 0 <= j < |s|
    ensures |r| == |s| && multiset(r) == multiset(s)
  {
    s[i := s[j]][j := s[i]]
  }

  /** The destructuring swap [a[i], a[j]] = [a[j], a[i]]. */
  method SwapEntries<T>(a: array<T>, i: int, j: int)
    requires 0 <= i < a.Length && 0 <= j < a.Length
    modifies a
    ensures a[..] == Swap(old(a[..]), i, j)
  {
    a[i], a[j] := a[j], a[i];
  }

  /** Fisher–Yates from index i down to 1: entry i is swapped with entry js[0],
      then i-1 with js[1], and so on. */
  function FisherYates<T>(s: seq<T>, i: nat, js: seq<int>): (r: seq<T>)
    requires i < |s|
    ensures |r| == |s| && multiset(r) == multiset(s)
    decreases i
  {
    if i == 0 || js == [] then s
    else if 0 <= js[0] < |s| then FisherYates(Swap(s, i, js[0]), i - 1, js[1..])
    else FisherYates(s, i - 1, js[1..])
  }

  /** The bounds of the three draws of a shuffle, from the k-th on: 4-k, ..., 2. */
  function ShuffleBounds(k: nat): seq<int>
    requires k <= 3
  {
    seq(3 - k, n => 4 - k - n)
  }

  /** One round of the seeded shuffle: the draw for index i is
      nextInt(i + 1) on the next state. */
  lemma ShuffleStep(a: seq<Position>, i: nat, state: int)
    requires 1 <= i <= 3 && |a| == 4 && 0 <= state < Modulus
    ensures 0 <= ScaledDraw(LcgStep(state), i + 1) <= i
    ensures FisherYates(a, i, Draws(state, ShuffleBounds(3 - i))) ==
            FisherYates(Swap(a, i, ScaledDraw(LcgStep(state), i + 1)), i - 1, Draws(LcgStep(state), ShuffleBounds(3 - i + 1)))
    ensures StateAfter(state, i) == StateAfter(LcgStep(state), i - 1)
  {
    ScaledDrawInRange(LcgStep(state), i + 1);
    assert ShuffleBounds(3 - i) == [i + 1] + ShuffleBounds(3 - i + 1);
  }

  /** getRandomizedDirections: a permutation of the four neighbours. Seeded, it
      is the Fisher–Yates shuffle driven by nextInt(4), nextInt(3), nextInt(2),
      drawn in that order. */
  method GetRandomizedDirections(current: Position, rng: SeededRandom?) returns (dirs: seq<Position>)
    requires RngOk(rng)
    modifies rng
    ensures RngOk(rng)
    ensures |dirs| == 4 && multiset(dirs) == multiset(Neighbours(current))
    ensures forall k :: 0 <= k < 4 ==> Adjacent(current, dirs[k])
    ensures rng != null ==> rng.seed == StateAfter(old(rng.seed), 3)
    ensures rng != null ==> dirs == FisherYates(Neighbours(current), 3, Draws(old(rng.seed), [4, 3, 2]))
  {
    var a := new Position[4](k requires 0 <= k < 4 => Neighbours(current)[k]);
    assert a[..] == Neighbours(current);
    ghost var s0 := if rng != null then rng.seed else 0;
    assert ShuffleBounds(0) == [4, 3, 2];
    var i := 3;
    while i > 0
      invariant 0 <= i <= 3
      invariant RngOk(rng)
      invariant multiset(a[..]) == multiset(Neighbours(current))
      invariant rng != null ==> StateAfter(s0, 3) == StateAfter(rng.seed, i)
      invariant rng != null ==>
        FisherYates(Neighbours(current), 3, Draws(s0, ShuffleBounds(0))) ==
        FisherYates(a[..], i, Draws(rng.seed, ShuffleBounds(3 - i)))
    {
      ghost var before := a[..];
      if rng != null {
        ShuffleStep(before, i, rng.seed);
      }
      var j := DrawInt(rng, i + 1);
      SwapEntries(a, i, j);
      i := i - 1;
    }
    dirs := a[..];
    forall k | 0 <= k < 4
      ensures Adjacent(current, dirs[k])
    {
      SameMultisetSameMembers(dirs, Neighbours(current), dirs[k]);
      NeighboursAdjacent(current, dirs[k]);
    }
  }

  // ---------------------------------------------------------------------
  // findRandomHamiltonianPath

  /** What a search on a SeededRandom ends with: whether it succeeded, the
      path it leaves behind and the generator state after its last draw. */
  datatype SearchOutcome = SearchOutcome(found: bool, path: seq<Position>, state: int)

  /** findRandomHamiltonianPath driven by a SeededRandom in state `state`, as a
      function of the path so far, the cell tried and the state: the seeded
      search is determined by them. */
  ghost function Search(path: seq<Position>, current: Position, size: nat, targetLength: int, state: int): (o: SearchOutcome)
    ensures !o.found ==> o.path == path
    ensures o.found ==> |path| < |o.path| == targetLength && o.path[..|path|] == path && o.path[|path|] == current
    ensures 0 <= state < Modulus ==> 0 <= o.state < Modulus
    decreases Board(size) - Elems(path), 0
  {
    if !InBounds(current, size) || current in path then SearchOutcome(false, path, state)
    else
      var extended := path + [current];
      assert Board(size) - Elems(extended) < Board(size) - Elems(path) by {
        InBoard(current, size);
        ElemsAppend(path, current);
      }
      if |extended| == targetLength then SearchOutcome(true, extended, state)
      else
        var directions := FisherYates(Neighbours(current), 3, Draws(state, [4, 3, 2]));
        var o := TryAll(directions, 0, extended, size, targetLength, StateAfter(state, 3));
        if o.found then
          assert o.path[..|extended|][..|path|] == o.path[..|path|];
          o
        else SearchOutcome(false, path, o.state)
  }

  /** One level of the seeded search from a fresh on-board cell that does not
      complete the path: shuffle with three draws, then try the directions. */
  lemma SearchStep(path: seq<Position>, current: Position, size: nat, targetLength: int, state: int)
    requires InBounds(current, size) && current !in path && |path| + 1 != targetLength
    ensures Search(path, current, size, targetLength, state) ==
              var o := TryAll(FisherYates(Neighbours(current), 3, Draws(state, [4, 3, 2])), 0,
                              path + [current], size, targetLength, StateAfter(state, 3));
              if o.found then o else SearchOutcome(false, path, o.state)
  {
  }

  /** The loop over the shuffled neighbours, from the i-th on, as a function. */
  ghost function TryAll(directions: seq<Position>, i: nat, path: seq<Position>, size: nat, targetLength: int, state: int)
    : (o: SearchOutcome)
    requires i <= |directions|
    ensures !o.found ==> o.path == path
    ensures o.found ==> |path| < |o.path| == targetLength && o.path[..|path|] == path
    ensures 0 <= state < Modulus ==> 0 <= o.state < Modulus
    decreases Board(size) - Elems(path), 1, |directions| - i
  {
    if i == |directions| then SearchOutcome(false, path, state)
    else
      var o := Search(path, directions[i], size, targetLength, state);
      if o.found then o else TryAll(directions, i + 1, path, size, targetLength, o.state)
  }

  /** The backtracking search: extends trail.path by a walk that starts at
      `current` and reaches targetLength cells. On failure the trail is
      restored exactly. */
  method FindRandomHamiltonianPath(current: Position, trail: Trail, size: nat, targetLength: int, rng: SeededRandom?)
    returns (found: bool)
    requires RngOk(rng) && trail.Valid(size)
    requires trail.path != [] ==> Adjacent(trail.path[|trail.path| - 1], current)
    modifies trail, rng
    ensures RngOk(rng) && trail.Valid(size)
    ensures !found ==> trail.path == old(trail.path) && trail.visited == old(trail.visited)
    ensures !InBounds(current, size) || current in old(trail.visited) ==>
              !found && (rng != null ==> rng.seed == old(rng.seed))
    ensures found ==>
              |trail.path| == targetLength && |old(trail.path)| < |trail.path| &&
              trail.path[..|old(trail.path)|] == old(trail.path) &&
              trail.path[|old(trail.path)|] == current
    ensures rng != null ==>
              SearchOutcome(found, trail.path, rng.seed) ==
              Search(old(trail.path), current, size, targetLength, old(rng.seed))
    decreases Board(size) - trail.visited, 0
  {
    if current.x < 0 || current.x >= size || current.y < 0 || current.y >= size {
      return false;
    }
    if current in trail.visited {
      return false;
    }
    ghost var path0 := trail.path;
    InBoard(current, size);
    trail.Push(current, size);
    if |trail.path| == targetLength {
      return true;
    }
    if rng != null {
      SearchStep(path0, current, size, targetLength, rng.seed);
    }
    found := ExploreFrom(current, path0, trail, size, targetLength, rng);
  }

  /** The rest of findRandomHamiltonianPath once `current` is pushed and does
      not complete the path: shuffle the neighbours, try them in turn, and
      pop `current` again when none succeeds. */
  method ExploreFrom(current: Position, ghost path0: seq<Position>, trail: Trail, size: nat, targetLength: int,
                     rng: SeededRandom?)
    returns (found: bool)
    requires RngOk(rng) && trail.Valid(size) && trail.path == path0 + [current]
    modifies trail, rng
    ensures RngOk(rng) && trail.Valid(size)
    ensures !found ==> trail.path == path0 && trail.visited == old(trail.visited) - {current}
    ensures found ==>
              |trail.path| == targetLength && |path0| < |trail.path| &&
              trail.path[..|path0|] == path0 && trail.path[|path0|] == current
    ensures rng != null ==>
              SearchOutcome(found, trail.path, rng.seed) ==
              var o := TryAll(FisherYates(Neighbours(current), 3, Draws(old(rng.seed), [4, 3, 2])), 0,
                              path0 + [current], size, targetLength, StateAfter(old(rng.seed), 3));
              if o.found then o else SearchOutcome(false, path0, o.state)
    decreases Board(size) - trail.visited, 2
  {
    var directions := GetRandomizedDirections(current, rng);
    found := TryDirections(directions, trail, size, targetLength, rng);
    if found {
      PrefixParts(trail.path, path0, current);
    } else {
      trail.Pop(path0, current, size);
    }
  }

  /** The loop over the shuffled neighbours: the first successful recursive
      search wins; when all fail the trail is as on entry. */
  method TryDirections(directions: seq<Position>, trail: Trail, size: nat, targetLength: int, rng: SeededRandom?)
    returns (found: bool)
    requires RngOk(rng) && trail.Valid(size) && trail.path != []
    requires forall k :: 0 <= k < |directions| ==> Adjacent(trail.path[|trail.path| - 1], directions[k])
    modifies trail, rng
    ensures RngOk(rng) && trail.Valid(size)
    ensures !found ==> trail.path == old(trail.path) && trail.visited == old(trail.visited)
    ensures found ==>
              |trail.path| == targetLength && |old(trail.path)| < |trail.path| &&
              trail.path[..|old(trail.path)|] == old(trail.path)
    ensures rng != null ==>
              SearchOutcome(found, trail.path, rng.seed) ==
              TryAll(directions, 0, old(trail.path), size, targetLength, old(rng.seed))
    decreases Board(size) - trail.visited, 1
  {
    var i := 0;
    while i < |directions|
      invariant 0 <= i <= |directions|
      invariant RngOk(rng)
      invariant trail.path == old(trail.path) && trail.visited == old(trail.visited)
      invariant rng != null ==>
                  TryAll(directions, 0, old(trail.path), size, targetLength, old(rng.seed)) ==
                  TryAll(directions, i, old(trail.path), size, targetLength, rng.seed)
    {
      found := FindRandomHamiltonianPath(directions[i], trail, size, targetLength, rng);
      if found {
        return true;
      }
      i := i + 1;
    }
    found := false;
  }

  /** generateRandomHamiltonianFromStart on a SeededRandom, as a function of
      the state: the path found, if any, and the state after the search. */
  ghost function FromStart(start: Position, size: nat, state: int): (r: (Option<seq<Position>>, int))
    ensures r.0.Some? ==> 0 < |r.0.value| == size * size && r.0.value[0] == start
    ensures 0 <= state < Modulus ==> 0 <= r.1 < Modulus
  {
    var o := Search([], start, size, size * size, state);
    (if o.found then Some(o.path) else None, o.state)
  }

  /** generateRandomHamiltonianFromStart: a Hamiltonian path from `start`, or None. */
  method GenerateRandomHamiltonianFromStart(start: Position, size: nat, rng: SeededRandom?)
    returns (r: Option<seq<Position>>)
    requires RngOk(rng)
    modifies rng
    ensures RngOk(rng)
    ensures r.Some? ==> IsHamiltonianPath(r.value, size) && |r.value| > 0 && r.value[0] == start
    ensures !InBounds(start, size) ==> r.None?
    ensures rng != null ==> (r, rng.seed) == FromStart(start, size, old(rng.seed))
  {
    var trail := new Trail();
    var found := FindRandomHamiltonianPath(start, trail, size, size * size, rng);
    if found {
      return Some(trail.path);
    }
    return None;
  }

  // ---------------------------------------------------------------------
  // The snake fallback (generateSnakePath, generateRandomSnakePath)

  datatype Corner = TopLeft | TopRight | BottomLeft | BottomRight

  /** The corner list the fallback draws from, in the source's order. */
  const Corners: seq<Corner> := [TopLeft, TopRight, BottomLeft, BottomRight]

  predicate FromTop(c: Corner) {
    c == TopLeft || c == TopRight
  }

  predicate FromLeft(c: Corner) {
    c == TopLeft || c == BottomLeft
  }

  /** The board cell of a corner. */
  function CornerCell(c: Corner, size: nat): Position {
    Position(if FromLeft(c) then 0 else size - 1, if FromTop(c) then 0 else size - 1)
  }

  /** The row the snake walks k-th: downwards from the top corners, upwards
      from the bottom ones. */
  function SnakeY(size: nat, c: Corner, k: nat): int {
    if FromTop(c) then k else size - 1 - k
  }

  /** Row k (counted from the starting corner) is walked left to right when k
      is even and the corner is on the left, or k is odd and it is on the right. */
  predicate LeftToRight(c: Corner, k: nat) {
    (k % 2 == 0) == FromLeft(c)
  }

  function SnakeX(size: nat, c: Corner, k: nat, col: nat): int {
    if LeftToRight(c, k) then col else size - 1 - col
  }

  /** The cells of the k-th row walked, in walking order. */
  function SnakeRow(size: nat, c: Corner, k: nat): (r: seq<Position>)
    ensures |r| == size
    ensures forall col :: 0 <= col < size ==> r[col] == Position(SnakeX(size, c, k, col), SnakeY(size, c, k))
  {
    seq(size, col requires 0 <= col => Position(SnakeX(size, c, k, col), SnakeY(size, c, k)))
  }

  /** The first `rows` rows of the snake from corner c. */
  function Snake(size: nat, c: Corner, rows: nat): seq<Position> {
    if rows == 0 then [] else Snake(size, c, rows - 1) + SnakeRow(size, c, rows - 1)
  }

  lemma {:induction false} SnakeLength(size: nat, c: Corner, rows: nat)
    ensures |Snake(size, c, rows)| == rows * size
  {
    if rows > 0 {
      SnakeLength(size, c, rows - 1);
      assert rows * size == (rows - 1) * size + size;
    }
  }

  lemma SnakeRowWalk(size: nat, c: Corner, k: nat)
    requires k < size
    ensures IsWalk(SnakeRow(size, c, k), size)
  {
    var r := SnakeRow(size, c, k);
    assert forall i :: 0 <= i < size - 1 ==> Adjacent(r[i], r[i + 1]);
  }

  /** The first `rows` rows lie on the rows SnakeY(0) .. SnakeY(rows-1). */
  lemma {:induction false} SnakeMembers(size: nat, c: Corner, rows: nat, p: Position)
    requires rows <= size
    requires p in Snake(size, c, rows)
    ensures 0 <= p.x < size
    ensures FromTop(c) ==> 0 <= p.y < rows
    ensures !FromTop(c) ==> size - rows <= p.y < size
  {
    if rows > 0 {
      if p in Snake(size, c, rows - 1) {
        SnakeMembers(size, c, rows - 1, p);
      }
    }
  }

  /** The last cell of row k-1 and the first cell of row k are neighbours:
      the rows alternate direction, so both lie in the same column. */
  lemma SnakeTurn(size: nat, c: Corner, k: nat)
    requires 1 <= k < size
    ensures Adjacent(SnakeRow(size, c, k - 1)[size - 1], SnakeRow(size, c, k)[0])
  {
    assert LeftToRight(c, k) == !LeftToRight(c, k - 1);
  }

  /** The last cell of the first `rows` rows is the end of row rows-1. */
  lemma SnakeLast(size: nat, c: Corner, rows: nat)
    requires 1 <= rows && 1 <= size
    ensures |Snake(size, c, rows)| > 0
    ensures Snake(size, c, rows)[|Snake(size, c, rows)| - 1] == SnakeRow(size, c, rows - 1)[size - 1]
  {
  }

  /** Row `rows` shares no cell with the rows before it. */
  lemma SnakeDisjoint(size: nat, c: Corner, rows: nat)
    requires rows < size
    ensures forall i, j :: 0 <= i < |Snake(size, c, rows)| && 0 <= j < size ==>
              Snake(size, c, rows)[i] != SnakeRow(size, c, rows)[j]
  {
    var a, b := Snake(size, c, rows), SnakeRow(size, c, rows);
    forall i, j | 0 <= i < |a| && 0 <= j < size
      ensures a[i] != b[j]
    {
      SnakeMembers(size, c, rows, a[i]);
    }
  }

  /** Appending row `rows` to a snake that is a walk gives a walk. */
  lemma SnakeStep(size: nat, c: Corner, rows: nat)
    requires 1 <= rows < size
    requires IsWalk(Snake(size, c, rows), size)
    ensures IsWalk(Snake(size, c, rows + 1), size)
  {
    var a, b := Snake(size, c, rows), SnakeRow(size, c, rows);
    SnakeRowWalk(size, c, rows);
    SnakeDisjoint(size, c, rows);
    SnakeLast(size, c, rows);
    SnakeTurn(size, c, rows);
    WalkConcat(a, b, size);
    assert Snake(size, c, rows + 1) == a + b;
  }

  lemma {:induction false} SnakeWalk(size: nat, c: Corner, rows: nat)
    requires rows <= size
    ensures IsWalk(Snake(size, c, rows), size)
  {
    if rows == 1 {
      SnakeRowWalk(size, c, 0);
      assert Snake(size, c, 1) == SnakeRow(size, c, 0);
    } else if rows > 1 {
      SnakeWalk(size, c, rows - 1);
      SnakeStep(size, c, rows - 1);
    }
  }

  /** The snake starts with the first cell of its first row. */
  lemma {:induction false} SnakeFirst(size: nat, c: Corner, rows: nat)
    requires 1 <= rows && 1 <= size
    ensures |Snake(size, c, rows)| > 0
    ensures Snake(size, c, rows)[0] == SnakeRow(size, c, 0)[0]
  {
    if rows > 1 {
      SnakeFirst(size, c, rows - 1);
    }
  }

  /** For every corner the snake is a Hamiltonian path starting at that corner. */
  lemma SnakeHamiltonian(size: nat, c: Corner)
    ensures IsHamiltonianPath(Snake(size, c, size), size)
    ensures size > 0 ==> Snake(size, c, size)[0] == CornerCell(c, size)
  {
    SnakeWalk(size, c, size);
    SnakeLength(size, c, size);
    if size > 0 {
      SnakeFirst(size, c, size);
    }
  }

  /** generateSnakePath: the rows in walking order from the corner, each pushed
      cell by cell in its direction. */
  method GenerateSnakePath(size: nat, corner: Corner) returns (path: seq<Position>)
    ensures path == Snake(size, corner, size)
  {
    path := [];
    var k := 0;
    while k < size
      invariant 0 <= k <= size
      invariant path == Snake(size, corner, k)
    {
      var row := SnakeY(size, corner, k);
      ghost var before := path;
      if LeftToRight(corner, k) {
        var col := 0;
        while col < size
          invariant 0 <= col <= size
          invariant path == before + SnakeRow(size, corner, k)[..col]
        {
          path := path + [Position(col, row)];
          assert SnakeRow(size, corner, k)[..col + 1] == SnakeRow(size, corner, k)[..col] + [Position(col, row)];
          col := col + 1;
        }
      } else {
        var col := size - 1;
        while col >= 0
          invariant -1 <= col <= size - 1
          invariant path == before + SnakeRow(size, corner, k)[..size - 1 - col]
        {
          path := path + [Position(col, row)];
          assert SnakeRow(size, corner, k)[..size - col] == SnakeRow(size, corner, k)[..size - 1 - col] + [Position(col, row)];
          col := col - 1;
        }
      }
      assert SnakeRow(size, corner, k)[..size] == SnakeRow(size, corner, k);
      k := k + 1;
    }
  }

  /** generateRandomSnakePath: the snake from a corner drawn with nextInt(4). */
  method GenerateRandomSnakePath(size: nat, rng: SeededRandom?) returns (path: seq<Position>)
    requires RngOk(rng)
    modifies rng
    ensures RngOk(rng)
    ensures IsHamiltonianPath(path, size)
    ensures exists c :: path == Snake(size, c, size)
    ensures rng != null ==>
              rng.seed == LcgStep(old(rng.seed)) && path == Snake(size, Corners[ScaledDraw(rng.seed, 4)], size)
  {
    var index := DrawInt(rng, |Corners|);
    path := GenerateSnakePath(size, Corners[index]);
    SnakeHamiltonian(size, Corners[index]);
  }

  // ---------------------------------------------------------------------
  // generateVariedHamiltonianPath

  const MaxAttempts: nat := 100

  /** One seeded attempt: two draws pick the start, then the search from it
      either yields a path or only moves the state on. */
  ghost function Attempt(size: nat, state: int): (r: (Option<seq<Position>>, int))
    ensures 0 <= state < Modulus ==> 0 <= r.1 < Modulus
  {
    var s1 := LcgStep(state);
    var s2 := LcgStep(s1);
    FromStart(Position(ScaledDraw(s1, size), ScaledDraw(s2, size)), size, s2)
  }

  /** generateVariedHamiltonianPath on a SeededRandom, from attempt `attempt`
      on, as a function of the state: the path and the state after it. */
  ghost function Varied(size: nat, attempt: nat, state: int): (r: (seq<Position>, int))
    requires 0 <= state < Modulus
    ensures |r.0| == size * size && 0 <= r.1 < Modulus
    decreases MaxAttempts - attempt
  {
    if attempt >= MaxAttempts then
      var s := LcgStep(state);
      ScaledDrawInRange(s, |Corners|);
      SnakeLength(size, Corners[ScaledDraw(s, |Corners|)], size);
      (Snake(size, Corners[ScaledDraw(s, |Corners|)], size), s)
    else
      var a := Attempt(size, state);
      if a.0.Some? && |a.0.value| == size * size then (a.0.value, a.1)
      else Varied(size, attempt + 1, a.1)
  }

  /** A found candidate ends the seeded search; otherwise the next attempt
      starts from the state the failed one left. */
  lemma VariedNext(size: nat, attempt: nat, state: int, candidate: Option<seq<Position>>, after: int)
    requires attempt < MaxAttempts && 0 <= state < Modulus
    requires (candidate, after) == Attempt(size, state)
    ensures candidate.Some? && |candidate.value| == size * size ==>
              Varied(size, attempt, state) == (candidate.value, after)
    ensures !(candidate.Some? && |candidate.value| == size * size) ==>
              Varied(size, attempt, state) == Varied(size, attempt + 1, after)
  {
  }

  /** After the last attempt the seeded result is the snake from the corner
      nextInt(4) draws. */
  lemma VariedFallback(size: nat, state: int)
    requires 0 <= state < Modulus
    ensures 0 <= ScaledDraw(LcgStep(state), |Corners|) < |Corners|
    ensures Varied(size, MaxAttempts, state) ==
              (Snake(size, Corners[ScaledDraw(LcgStep(state), |Corners|)], size), LcgStep(state))
  {
    ScaledDrawInRange(LcgStep(state), |Corners|);
  }

  /** The body of one attempt: a start drawn with nextInt(size) twice, then
      the randomized search from it. */
  method TryRandomStart(size: nat, rng: SeededRandom?) returns (candidate: Option<seq<Position>>)
    requires RngOk(rng)
    modifies rng
    ensures RngOk(rng)
    ensures candidate.Some? ==> IsHamiltonianPath(candidate.value, size)
    ensures rng != null ==> (candidate, rng.seed) == Attempt(size, old(rng.seed))
  {
    var startX := DrawInt(rng, size);
    var startY := DrawInt(rng, size);
    candidate := GenerateRandomHamiltonianFromStart(Position(startX, startY), size, rng);
  }

  /** The fallback after the last attempt: the random snake, which the
      seeded Varied yields once the attempts are used up. */
  method SnakeFallback(size: nat, rng: SeededRandom?) returns (path: seq<Position>)
    requires RngOk(rng)
    modifies rng
    ensures RngOk(rng)
    ensures IsHamiltonianPath(path, size)
    ensures rng != null ==> (path, rng.seed) == Varied(size, MaxAttempts, old(rng.seed))
  {
    if rng != null {
      VariedFallback(size, rng.seed);
    }
    path := GenerateRandomSnakePath(size, rng);
  }

  /** At most 100 random searches from random starts, then the snake: the
      result is always a Hamiltonian path of the board, and with a SeededRandom
      it is determined by the generator's state. */
  method GenerateVariedHamiltonianPath(size: nat, rng: SeededRandom?) returns (path: seq<Position>)
    requires RngOk(rng)
    modifies rng
    ensures RngOk(rng)
    ensures IsHamiltonianPath(path, size)
    ensures rng != null ==> (path, rng.seed) == Varied(size, 0, old(rng.seed))
  {
    ghost var goal := if rng != null then Varied(size, 0, rng.seed) else ([], 0);
    var attempt := 0;
    while attempt < MaxAttempts
      invariant 0 <= attempt <= MaxAttempts
      invariant RngOk(rng)
      invariant rng != null ==> goal == Varied(size, attempt, rng.seed)
    {
      ghost var before := if rng != null then rng.seed else 0;
      var candidate := TryRandomStart(size, rng);
      if rng != null {
        VariedNext(size, attempt, before, candidate, rng.seed);
      }
      if candidate.Some? && |candidate.value| == size * size {
        return candidate.value;
      }
      attempt := attempt + 1;
    }
    path := SnakeFallback(size, rng);
  }

  // ---------------------------------------------------------------------
  // selectRandomDotPositions

  /** The number of interior cells: path.slice(1, length - 1). */
  function MiddleLength(pathLength: nat): nat {
    if pathLength >= 2 then pathLength - 2 else 0
  }

  /** How many distinct interior indices the selection loop aims for: dotCount - 2,
      capped by the number of interior cells. */
  function SelectionTarget(dotCount: int, middleLength: nat): (n: nat)
    ensures n <= middleLength && (dotCount >= 2 ==> n <= dotCount - 2) && (dotCount < 2 ==> n == 0)
    ensures n == middleLength || n == dotCount - 2 || n == 0
  {
    var wanted := if dotCount >= 2 then dotCount - 2 else 0;
    if wanted < middleLength then wanted else middleLength
  }

  /** Distinct indices into a sequence of length `bound`. */
  predicate IndexSet(s: seq<int>, bound: int) {
    Distinct(s) && forall k :: 0 <= k < |s| ==> 0 <= s[k] < bound
  }

  /** The selection loop on a SeededRandom, as a function of the state: the
      distinct indices drawn, in drawing order, and the state after the last
      draw. */
  ghost function IndexDraws(dotCount: int, bound: nat, selected: seq<int>, state: int, fuel: nat): (r: (seq<int>, int))
    requires 0 <= state < Modulus && IndexSet(selected, bound)
    ensures IndexSet(r.0, bound) && 0 <= r.1 < Modulus
    ensures |r.0| <= SelectionTarget(dotCount, bound) || r.0 == selected
    decreases fuel
  {
    if |selected| < dotCount - 2 && |selected| < bound && fuel > 0 then
      var s := LcgStep(state);
      var k := ScaledDraw(s, bound);
      ScaledDrawInRange(s, bound);
      IndexDraws(dotCount, bound, if k in selected then selected else selected + [k], s, fuel - 1)
    else (selected, state)
  }

  /** The while loop of selectRandomDotPositions: nextInt(bound) draws added to
      a set until it holds dotCount - 2 indices or all `bound` of them; `fuel`
      bounds the number of draws, and `drawn` reports how many were made. */
  method DrawIndices(dotCount: int, bound: nat, rng: SeededRandom?, fuel: nat)
    returns (selected: seq<int>, ghost drawn: nat)
    requires RngOk(rng)
    modifies rng
    ensures RngOk(rng)
    ensures IndexSet(selected, bound)
    ensures |selected| <= SelectionTarget(dotCount, bound)
    ensures drawn <= fuel && (|selected| < SelectionTarget(dotCount, bound) ==> drawn == fuel)
    ensures rng != null ==> (selected, rng.seed) == IndexDraws(dotCount, bound, [], old(rng.seed), fuel)
  {
    selected := [];
    var draws := 0;
    while |selected| < dotCount - 2 && |selected| < bound && draws < fuel
      invariant 0 <= draws <= fuel
      invariant RngOk(rng)
      invariant IndexSet(selected, bound)
      invariant |selected| <= SelectionTarget(dotCount, bound)
      invariant rng != null ==>
                  IndexDraws(dotCount, bound, [], old(rng.seed), fuel) ==
                  IndexDraws(dotCount, bound, selected, rng.seed, fuel - draws)
      decreases fuel - draws
    {
      var randomIndex := DrawInt(rng, bound);
      if randomIndex !in selected {
        selected := selected + [randomIndex];
      }
      draws := draws + 1;
    }
    drawn := draws;
  }

  /** Array.from(selectedIndices).sort((a, b) => a - b): the indices in
      strictly increasing order. */
  method SortIndices(s: seq<int>, bound: int) returns (t: seq<int>)
    requires IndexSet(s, bound)
    ensures t == SortAsc(s)
    ensures multiset(t) == multiset(s)
    ensures |t| == |s| && StrictlyIncreasing(t)
    ensures forall k :: 0 <= k < |t| ==> 0 <= t[k] < bound
  {
    t := SortAsc(s);
    SortedIndexSet(s, bound);
  }

  /** Sorting distinct indices below `bound` makes them strictly increasing
      and keeps them below `bound`. */
  lemma SortedIndexSet(s: seq<int>, bound: int)
    requires IndexSet(s, bound)
    ensures StrictlyIncreasing(SortAsc(s))
    ensures forall k :: 0 <= k < |SortAsc(s)| ==> 0 <= SortAsc(s)[k] < bound
  {
    var t := SortAsc(s);
    SortAscSorted(s);
    PermutationDistinct(s, t);
    forall k | 0 <= k < |t|
      ensures 0 <= t[k] < bound
    {
      SameMultisetSameMembers(t, s, t[k]);
    }
  }

  /** The interior picks of selectRandomDotPositions on a SeededRandom, as a
      function of the path length and the state: the drawn indices sorted and
      shifted past path[0], and the state after the last draw. */
  ghost function SeededPicks(pathLength: nat, dotCount: int, state: int, fuel: nat): (r: (seq<int>, int))
    requires 0 <= state < Modulus
    ensures StrictlyIncreasing(r.0) && forall k :: 0 <= k < |r.0| ==> 1 <= r.0[k] < pathLength - 1
    ensures 0 <= r.1 < Modulus
  {
    var draws := IndexDraws(dotCount, MiddleLength(pathLength), [], state, fuel);
    SortedIndexSet(draws.0, MiddleLength(pathLength));
    (Shifted(SortAsc(draws.0)), draws.1)
  }

  /** Interior indices shifted past path[0]: each index plus one. */
  function Shifted(s: seq<int>): (r: seq<int>)
    ensures |r| == |s| && forall k :: 0 <= k < |s| ==> r[k] == s[k] + 1
  {
    seq(|s|, k requires 0 <= k < |s| => s[k] + 1)
  }

  /** The dot positions for the given interior picks: the first path cell,
      the picked cells in order, and the last path cell. */
  function PlacedAt(path: seq<Position>, picks: seq<int>): (r: seq<Position>)
    requires |path| >= 1 && forall k :: 0 <= k < |picks| ==> 0 <= picks[k] < |path|
    ensures |r| == |picks| + 2 && r[0] == path[0] && r[|r| - 1] == path[|path| - 1]
    ensures forall k :: 0 <= k < |picks| ==> r[k + 1] == path[picks[k]]
  {
    [path[0]] + seq(|picks|, k requires 0 <= k < |picks| => path[picks[k]]) + [path[|path| - 1]]
  }

  /** Any sequence laid out like PlacedAt, cell by cell, is PlacedAt. */
  lemma PlacedAtCells(path: seq<Position>, picks: seq<int>, positions: seq<Position>)
    requires |path| >= 1 && forall k :: 0 <= k < |picks| ==> 0 <= picks[k] < |path|
    requires |positions| == |picks| + 2
    requires positions[0] == path[0] && positions[|positions| - 1] == path[|path| - 1]
    requires forall k :: 0 <= k < |picks| ==> positions[k + 1] == path[picks[k]]
    ensures positions == PlacedAt(path, picks)
  {
    var r := PlacedAt(path, picks);
    forall k | 0 <= k < |positions|
      ensures positions[k] == r[k]
    {
      if 0 < k < |positions| - 1 {
        assert positions[(k - 1) + 1] == r[(k - 1) + 1];
      }
    }
  }

  /** The index half of selectRandomDotPositions: the draws into the interior
      of a path of length `pathLength`, sorted ascending. */
  method ChooseInterior(pathLength: nat, dotCount: int, rng: SeededRandom?, fuel: nat)
    returns (sortedIndices: seq<int>, ghost drawn: nat)
    requires RngOk(rng)
    modifies rng
    ensures RngOk(rng)
    ensures StrictlyIncreasing(sortedIndices)
    ensures forall k :: 0 <= k < |sortedIndices| ==> 0 <= sortedIndices[k] < MiddleLength(pathLength)
    ensures |sortedIndices| <= SelectionTarget(dotCount, MiddleLength(pathLength))
    ensures drawn <= fuel && (|sortedIndices| < SelectionTarget(dotCount, MiddleLength(pathLength)) ==> drawn == fuel)
    ensures rng != null ==> (Shifted(sortedIndices), rng.seed) == SeededPicks(pathLength, dotCount, old(rng.seed), fuel)
  {
    var selected;
    selected, drawn := DrawIndices(dotCount, MiddleLength(pathLength), rng, fuel);
    sortedIndices := SortIndices(selected, MiddleLength(pathLength));
  }

  /** selectRandomDotPositions: the first path cell, interior cells at strictly
      increasing path indices `picks`, and the last path cell. `fuel` bounds the
      draws of the selection loop; `drawn` reports how many were made. */
  method SelectRandomDotPositions(path: seq<Position>, dotCount: int, rng: SeededRandom?, fuel: nat)
    returns (positions: seq<Position>, ghost picks: seq<int>, ghost drawn: nat)
    requires |path| >= 1
    requires RngOk(rng)
    modifies rng
    ensures RngOk(rng)
    ensures |positions| == |picks| + 2
    ensures positions[0] == path[0] && positions[|positions| - 1] == path[|path| - 1]
    ensures StrictlyIncreasing(picks)
    ensures forall k :: 0 <= k < |picks| ==> 1 <= picks[k] < |path| - 1 && positions[k + 1] == path[picks[k]]
    ensures |picks| <= SelectionTarget(dotCount, MiddleLength(|path|))
    ensures drawn <= fuel && (|picks| < SelectionTarget(dotCount, MiddleLength(|path|)) ==> drawn == fuel)
    ensures positions == PlacedAt(path, picks)
    ensures rng != null ==> (picks, rng.seed) == SeededPicks(|path|, dotCount, old(rng.seed), fuel)
  {
    var middle := if |path| >= 2 then path[1..|path| - 1] else [];
    assert |middle| == MiddleLength(|path|);
    var sortedIndices;
    sortedIndices, drawn := ChooseInterior(|path|, dotCount, rng, fuel);
    positions := [path[0]];
    var i := 0;
    while i < |sortedIndices|
      invariant 0 <= i <= |sortedIndices|
      invariant |positions| == i + 1 && positions[0] == path[0]
      invariant forall k :: 0 <= k < i ==> positions[k + 1] == path[sortedIndices[k] + 1]
    {
      positions := positions + [middle[sortedIndices[i]]];
      i := i + 1;
    }
    positions := positions + [path[|path| - 1]];
    picks := Shifted(sortedIndices);
    PlacedAtCells(path, picks, positions);
  }

  // ---------------------------------------------------------------------
  // placeDots (the bounds-checked variant) and generateSolvableMaze

  /** The dots placeDots creates: the k-th position, when on the board, gets
      dot (id k, number k+1); an off-board position is skipped but still uses
      up its index. */
  function DotsOnBoard(positions: seq<Position>, size: int): (r: seq<Dot>)
    ensures |r| <= |positions|
    ensures forall i :: 0 <= i < |r| ==> InBounds(r[i].position, size)
  {
    if positions == [] then []
    else
      var init, p := positions[..|positions| - 1], positions[|positions| - 1];
      if InBounds(p, size) then DotsOnBoard(init, size) + [Dot(|positions| - 1, p, |positions|)]
      else DotsOnBoard(init, size)
  }

  /** The dots are exactly the on-board positions, each numbered by its index. */
  lemma {:induction false} DotsOnBoardMembers(positions: seq<Position>, size: int, d: Dot)
    ensures d in DotsOnBoard(positions, size) <==>
              0 <= d.id < |positions| && d == Dot(d.id, positions[d.id], d.id + 1) && InBounds(d.position, size)
  {
    if positions != [] {
      var init := positions[..|positions| - 1];
      DotsOnBoardMembers(init, size, d);
    }
  }

  /** One more position adds its dot exactly when it is on the board. */
  lemma DotsOnBoardStep(positions: seq<Position>, index: int, size: int)
    requires 0 <= index < |positions|
    ensures DotsOnBoard(positions[..index + 1], size) ==
              DotsOnBoard(positions[..index], size) +
              (if InBounds(positions[index], size) then [Dot(index, positions[index], index + 1)] else [])
  {
    assert positions[..index + 1][..index] == positions[..index];
  }

  /** With every position on the board, both placeDots create the same dots. */
  lemma {:induction false} DotsOnBoardAllInBounds(positions: seq<Position>, size: int)
    requires AllInBounds(positions, size)
    ensures DotsOnBoard(positions, size) == GridGenerator.DotsFor(positions)
  {
    if positions != [] {
      var init := positions[..|positions| - 1];
      DotsOnBoardAllInBounds(init, size);
      assert GridGenerator.DotsFor(positions) == GridGenerator.DotsFor(init) + [Dot(|init|, positions[|init|], |init| + 1)];
    }
  }

  /** The forEach callback of placeDots: an off-board position is reported
      and skipped; otherwise dot (id index, number index+1) goes onto its cell
      and is appended to grid.dots. */
  method PlaceDotIfOnBoard(grid: GameGrid, position: Position, index: int)
    requires grid.WellFormed()
    modifies grid
    ensures grid.WellFormed() && grid.solutionPath == old(grid.solutionPath)
    ensures InBounds(position, grid.size) ==>
              grid.dots == old(grid.dots) + [Dot(index, position, index + 1)] &&
              grid.cells == GridGenerator.WithDot(old(grid.cells), Dot(index, position, index + 1))
    ensures !InBounds(position, grid.size) ==> grid.dots == old(grid.dots) && grid.cells == old(grid.cells)
  {
    if position.y < 0 || position.y >= grid.size || position.x < 0 || position.x >= grid.size {
      // the source logs the invalid position and skips it
      return;
    }
    GridGenerator.PutDot(grid, Dot(index, position, index + 1));
  }

  /** placeDots of the maze generator: as in the grid generator, but an
      off-board position is reported and skipped. */
  method PlaceDots(grid: GameGrid, positions: seq<Position>)
    requires grid.WellFormed()
    modifies grid
    ensures grid.WellFormed()
    ensures grid.dots == old(grid.dots) + DotsOnBoard(positions, grid.size)
    ensures grid.cells == GridGenerator.Occupy(old(grid.cells), DotsOnBoard(positions, grid.size))
    ensures grid.solutionPath == old(grid.solutionPath)
  {
    ghost var cells0, dots0 := grid.cells, grid.dots;
    var index := 0;
    while index < |positions|
      invariant 0 <= index <= |positions|
      invariant grid.WellFormed()
      invariant grid.solutionPath == old(grid.solutionPath)
      invariant grid.dots == dots0 + DotsOnBoard(positions[..index], grid.size)
      invariant grid.cells == GridGenerator.Occupy(cells0, DotsOnBoard(positions[..index], grid.size))
    {
      ghost var placed := DotsOnBoard(positions[..index], grid.size);
      DotsOnBoardStep(positions, index, grid.size);
      if InBounds(positions[index], grid.size) {
        GridGenerator.OccupySnoc(cells0, placed, Dot(index, positions[index], index + 1));
      } else {
        AppendNothing(placed);
      }
      PlaceDotIfOnBoard(grid, positions[index], index);
      index := index + 1;
    }
    assert positions[..index] == positions;
  }

  /** Strictly increasing picks strictly between 0 and last stay strictly
      increasing with 0 put in front and last behind. */
  lemma Bracketed(picks: seq<int>, last: int)
    requires StrictlyIncreasing(picks)
    requires forall k :: 0 <= k < |picks| ==> 0 < picks[k] < last
    requires 0 < last
    ensures StrictlyIncreasing([0] + picks + [last])
  {
    var idx := [0] + picks + [last];
    forall i, j | 0 <= i < j < |idx|
      ensures idx[i] < idx[j]
    {
      if 0 < i && j < |idx| - 1 {
        assert idx[i] == picks[i - 1] && idx[j] == picks[j - 1];
      } else if 0 < i {
        assert idx[i] == picks[i - 1];
      } else if j < |idx| - 1 {
        assert idx[j] == picks[j - 1];
      }
    }
  }

  /** What generateSolvableMaze promises of the dots and the solution path:
      the path is Hamiltonian; there are 2 to DotCount dots; dot k has id k and
      number k+1 and lies on the path; dot 1 is on the first and the last dot
      on the last cell of the path; and, from 2x2 boards on, the dots occur
      along the path in the order of their numbers. */
  ghost predicate SolvableLayout(dots: seq<Dot>, path: seq<Position>, size: nat) {
    IsHamiltonianPath(path, size) && |path| > 0 &&
    2 <= |dots| <= DotCount &&
    (forall k :: 0 <= k < |dots| ==> dots[k].id == k && dots[k].number == k + 1 && dots[k].position in path) &&
    dots[0].position == path[0] &&
    dots[|dots| - 1].position == path[|path| - 1] &&
    (size >= 2 ==> InOrderWithin(DotPositions(dots), path))
  }

  /** The selected positions lie on the path, hence on the board, and from 2x2
      boards on (where the first and last cells differ) they occur along the
      path in list order; numbered in list order they form a SolvableLayout. */
  lemma {:induction false} SelectionLayout(path: seq<Position>, positions: seq<Position>, picks: seq<int>, size: nat)
    requires size >= 1 && IsHamiltonianPath(path, size)
    requires |positions| == |picks| + 2 && |picks| <= DotCount - 2
    requires positions[0] == path[0] && positions[|positions| - 1] == path[|path| - 1]
    requires StrictlyIncreasing(picks)
    requires forall k :: 0 <= k < |picks| ==> 1 <= picks[k] < |path| - 1 && positions[k + 1] == path[picks[k]]
    ensures AllInBounds(positions, size)
    ensures SolvableLayout(GridGenerator.DotsFor(positions), path, size)
  {
    var last := |path| - 1;
    var idx := [0] + picks + [last];
    forall k | 0 <= k < |idx|
      ensures 0 <= idx[k] < |path| && positions[k] == path[idx[k]]
    {
      if 0 < k < |idx| - 1 {
        assert idx[k] == picks[k - 1];
      }
    }
    var dots := GridGenerator.DotsFor(positions);
    assert DotPositions(dots) == positions;
    if size >= 2 {
      assert last > 0 by {
        assert size * size >= 2 * size;
      }
      Bracketed(picks, last);
      InOrderFromIndices(positions, path, idx);
    }
  }

  /** Draws allowed to the dot-selection loop (the source's loop is unbounded). */
  const SelectionFuel: nat := 1000000

  lemma SquareAtLeast(size: nat)
    requires size >= 1
    ensures size * size >= size
  {
  }

  /** The path and dot positions generateSolvableMaze settles on for a
      SeededRandom started at `seed`: functions of the board size and the seed
      alone, so a seeded puzzle is reproducible. */
  ghost function SeededLayout(size: nat, seed: int): (r: (seq<Position>, seq<Position>))
    requires size >= 1 && 0 <= seed < Modulus
  {
    var varied := Varied(size, 0, seed);
    SquareAtLeast(size);
    var picks := SeededPicks(|varied.0|, DotCount, varied.1, SelectionFuel).0;
    (varied.0, PlacedAt(varied.0, picks))
  }

  /** From 3x3 boards on the interior holds at least six cells, so the
      selection aims for all eight dots. */
  lemma FullSelection(size: nat)
    requires size >= 3
    ensures SelectionTarget(DotCount, MiddleLength(size * size)) == DotCount - 2
  {
    assert size * size >= 3 * size;
  }

  /** The path and dot positions generateSolvableMaze settles on before it
      touches the grid: a varied Hamiltonian path and the dots selected on it. */
  method ChooseLayout(size: nat, rng: SeededRandom?)
    returns (path: seq<Position>, positions: seq<Position>, ghost drawn: nat)
    requires size >= 1 && RngOk(rng)
    modifies rng
    ensures AllInBounds(positions, size)
    ensures SolvableLayout(GridGenerator.DotsFor(positions), path, size)
    ensures drawn <= SelectionFuel
    ensures size >= 3 ==> |positions| == DotCount || drawn == SelectionFuel
    ensures rng != null ==> (path, positions) == SeededLayout(size, old(rng.seed))
  {
    path := GenerateVariedHamiltonianPath(size, rng);
    ghost var picks;
    positions, picks, drawn := SelectRandomDotPositions(path, DotCount, rng, SelectionFuel);
    SelectionLayout(path, positions, picks, size);
    if size >= 3 {
      FullSelection(size);
    }
  }

  /** The second half of generateSolvableMaze: placeDots on the empty grid,
      then the solution path is stored on it. */
  method FinishGrid(grid: GameGrid, path: seq<Position>, positions: seq<Position>)
    requires grid.WellFormed() && grid.dots == [] && grid.cells == GridGenerator.EmptyCells(grid.size)
    requires AllInBounds(positions, grid.size)
    modifies grid
    ensures grid.WellFormed()
    ensures grid.dots == GridGenerator.DotsFor(positions)
    ensures grid.cells == GridGenerator.Occupy(GridGenerator.EmptyCells(grid.size), grid.dots)
    ensures grid.solutionPath == Some(path)
  {
    PlaceDots(grid, positions);
    DotsOnBoardAllInBounds(positions, grid.size);
    AppendEmpty(GridGenerator.DotsFor(positions));
    grid.solutionPath := Some(path);
  }

  /** generateSolvableMaze: a seed of 0 or none selects Math.random, any other
      seed a SeededRandom. The grid carries a Hamiltonian solution path, its
      dots form a SolvableLayout along it, and each dot sits on its cell of an
      otherwise empty board. */
  method GenerateSolvableMaze(size: nat, seed: Option<int>) returns (grid: GameGrid, ghost drawn: nat)
    requires size >= 1
    requires seed.Some? ==> 0 <= seed.value < Modulus
    ensures fresh(grid) && grid.size == size && grid.WellFormed()
    ensures grid.solutionPath.Some? && SolvableLayout(grid.dots, grid.solutionPath.value, size)
    ensures drawn <= SelectionFuel
    ensures size >= 3 ==> |grid.dots| == DotCount || drawn == SelectionFuel
    ensures grid.cells == GridGenerator.Occupy(GridGenerator.EmptyCells(size), grid.dots)
    ensures seed.Some? && seed.value != 0 ==>
              grid.solutionPath == Some(SeededLayout(size, seed.value).0) &&
              grid.dots == GridGenerator.DotsFor(SeededLayout(size, seed.value).1)
  {
    grid := GridGenerator.CreateEmptyGrid(size);
    var rng: SeededRandom? := null;
    if seed.Some? && seed.value != 0 {
      rng := new SeededRandom(seed.value);
    }
    var hamiltonianPath, dotPositions;
    hamiltonianPath, dotPositions, drawn := ChooseLayout(size, rng);
    FinishGrid(grid, hamiltonianPath, dotPositions);
  }
}
