/** The data model of types/game.ts (Position, Dot, GridCell, GameGrid) and the
    board geometry the puzzle engine relies on: bounds, Manhattan distance,
    4-adjacency, self-avoiding walks and the row-major list of all cells. */
module GameTypes {
  import opened SeqUtil

  datatype Option<T> = None | Some(value: T)

  /** Zero-based board coordinates; x is the column, y the row. */
  datatype Position = Position(x: int, y: int)

  /** `number` is the required visiting order (1..8); `id` is the creation index. */
  datatype Dot = Dot(id: int, position: Position, number: int)

  /** A board cell; `isOccupied` is set exactly when a dot is placed on it. */
  datatype Cell = Cell(position: Position, isOccupied: bool, isPath: bool, dot: Option<Dot>)

  datatype Difficulty = Easy | Medium

  datatype GameMode = Daily | Unlimited

  /** Number of dots of every grid configuration (GRID_CONFIGS in types/game.ts). */
  const DotCount: nat := 8

  /** Board side of a difficulty: 5 for easy, 6 otherwise. */
  function BoardSize(d: Difficulty): nat {
    if d == Easy then 5 else 6
  }

  predicate InBounds(p: Position, size: int) {
    0 <= p.x < size && 0 <= p.y < size
  }

  function Abs(v: int): nat {
    if v < 0 then -v else v
  }

  /** getDistance: the Manhattan distance of two positions. */
  function Distance(a: Position, b: Position): (d: nat)
    ensures d == 0 <==> a == b
  {
    Abs(a.x - b.x) + Abs(a.y - b.y)
  }

  /** The distance is a metric: symmetric, and never more than a detour. */
  lemma DistanceMetric(a: Position, b: Position, c: Position)
    ensures Distance(a, b) == Distance(b, a)
    ensures Distance(a, c) <= Distance(a, b) + Distance(b, c)
  {
  }

  /** areAdjacent: the positions differ by one in exactly one coordinate. */
  predicate Adjacent(a: Position, b: Position)
    ensures Adjacent(a, b) <==> Distance(a, b) == 1
  {
    (Abs(a.x - b.x) == 1 && a.y == b.y) || (Abs(a.y - b.y) == 1 && a.x == b.x)
  }

  predicate AllInBounds(s: seq<Position>, size: int) {
    forall i :: 0 <= i < |s| ==> InBounds(s[i], size)
  }

  predicate ConsecutiveAdjacent(s: seq<Position>) {
    forall i, j :: 0 <= i < |s| && j == i + 1 && j < |s| ==> Adjacent(s[i], s[j])
  }

  /** A self-avoiding walk of 4-adjacent steps on the size x size board. */
  predicate IsWalk(s: seq<Position>, size: int) {
    AllInBounds(s, size) && Distinct(s) && ConsecutiveAdjacent(s)
  }

  /** A walk through every one of the size*size cells. */
  predicate IsHamiltonianPath(s: seq<Position>, size: nat) {
    IsWalk(s, size) && |s| == size * size
  }

  /** The positions of a list of dots, in list order. */
  function DotPositions(ds: seq<Dot>): (r: seq<Position>)
    ensures |r| == |ds| && forall k :: 0 <= k < |ds| ==> r[k] == ds[k].position
  {
    seq(|ds|, k requires 0 <= k < |ds| => ds[k].position)
  }

  /** Two walks joined by an adjacent step, sharing no cell, form a walk. */
  lemma WalkConcat(a: seq<Position>, b: seq<Position>, size: int)
    requires IsWalk(a, size) && IsWalk(b, size)
    requires forall i, j :: 0 <= i < |a| && 0 <= j < |b| ==> a[i] != b[j]
    requires a != [] && b != [] ==> Adjacent(a[|a| - 1], b[0])
    ensures IsWalk(a + b, size)
  {
    var s := a + b;
    forall i | 0 <= i < |s| - 1
      ensures Adjacent(s[i], s[i + 1])
    {
      if i < |a| - 1 {
        assert s[i] == a[i] && s[i + 1] == a[i + 1];
      } else if i >= |a| {
        assert s[i] == b[i - |a|] && s[i + 1] == b[i - |a| + 1];
      }
    }
    forall i, j | 0 <= i < j < |s|
      ensures s[i] != s[j]
    {
      if j < |a| {
        assert s[i] == a[i] && s[j] == a[j];
      } else if i >= |a| {
        assert s[i] == b[i - |a|] && s[j] == b[j - |a|];
      } else {
        assert s[i] == a[i] && s[j] == b[j - |a|];
      }
    }
  }

  /** The set of all cells of the board. */
  function Board(size: nat): set<Position> {
    set x, y | 0 <= x < size && 0 <= y < size :: Position(x, y)
  }

  lemma InBoard(p: Position, size: nat)
    ensures p in Board(size) <==> InBounds(p, size)
  {
    if InBounds(p, size) {
      assert Position(p.x, p.y) in Board(size);
    }
  }

  // ---------------------------------------------------------------------
  // Row-major enumeration of the board (getAllGridPositions in lib/mazeSolver.ts).

  function Row(y: int, size: nat): (r: seq<Position>)
    ensures |r| == size
    ensures forall x :: 0 <= x < size ==> r[x] == Position(x, y)
  {
    seq(size, x => Position(x, y))
  }

  /** Rows 0..rows-1, each from left to right. */
  function RowMajor(rows: nat, size: nat): (r: seq<Position>)
    ensures |r| == rows * size
  {
    if rows == 0 then []
    else
      assert rows * size == (rows - 1) * size + size;
      RowMajor(rows - 1, size) + Row(rows - 1, size)
  }

  lemma {:induction false} RowMajorMembers(rows: nat, size: nat, p: Position)
    ensures p in RowMajor(rows, size) <==> 0 <= p.x < size && 0 <= p.y < rows
  {
    if rows > 0 {
      RowMajorMembers(rows - 1, size, p);
      var r := Row(rows - 1, size);
      if p.y == rows - 1 && 0 <= p.x < size {
        assert r[p.x] == p;
      }
      assert p in r ==> p.y == rows - 1 && 0 <= p.x < size;
    }
  }

  lemma {:induction false} RowMajorDistinct(rows: nat, size: nat)
    ensures Distinct(RowMajor(rows, size))
  {
    if rows > 0 {
      RowMajorDistinct(rows - 1, size);
      var front, r := RowMajor(rows - 1, size), Row(rows - 1, size);
      forall i | 0 <= i < |front|
        ensures front[i].y < rows - 1
      {
        RowMajorMembers(rows - 1, size, front[i]);
      }
      assert RowMajor(rows, size) == front + r;
    }
  }

  /** Entry y*size + x of the enumeration is the cell (x, y). */
  lemma {:induction false} RowMajorAt(rows: nat, size: nat, x: int, y: int)
    requires 0 <= x < size && 0 <= y < rows
    ensures y * size + x < |RowMajor(rows, size)|
    ensures RowMajor(rows, size)[y * size + x] == Position(x, y)
  {
    var front := RowMajor(rows - 1, size);
    if y < rows - 1 {
      RowMajorAt(rows - 1, size, x, y);
      assert y * size + x < (rows - 1) * size by {
        assert y * size <= (rows - 2) * size;
      }
    } else {
      assert y * size + x == |front| + x;
    }
  }

  /** The board has size*size cells. */
  lemma BoardCard(size: nat)
    ensures |Board(size)| == size * size
  {
    var all := RowMajor(size, size);
    RowMajorDistinct(size, size);
    DistinctElemsCard(all);
    forall p
      ensures p in Elems(all) <==> p in Board(size)
    {
      RowMajorMembers(size, size, p);
      InBoard(p, size);
    }
    assert Elems(all) == Board(size);
  }

  /** Pigeonhole on the board: a walk has at most size*size cells, and one
      with exactly that many visits every cell. */
  lemma WalkCoverage(s: seq<Position>, size: nat)
    requires Distinct(s) && AllInBounds(s, size)
    ensures |s| <= size * size
    ensures |s| == size * size ==> forall p :: InBounds(p, size) ==> p in s
  {
    forall p | p in s
      ensures p in Board(size)
    {
      InBoard(p, size);
    }
    BoardCard(size);
    DistinctWithin(s, Board(size));
    if |s| == size * size {
      forall p | InBounds(p, size)
        ensures p in s
      {
        InBoard(p, size);
        assert p in Elems(s);
      }
    }
  }

  /** The dots whose cell lies on the path (grid.dots.filter(...)). */
  function DotsOnPath(dots: seq<Dot>, path: seq<Position>): (r: seq<Dot>)
    ensures |r| <= |dots|
  {
    if dots == [] then []
    else (if dots[0].position in path then [dots[0]] else []) + DotsOnPath(dots[1..], path)
  }

  /** The filter keeps every dot exactly when every dot's cell is on the path. */
  lemma {:induction false} DotsOnPathAll(dots: seq<Dot>, path: seq<Position>)
    ensures |DotsOnPath(dots, path)| == |dots| <==>
              forall k :: 0 <= k < |dots| ==> dots[k].position in path
  {
    if dots != [] {
      DotsOnPathAll(dots[1..], path);
      assert forall k :: 1 <= k < |dots| ==> dots[k] == dots[1..][k - 1];
    }
  }

  // ---------------------------------------------------------------------
  // The grid (GameGrid). Its fields are updated in place while a puzzle is
  // assembled, so it is a class; `size` never changes.

  class GameGrid {
    const size: nat
    var cells: seq<seq<Cell>>
    var dots: seq<Dot>
    /** The known solution, attached once at generation time. */
    var solutionPath: Option<seq<Position>>

    constructor (size: nat, cells: seq<seq<Cell>>)
      ensures this.size == size && this.cells == cells
      ensures dots == [] && solutionPath == None
    {
      this.size := size;
      this.cells := cells;
      this.dots := [];
      this.solutionPath := None;
    }

    /** `cells` is a size x size matrix indexed [y][x]. */
    predicate WellFormed()
      reads this
    {
      |cells| == size && forall y :: 0 <= y < size ==> |cells[y]| == size
    }

    predicate OccupiedAt(p: Position)
      reads this
      requires WellFormed() && InBounds(p, size)
    {
      cells[p.y][p.x].isOccupied
    }

    /** Every dot lies on the board. */
    predicate DotsInBounds()
      reads this
    {
      forall i :: 0 <= i < |dots| ==> InBounds(dots[i].position, size)
    }
  }

  /** The shared `path` array and `visited` set of a backtracking search. */
  class Trail {
    var path: seq<Position>
    var visited: set<Position>

    constructor ()
      ensures path == [] && visited == {}
    {
      path := [];
      visited := {};
    }

    /** `path` is a walk of the board and `visited` holds exactly its cells. */
    ghost predicate Valid(size: int)
      reads this
    {
      IsWalk(path, size) && visited == Elems(path)
    }

    /** visited.add(p); path.push(p) for an unvisited cell next to the end. */
    method Push(p: Position, ghost size: int)
      requires Valid(size) && InBounds(p, size) && p !in visited
      requires path != [] ==> Adjacent(path[|path| - 1], p)
      modifies this
      ensures Valid(size)
      ensures path == old(path) + [p] && visited == old(visited) + {p}
    {
      WalkConcat(path, [p], size);
      ElemsAppend(path, p);
      visited := visited + {p};
      path := path + [p];
    }

    /** visited.clear(); path.length = 0 */
    method Clear()
      modifies this
      ensures path == [] && visited == {}
    {
      path := [];
      visited := {};
    }

    /** visited.delete(last); path.pop(): undoes the Push of `last`. */
    method Pop(ghost prefix: seq<Position>, last: Position, ghost size: int)
      requires Valid(size) && path == prefix + [last]
      modifies this
      ensures Valid(size)
      ensures path == prefix && visited == old(visited) - {last}
    {
      assert prefix == path[..|prefix|];
      assert IsWalk(prefix, size);
      forall i | 0 <= i < |prefix|
        ensures prefix[i] != last
      {
        assert prefix[i] == path[i] && last == path[|prefix|];
      }
      ElemsAppend(prefix, last);
      visited := visited - {last};
      path := path[..|path| - 1];
    }
  }
}
