/** lib/gridGenerator.ts: building an empty grid and placing numbered dots on
    it. The dot-placement functions below also specify the bounds-checked
    placeDots of lib/solvableMazeGenerator.ts. */
module GridGenerator {
  import opened SeqUtil
  import opened GameTypes

  function EmptyCell(x: int, y: int): Cell {
    Cell(Position(x, y), false, false, None)
  }

  /** The cells of a fresh size x size grid. */
  function EmptyCells(size: nat): (r: seq<seq<Cell>>)
    ensures |r| == size && forall y :: 0 <= y < size ==> |r[y]| == size
  {
    seq(size, y => seq(size, x => EmptyCell(x, y)))
  }

  /** A row-major matrix that has a cell at p. */
  predicate Fits(cells: seq<seq<Cell>>, p: Position) {
    0 <= p.y < |cells| && 0 <= p.x < |cells[p.y]|
  }

  /** Two matrices with the same number of rows and the same row lengths. */
  predicate SameShape(a: seq<seq<Cell>>, b: seq<seq<Cell>>) {
    |a| == |b| && forall y :: 0 <= y < |a| ==> |a[y]| == |b[y]|
  }

  /** A cell after a dot has been put on it. */
  function Occupied(c: Cell, d: Dot): Cell {
    c.(dot := Some(d), isOccupied := true)
  }

  /** The matrix with dot d put on its cell; nothing else changes. */
  function WithDot(cells: seq<seq<Cell>>, d: Dot): (r: seq<seq<Cell>>)
    requires Fits(cells, d.position)
    ensures SameShape(r, cells)
  {
    var p := d.position;
    cells[p.y := cells[p.y][p.x := Occupied(cells[p.y][p.x], d)]]
  }

  /** The matrix after placing the dots in order (a later dot on the same
      cell replaces an earlier one). */
  function Occupy(cells: seq<seq<Cell>>, ds: seq<Dot>): (r: seq<seq<Cell>>)
    requires forall i :: 0 <= i < |ds| ==> Fits(cells, ds[i].position)
    ensures SameShape(r, cells)
  {
    if ds == [] then cells
    else
      var prev, d := Occupy(cells, ds[..|ds| - 1]), ds[|ds| - 1];
      assert Fits(cells, d.position);
      assert |prev[d.position.y]| == |cells[d.position.y]|;
      WithDot(prev, d)
  }

  /** The last dot of ds that lies on p, if any. */
  function LastDotAt(ds: seq<Dot>, p: Position): (r: Option<Dot>)
    ensures r.Some? ==> r.value in ds && r.value.position == p
    ensures r.None? <==> forall i :: 0 <= i < |ds| ==> ds[i].position != p
  {
    if ds == [] then None
    else if ds[|ds| - 1].position == p then Some(ds[|ds| - 1])
    else LastDotAt(ds[..|ds| - 1], p)
  }

  /** What placing ds does to the cell at p. */
  function CellAfter(c: Cell, last: Option<Dot>): Cell {
    match last
    case None => c
    case Some(d) => Occupied(c, d)
  }

  /** Cell by cell: a cell no dot lands on is unchanged; any other cell is
      occupied and carries the last dot placed on it. */
  lemma {:induction false} OccupyCell(cells: seq<seq<Cell>>, ds: seq<Dot>, x: int, y: int)
    requires forall i :: 0 <= i < |ds| ==> Fits(cells, ds[i].position)
    requires Fits(cells, Position(x, y))
    ensures Occupy(cells, ds)[y][x] == CellAfter(cells[y][x], LastDotAt(ds, Position(x, y)))
  {
    if ds != [] {
      var init := ds[..|ds| - 1];
      OccupyCell(cells, init, x, y);
      var last := ds[|ds| - 1];
      if last.position != Position(x, y) {
        assert LastDotAt(ds, Position(x, y)) == LastDotAt(init, Position(x, y));
      } else {
        match LastDotAt(init, Position(x, y))
        case None =>
        case Some(e) =>
          assert Occupied(Occupied(cells[y][x], e), last) == Occupied(cells[y][x], last);
      }
    }
  }

  /** The dot the forEach in placeDots makes of entry k: id k, number k+1. */
  function DotsFor(positions: seq<Position>): (r: seq<Dot>)
    ensures |r| == |positions|
    ensures forall k :: 0 <= k < |r| ==> r[k] == Dot(k, positions[k], k + 1)
  {
    if positions == [] then []
    else DotsFor(positions[..|positions| - 1]) + [Dot(|positions| - 1, positions[|positions| - 1], |positions|)]
  }

  /** createEmptyGrid: size rows of size unoccupied cells, cell [y][x] at (x, y). */
  method CreateEmptyGrid(size: nat) returns (g: GameGrid)
    ensures fresh(g)
    ensures g.size == size && g.WellFormed()
    ensures g.cells == EmptyCells(size)
    ensures g.dots == [] && g.solutionPath == None
  {
    var cells: seq<seq<Cell>> := [];
    var y := 0;
    while y < size
      invariant 0 <= y <= size && |cells| == y
      invariant forall j :: 0 <= j < y ==> |cells[j]| == size
      invariant forall j, x :: 0 <= j < y && 0 <= x < size ==> cells[j][x] == EmptyCell(x, j)
    {
      var row: seq<Cell> := [];
      var x := 0;
      while x < size
        invariant 0 <= x <= size && |row| == x
        invariant forall i :: 0 <= i < x ==> row[i] == EmptyCell(i, y)
      {
        row := row + [EmptyCell(x, y)];
        x := x + 1;
      }
      cells := cells + [row];
      y := y + 1;
    }
    assert forall j :: 0 <= j < size ==> cells[j] == EmptyCells(size)[j];
    g := new GameGrid(size, cells);
  }

  /** Placing one more dot is WithDot on the matrix the earlier dots produced. */
  lemma OccupySnoc(cells: seq<seq<Cell>>, ds: seq<Dot>, d: Dot)
    requires forall i :: 0 <= i < |ds| ==> Fits(cells, ds[i].position)
    requires Fits(cells, d.position)
    ensures forall i :: 0 <= i < |ds + [d]| ==> Fits(cells, (ds + [d])[i].position)
    ensures Fits(Occupy(cells, ds), d.position)
    ensures Occupy(cells, ds + [d]) == WithDot(Occupy(cells, ds), d)
  {
    assert (ds + [d])[..|ds|] == ds;
  }

  /** One iteration of placeDots: the dot goes onto its cell, which becomes
      occupied, and is appended to grid.dots. */
  method PutDot(grid: GameGrid, dot: Dot)
    requires grid.WellFormed() && InBounds(dot.position, grid.size)
    modifies grid
    ensures grid.WellFormed()
    ensures grid.dots == old(grid.dots) + [dot]
    ensures grid.cells == WithDot(old(grid.cells), dot)
    ensures grid.solutionPath == old(grid.solutionPath)
  {
    var p := dot.position;
    var row := grid.cells[p.y];
    grid.cells := grid.cells[p.y := row[p.x := row[p.x].(dot := Some(dot), isOccupied := true)]];
    grid.dots := grid.dots + [dot];
  }

  /** placeDots: the k-th position gets dot (id k, number k+1), appended to
      grid.dots; its cell becomes occupied and holds the dot. No bounds check:
      the caller passes on-board positions. */
  method PlaceDots(grid: GameGrid, positions: seq<Position>)
    requires grid.WellFormed() && AllInBounds(positions, grid.size)
    modifies grid
    ensures grid.WellFormed()
    ensures grid.dots == old(grid.dots) + DotsFor(positions)
    ensures grid.cells == Occupy(old(grid.cells), DotsFor(positions))
    ensures grid.solutionPath == old(grid.solutionPath)
  {
    var i := 0;
    while i < |positions|
      invariant 0 <= i <= |positions|
      invariant grid.WellFormed()
      invariant grid.solutionPath == old(grid.solutionPath)
      invariant grid.dots == old(grid.dots) + DotsFor(positions[..i])
      invariant grid.cells == Occupy(old(grid.cells), DotsFor(positions[..i]))
    {
      var dot := Dot(i, positions[i], i + 1);
      PutDot(grid, dot);
      assert positions[..i + 1][..i] == positions[..i];
      assert DotsFor(positions[..i + 1]) == DotsFor(positions[..i]) + [dot];
      i := i + 1;
    }
    assert positions[..i] == positions;
  }
}
