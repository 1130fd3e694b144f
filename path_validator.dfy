/** lib/pathValidator.ts: whether two dots may be connected by an L-shaped
    route over unoccupied cells, and whether a chosen dot sequence is valid
    and complete.

    The two routes of an L test only the cells strictly between the ends of
    each leg: the endpoints are skipped, and so is the corner where the legs
    meet (it is an endpoint of both legs). The model keeps this: HVCells and
    VHCells are exactly the cells the loops look at. */
module PathValidator {
  import opened SeqUtil
  import opened GameTypes

  /** isValidConnection: `to` is the dot numbered right after `from`. */
  predicate ValidConnection(from: Dot, to: Dot)
    ensures ValidConnection(from, to) <==> from.number < to.number <= from.number + 1
    ensures ValidConnection(from, to) ==> from != to && to.number > from.number
  {
    to.number == from.number + 1
  }

  function Min(a: int, b: int): int { if a < b then a else b }
  function Max(a: int, b: int): int { if a < b then b else a }

  /** Strictly between a and b, in either order. */
  predicate Between(v: int, a: int, b: int) {
    Min(a, b) < v < Max(a, b)
  }

  /** A cell of the matrix that is marked occupied (false off the matrix). */
  predicate OccupiedAt(cells: seq<seq<Cell>>, p: Position) {
    0 <= p.y < |cells| && 0 <= p.x < |cells[p.y]| && cells[p.y][p.x].isOccupied
  }

  /** The cells canReachHV inspects: row from.y strictly between the two
      columns, then column to.x strictly between the two rows. */
  function HVCells(from: Position, to: Position): set<Position> {
    (set x | Min(from.x, to.x) < x < Max(from.x, to.x) :: Position(x, from.y)) +
    (set y | Min(from.y, to.y) < y < Max(from.y, to.y) :: Position(to.x, y))
  }

  /** The cells canReachVH inspects: column from.x, then row to.y. */
  function VHCells(from: Position, to: Position): set<Position> {
    (set y | Min(from.y, to.y) < y < Max(from.y, to.y) :: Position(from.x, y)) +
    (set x | Min(from.x, to.x) < x < Max(from.x, to.x) :: Position(x, to.y))
  }

  predicate Clear(cells: seq<seq<Cell>>, s: set<Position>) {
    forall p :: p in s ==> !OccupiedAt(cells, p)
  }

  predicate HVClear(cells: seq<seq<Cell>>, from: Position, to: Position) {
    Clear(cells, HVCells(from, to))
  }

  predicate VHClear(cells: seq<seq<Cell>>, from: Position, to: Position) {
    Clear(cells, VHCells(from, to))
  }

  /** isReachable: one of the two L-shaped routes is clear. */
  predicate Reachable(cells: seq<seq<Cell>>, from: Position, to: Position) {
    HVClear(cells, from, to) || VHClear(cells, from, to)
  }

  // ---------------------------------------------------------------------
  // Facts about the inspected cells.

  /** Membership in the HV route, spelled out. */
  lemma HVCellsMembers(from: Position, to: Position, p: Position)
    ensures p in HVCells(from, to) <==>
              (p.y == from.y && Between(p.x, from.x, to.x)) ||
              (p.x == to.x && Between(p.y, from.y, to.y))
  {
    if p.y == from.y && Between(p.x, from.x, to.x) {
      assert p == Position(p.x, from.y);
    }
    if p.x == to.x && Between(p.y, from.y, to.y) {
      assert p == Position(to.x, p.y);
    }
  }

  /** Membership in the VH route, spelled out. */
  lemma VHCellsMembers(from: Position, to: Position, p: Position)
    ensures p in VHCells(from, to) <==>
              (p.x == from.x && Between(p.y, from.y, to.y)) ||
              (p.y == to.y && Between(p.x, from.x, to.x))
  {
    if p.x == from.x && Between(p.y, from.y, to.y) {
      assert p == Position(from.x, p.y);
    }
    if p.y == to.y && Between(p.x, from.x, to.x) {
      assert p == Position(p.x, to.y);
    }
  }

  /** canReachHV(a, b) inspects exactly the cells of canReachVH(b, a). */
  lemma HVMirrorsVH(a: Position, b: Position)
    ensures HVCells(a, b) == VHCells(b, a)
  {
    forall p
      ensures p in HVCells(a, b) <==> p in VHCells(b, a)
    {
      HVCellsMembers(a, b, p);
      VHCellsMembers(b, a, p);
    }
  }

  /** isReachable is symmetric. */
  lemma ReachableSymmetric(cells: seq<seq<Cell>>, a: Position, b: Position)
    ensures Reachable(cells, a, b) <==> Reachable(cells, b, a)
  {
    HVMirrorsVH(a, b);
    HVMirrorsVH(b, a);
  }

  /** Neither route inspects its own endpoints or the corner of its L. */
  lemma EndpointsAndCornerSkipped(from: Position, to: Position)
    ensures from !in HVCells(from, to) && to !in HVCells(from, to)
    ensures Position(to.x, from.y) !in HVCells(from, to)
    ensures from !in VHCells(from, to) && to !in VHCells(from, to)
    ensures Position(from.x, to.y) !in VHCells(from, to)
  {
    HVCellsMembers(from, to, from);
    HVCellsMembers(from, to, to);
    HVCellsMembers(from, to, Position(to.x, from.y));
    VHCellsMembers(from, to, from);
    VHCellsMembers(from, to, to);
    VHCellsMembers(from, to, Position(from.x, to.y));
  }

  /** Identical or 4-adjacent positions inspect nothing, so they are reachable. */
  lemma AdjacentReachable(cells: seq<seq<Cell>>, a: Position, b: Position)
    requires a == b || Adjacent(a, b)
    ensures HVCells(a, b) == {} && VHCells(a, b) == {}
    ensures Reachable(cells, a, b)
  {
    forall p
      ensures p !in HVCells(a, b) && p !in VHCells(a, b)
    {
      HVCellsMembers(a, b, p);
      VHCellsMembers(a, b, p);
    }
  }

  /** The corner quirk in action: on a 2x2 board whose two off-diagonal cells
      are occupied, the diagonal cells are reported reachable although every
      L-shaped route between them runs through an occupied corner. */
  lemma CornerQuirk()
    ensures var free := Cell(Position(0, 0), false, false, None);
            var cells := [[free, free.(isOccupied := true)], [free.(isOccupied := true), free]];
            OccupiedAt(cells, Position(1, 0)) && OccupiedAt(cells, Position(0, 1)) &&
            Reachable(cells, Position(0, 0), Position(1, 1))
  {
    var free := Cell(Position(0, 0), false, false, None);
    var cells := [[free, free.(isOccupied := true)], [free.(isOccupied := true), free]];
    forall p
      ensures p !in HVCells(Position(0, 0), Position(1, 1))
    {
      HVCellsMembers(Position(0, 0), Position(1, 1), p);
    }
    assert HVClear(cells, Position(0, 0), Position(1, 1));
  }

  // ---------------------------------------------------------------------
  // The loops of canReachHV / canReachVH.

  /** canReachHV: the row loop, then the column loop, each returning false at
      the first occupied inspected cell. */
  method CanReachHV(grid: GameGrid, from: Position, to: Position) returns (r: bool)
    requires grid.WellFormed() && InBounds(from, grid.size) && InBounds(to, grid.size)
    ensures r == HVClear(grid.cells, from, to)
  {
    var startX, endX := Min(from.x, to.x), Max(from.x, to.x);
    var x := startX;
    while x <= endX
      invariant startX <= x <= endX + 1
      invariant forall x' :: startX <= x' < x && Between(x', from.x, to.x) ==>
                  !OccupiedAt(grid.cells, Position(x', from.y))
    {
      if x != from.x && x != to.x {
        if grid.cells[from.y][x].isOccupied {
          HVCellsMembers(from, to, Position(x, from.y));
          return false;
        }
      }
      x := x + 1;
    }
    var startY, endY := Min(from.y, to.y), Max(from.y, to.y);
    var y := startY;
    while y <= endY
      invariant startY <= y <= endY + 1
      invariant forall y' :: startY <= y' < y && Between(y', from.y, to.y) ==>
                  !OccupiedAt(grid.cells, Position(to.x, y'))
    {
      if y != from.y && y != to.y {
        if grid.cells[y][to.x].isOccupied {
          HVCellsMembers(from, to, Position(to.x, y));
          return false;
        }
      }
      y := y + 1;
    }
    forall p | p in HVCells(from, to)
      ensures !OccupiedAt(grid.cells, p)
    {
      HVCellsMembers(from, to, p);
    }
    return true;
  }

  /** canReachVH: the column loop at from.x, then the row loop at to.y. */
  method CanReachVH(grid: GameGrid, from: Position, to: Position) returns (r: bool)
    requires grid.WellFormed() && InBounds(from, grid.size) && InBounds(to, grid.size)
    ensures r == VHClear(grid.cells, from, to)
  {
    var startY, endY := Min(from.y, to.y), Max(from.y, to.y);
    var y := startY;
    while y <= endY
      invariant startY <= y <= endY + 1
      invariant forall y' :: startY <= y' < y && Between(y', from.y, to.y) ==>
                  !OccupiedAt(grid.cells, Position(from.x, y'))
    {
      if y != from.y && y != to.y {
        if grid.cells[y][from.x].isOccupied {
          VHCellsMembers(from, to, Position(from.x, y));
          return false;
        }
      }
      y := y + 1;
    }
    var startX, endX := Min(from.x, to.x), Max(from.x, to.x);
    var x := startX;
    while x <= endX
      invariant startX <= x <= endX + 1
      invariant forall x' :: startX <= x' < x && Between(x', from.x, to.x) ==>
                  !OccupiedAt(grid.cells, Position(x', to.y))
    {
      if x != from.x && x != to.x {
        if grid.cells[to.y][x].isOccupied {
          VHCellsMembers(from, to, Position(x, to.y));
          return false;
        }
      }
      x := x + 1;
    }
    forall p | p in VHCells(from, to)
      ensures !OccupiedAt(grid.cells, p)
    {
      VHCellsMembers(from, to, p);
    }
    return true;
  }

  /** isReachable: canReachHV, and canReachVH only when that fails. */
  method IsReachable(grid: GameGrid, from: Position, to: Position) returns (r: bool)
    requires grid.WellFormed() && InBounds(from, grid.size) && InBounds(to, grid.size)
    ensures r == Reachable(grid.cells, from, to)
  {
    r := CanReachHV(grid, from, to);
    if !r {
      r := CanReachVH(grid, from, to);
    }
  }

  // ---------------------------------------------------------------------
  // validatePath and isPathComplete.

  /** Consecutive dots i, i+1 are numbered in sequence and mutually reachable. */
  predicate GoodStep(cells: seq<seq<Cell>>, dots: seq<Dot>, i: int)
    requires 0 <= i < |dots| - 1
  {
    ValidConnection(dots[i], dots[i + 1]) && Reachable(cells, dots[i].position, dots[i + 1].position)
  }

  /** What validatePath accepts: fewer than two dots, or every consecutive pair
      a GoodStep. */
  predicate PathValid(cells: seq<seq<Cell>>, dots: seq<Dot>) {
    |dots| < 2 || forall i :: 0 <= i < |dots| - 1 ==> GoodStep(cells, dots, i)
  }

  predicate DotsOnGrid(dots: seq<Dot>, size: int) {
    forall i :: 0 <= i < |dots| ==> InBounds(dots[i].position, size)
  }

  /** validatePath: checks the pairs in order and returns false at the first bad one. */
  method ValidatePath(grid: GameGrid, dots: seq<Dot>) returns (r: bool)
    requires grid.WellFormed() && DotsOnGrid(dots, grid.size)
    ensures r == PathValid(grid.cells, dots)
  {
    if |dots| < 2 {
      return true;
    }
    var i := 0;
    while i < |dots| - 1
      invariant 0 <= i <= |dots| - 1
      invariant forall j :: 0 <= j < i ==> GoodStep(grid.cells, dots, j)
    {
      var current, next := dots[i], dots[i + 1];
      if !(next.number == current.number + 1) {
        assert !GoodStep(grid.cells, dots, i);
        return false;
      }
      var reachable := IsReachable(grid, current.position, next.position);
      if !reachable {
        assert !GoodStep(grid.cells, dots, i);
        return false;
      }
      i := i + 1;
    }
    return true;
  }

  /** Appending a dot keeps a valid path valid exactly when the new last step
      is good. */
  lemma {:induction false} PathValidAppend(cells: seq<seq<Cell>>, dots: seq<Dot>, d: Dot)
    ensures PathValid(cells, dots + [d]) <==>
              PathValid(cells, dots) &&
              (dots == [] || (ValidConnection(dots[|dots| - 1], d) &&
                              Reachable(cells, dots[|dots| - 1].position, d.position)))
  {
    var s := dots + [d];
    if |dots| >= 1 {
      forall i | 0 <= i < |dots| - 1
        ensures GoodStep(cells, s, i) == GoodStep(cells, dots, i)
      {
        assert s[i] == dots[i] && s[i + 1] == dots[i + 1];
      }
      assert s[|dots| - 1] == dots[|dots| - 1] && s[|dots|] == d;
      if PathValid(cells, s) {
        assert GoodStep(cells, s, |dots| - 1);
      }
    }
  }

  /** Validity is kept by every prefix. */
  lemma {:induction false} PathValidPrefix(cells: seq<seq<Cell>>, dots: seq<Dot>, k: nat)
    requires PathValid(cells, dots) && k <= |dots|
    ensures PathValid(cells, dots[..k])
  {
    var p := dots[..k];
    if |p| >= 2 {
      forall i | 0 <= i < |p| - 1
        ensures GoodStep(cells, p, i)
      {
        assert GoodStep(cells, dots, i);
        assert p[i] == dots[i] && p[i + 1] == dots[i + 1];
      }
    }
  }

  /** The number of dots in a complete path. */
  const DotsInPuzzle: nat := 8

  /** isPathComplete: eight dots, the last numbered 8. */
  predicate PathComplete(dots: seq<Dot>)
    ensures PathComplete(dots) ==> dots != [] && dots[|dots| - 1].number == |dots|
  {
    |dots| == DotsInPuzzle && dots[|dots| - 1].number == DotsInPuzzle
  }

  /** In a valid path the numbers step up by one, so dot k carries the last
      number minus (|dots| - 1 - k). */
  lemma {:induction false} ValidNumbersConsecutive(cells: seq<seq<Cell>>, dots: seq<Dot>, k: nat)
    requires PathValid(cells, dots) && k < |dots|
    ensures dots[k].number == dots[|dots| - 1].number - (|dots| - 1 - k)
    decreases |dots| - k
  {
    if k < |dots| - 1 {
      ValidNumbersConsecutive(cells, dots, k + 1);
      assert GoodStep(cells, dots, k);
    }
  }

  /** A valid, complete path is exactly the dots numbered 1 to 8, in order. */
  lemma ValidCompleteNumbers(cells: seq<seq<Cell>>, dots: seq<Dot>)
    requires PathValid(cells, dots) && PathComplete(dots)
    ensures forall k :: 0 <= k < |dots| ==> dots[k].number == k + 1
  {
    forall k | 0 <= k < |dots|
      ensures dots[k].number == k + 1
    {
      ValidNumbersConsecutive(cells, dots, k);
    }
  }
}
