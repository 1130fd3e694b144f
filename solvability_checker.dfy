/** lib/solvabilityChecker.ts: explicit L-shaped routes between two cells, the
    coverage heuristic canReachAllCells, and the spiral of fallback positions.

    Unlike lib/pathValidator.ts, the routes built here do test the corner of
    the L, and they return the cells they pass through. The visited set of
    canReachAllCells keys cells by the string "x,y"; that key is injective on
    integer pairs, so the model keeps a set of positions instead. */
module SolvabilityChecker {
  import opened SeqUtil
  import opened GameTypes
  import PathValidator

  /** `cells` is a size x size matrix indexed [y][x]. */
  predicate Square(cells: seq<seq<Cell>>, size: int) {
    |cells| == size && forall y :: 0 <= y < size ==> |cells[y]| == size
  }

  /** isObstructed: off the board blocks; the two ends never block; any other
      cell blocks exactly when it is occupied. */
  predicate Obstructed(cells: seq<seq<Cell>>, size: int, pos: Position, from: Position, to: Position)
    requires Square(cells, size)
    ensures !Obstructed(cells, size, pos, from, to) ==>
              InBounds(pos, size) && (cells[pos.y][pos.x].isOccupied ==> pos == from || pos == to)
    ensures InBounds(pos, size) && (pos == from || pos == to) ==> !Obstructed(cells, size, pos, from, to)
  {
    if !InBounds(pos, size) then true
    else if pos == from || pos == to then false
    else cells[pos.y][pos.x].isOccupied
  }

  // ---------------------------------------------------------------------
  // The cells of the two L-shaped routes.

  /** The i-th value when counting from a toward b. */
  function Toward(a: int, b: int, i: int): int {
    if a <= b then a + i else a - i
  }

  /** Row y from column a toward column b, b itself excluded. */
  function HLeg(a: int, b: int, y: int): (r: seq<Position>)
    ensures |r| == Abs(b - a)
  {
    seq(Abs(b - a), i => Position(Toward(a, b, i), y))
  }

  /** Column x from row a toward row b, b itself excluded. */
  function VLeg(a: int, b: int, x: int): (r: seq<Position>)
    ensures |r| == Abs(b - a)
  {
    seq(Abs(b - a), i => Position(x, Toward(a, b, i)))
  }

  /** getHVPath's cells: along row from.y, then along column to.x, then `to`. */
  function HVRoute(from: Position, to: Position): seq<Position> {
    HLeg(from.x, to.x, from.y) + VLeg(from.y, to.y, to.x) + [to]
  }

  /** getVHPath's cells: along column from.x, then along row to.y, then `to`. */
  function VHRoute(from: Position, to: Position): seq<Position> {
    VLeg(from.y, to.y, from.x) + HLeg(from.x, to.x, to.y) + [to]
  }

  /** Every cell of the route except the final `to` (which is pushed without a
      test) passes isObstructed. */
  predicate Unobstructed(cells: seq<seq<Cell>>, size: int, route: seq<Position>, from: Position, to: Position)
    requires Square(cells, size)
  {
    forall i :: 0 <= i < |route| - 1 ==> !Obstructed(cells, size, route[i], from, to)
  }

  function HVPath(cells: seq<seq<Cell>>, size: int, from: Position, to: Position): Option<seq<Position>>
    requires Square(cells, size)
  {
    if Unobstructed(cells, size, HVRoute(from, to), from, to) then Some(HVRoute(from, to)) else None
  }

  function VHPath(cells: seq<seq<Cell>>, size: int, from: Position, to: Position): Option<seq<Position>>
    requires Square(cells, size)
  {
    if Unobstructed(cells, size, VHRoute(from, to), from, to) then Some(VHRoute(from, to)) else None
  }

  /** findPath: the HV route when it is free, else the VH route when it is free. */
  function LRoute(cells: seq<seq<Cell>>, size: int, from: Position, to: Position): Option<seq<Position>>
    requires Square(cells, size)
  {
    if HVPath(cells, size, from, to).Some? then HVPath(cells, size, from, to)
    else VHPath(cells, size, from, to)
  }

  // ---------------------------------------------------------------------
  // Shape of the routes.

  lemma HLegShape(a: int, b: int, y: int)
    ensures forall i :: 0 <= i < |HLeg(a, b, y)| ==>
              HLeg(a, b, y)[i].y == y && HLeg(a, b, y)[i].x != b &&
              PathValidator.Min(a, b) <= HLeg(a, b, y)[i].x <= PathValidator.Max(a, b) &&
              Abs(HLeg(a, b, y)[i].x - a) == i
    ensures Distinct(HLeg(a, b, y)) && ConsecutiveAdjacent(HLeg(a, b, y))
    ensures |HLeg(a, b, y)| > 0 ==>
              HLeg(a, b, y)[0] == Position(a, y) && Adjacent(Last(HLeg(a, b, y)), Position(b, y))
  {
  }

  lemma VLegShape(a: int, b: int, x: int)
    ensures forall i :: 0 <= i < |VLeg(a, b, x)| ==>
              VLeg(a, b, x)[i].x == x && VLeg(a, b, x)[i].y != b &&
              PathValidator.Min(a, b) <= VLeg(a, b, x)[i].y <= PathValidator.Max(a, b) &&
              Abs(VLeg(a, b, x)[i].y - a) == i
    ensures Distinct(VLeg(a, b, x)) && ConsecutiveAdjacent(VLeg(a, b, x))
    ensures |VLeg(a, b, x)| > 0 ==>
              VLeg(a, b, x)[0] == Position(x, a) && Adjacent(Last(VLeg(a, b, x)), Position(x, b))
  {
  }

  /** A leg between two on-board cells stays on the board. */
  lemma LegsInBounds(from: Position, to: Position, size: int)
    requires InBounds(from, size) && InBounds(to, size)
    ensures AllInBounds(HLeg(from.x, to.x, from.y), size) && AllInBounds(HLeg(from.x, to.x, to.y), size)
    ensures AllInBounds(VLeg(from.y, to.y, from.x), size) && AllInBounds(VLeg(from.y, to.y, to.x), size)
  {
    HLegShape(from.x, to.x, from.y);
    HLegShape(from.x, to.x, to.y);
    VLegShape(from.y, to.y, from.x);
    VLegShape(from.y, to.y, to.x);
  }

  /** Two legs and a final cell, pairwise apart and joined by adjacent steps,
      form a walk. */
  lemma JoinLegs(a: seq<Position>, b: seq<Position>, to: Position, size: int)
    requires IsWalk(a, size) && IsWalk(b, size) && InBounds(to, size)
    requires forall i, j :: 0 <= i < |a| && 0 <= j < |b| ==> a[i] != b[j]
    requires to !in a && to !in b
    requires a != [] && b != [] ==> Adjacent(Last(a), b[0])
    requires b != [] ==> Adjacent(Last(b), to)
    requires b == [] && a != [] ==> Adjacent(Last(a), to)
    ensures IsWalk(a + b + [to], size)
  {
    WalkConcat(a, b, size);
    assert IsWalk([to], size);
    if b != [] {
      assert Last(a + b) == Last(b);
    } else if a != [] {
      assert Last(a + b) == Last(a);
    }
    WalkConcat(a + b, [to], size);
  }

  /** Both routes have |dx| + |dy| + 1 cells and end at `to`. */
  lemma RouteLengths(from: Position, to: Position)
    ensures |HVRoute(from, to)| == Distance(from, to) + 1 == |VHRoute(from, to)|
    ensures Last(HVRoute(from, to)) == to == Last(VHRoute(from, to))
  {
    assert Abs(to.x - from.x) == Abs(from.x - to.x);
    assert Abs(to.y - from.y) == Abs(from.y - to.y);
  }

  /** The HV route has |dx| + |dy| + 1 cells, ends at `to`, starts at `from`
      (when the two differ) and, between on-board ends, is a self-avoiding walk
      of 4-adjacent steps. */
  lemma HVRouteWalk(from: Position, to: Position, size: int)
    requires InBounds(from, size) && InBounds(to, size)
    ensures |HVRoute(from, to)| == Distance(from, to) + 1
    ensures Last(HVRoute(from, to)) == to
    ensures from != to ==> HVRoute(from, to)[0] == from
    ensures IsWalk(HVRoute(from, to), size)
  {
    var h, v := HLeg(from.x, to.x, from.y), VLeg(from.y, to.y, to.x);
    HLegShape(from.x, to.x, from.y);
    VLegShape(from.y, to.y, to.x);
    LegsInBounds(from, to, size);
    JoinLegs(h, v, to, size);
    RouteLengths(from, to);
    if from != to {
      if h != [] {
        assert HVRoute(from, to)[0] == h[0];
      } else {
        assert HVRoute(from, to)[0] == v[0];
      }
    }
  }

  /** The mirror statement for the VH route. */
  lemma VHRouteWalk(from: Position, to: Position, size: int)
    requires InBounds(from, size) && InBounds(to, size)
    ensures |VHRoute(from, to)| == Distance(from, to) + 1
    ensures Last(VHRoute(from, to)) == to
    ensures from != to ==> VHRoute(from, to)[0] == from
    ensures IsWalk(VHRoute(from, to), size)
  {
    var v, h := VLeg(from.y, to.y, from.x), HLeg(from.x, to.x, to.y);
    VLegShape(from.y, to.y, from.x);
    HLegShape(from.x, to.x, to.y);
    LegsInBounds(from, to, size);
    JoinLegs(v, h, to, size);
    RouteLengths(from, to);
    if from != to {
      if v != [] {
        assert VHRoute(from, to)[0] == v[0];
      } else {
        assert VHRoute(from, to)[0] == h[0];
      }
    }
  }

  /** A route findPath returns is a walk from `from` to `to`. */
  lemma LRouteWalk(cells: seq<seq<Cell>>, size: int, from: Position, to: Position)
    requires Square(cells, size) && InBounds(from, size) && InBounds(to, size)
    requires LRoute(cells, size, from, to).Some?
    ensures var r := LRoute(cells, size, from, to).value;
            |r| == Distance(from, to) + 1 && Last(r) == to &&
            (from != to ==> r[0] == from) && IsWalk(r, size)
  {
    HVRouteWalk(from, to, size);
    VHRouteWalk(from, to, size);
  }

  // ---------------------------------------------------------------------
  // Relation to lib/pathValidator.ts.

  /** A free HV route passes canReachHV: every cell canReachHV inspects lies on
      the route, strictly inside it, and is neither end. */
  lemma HVPathClear(cells: seq<seq<Cell>>, size: int, from: Position, to: Position)
    requires Square(cells, size)
    requires HVPath(cells, size, from, to).Some?
    ensures PathValidator.HVClear(cells, from, to)
  {
    var h, v := HLeg(from.x, to.x, from.y), VLeg(from.y, to.y, to.x);
    var route := HVRoute(from, to);
    HLegShape(from.x, to.x, from.y);
    VLegShape(from.y, to.y, to.x);
    forall p | p in PathValidator.HVCells(from, to)
      ensures !PathValidator.OccupiedAt(cells, p)
    {
      PathValidator.HVCellsMembers(from, to, p);
      if p.y == from.y && PathValidator.Between(p.x, from.x, to.x) {
        var i := Abs(p.x - from.x);
        assert route[i] == h[i] == p;
      } else {
        var i := |h| + Abs(p.y - from.y);
        assert route[i] == v[i - |h|] == p;
      }
    }
  }

  lemma VHPathClear(cells: seq<seq<Cell>>, size: int, from: Position, to: Position)
    requires Square(cells, size)
    requires VHPath(cells, size, from, to).Some?
    ensures PathValidator.VHClear(cells, from, to)
  {
    var v, h := VLeg(from.y, to.y, from.x), HLeg(from.x, to.x, to.y);
    var route := VHRoute(from, to);
    VLegShape(from.y, to.y, from.x);
    HLegShape(from.x, to.x, to.y);
    forall p | p in PathValidator.VHCells(from, to)
      ensures !PathValidator.OccupiedAt(cells, p)
    {
      PathValidator.VHCellsMembers(from, to, p);
      if p.x == from.x && PathValidator.Between(p.y, from.y, to.y) {
        var i := Abs(p.y - from.y);
        assert route[i] == v[i] == p;
      } else {
        var i := |v| + Abs(p.x - from.x);
        assert route[i] == h[i - |v|] == p;
      }
    }
  }

  /** Whenever findPath finds a route, isReachable holds. */
  lemma LRouteReachable(cells: seq<seq<Cell>>, size: int, from: Position, to: Position)
    requires Square(cells, size)
    requires LRoute(cells, size, from, to).Some?
    ensures PathValidator.Reachable(cells, from, to)
  {
    if HVPath(cells, size, from, to).Some? {
      HVPathClear(cells, size, from, to);
    } else {
      VHPathClear(cells, size, from, to);
    }
  }

  /** The converse fails: on a 2x2 board with both off-diagonal cells occupied,
      isReachable accepts the diagonal while findPath, which tests the corner
      of each L, finds no route. */
  lemma CornerTested()
    ensures var free := Cell(Position(0, 0), false, false, None);
            var cells := [[free, free.(isOccupied := true)], [free.(isOccupied := true), free]];
            Square(cells, 2) &&
            PathValidator.Reachable(cells, Position(0, 0), Position(1, 1)) &&
            LRoute(cells, 2, Position(0, 0), Position(1, 1)) == None
  {
    var free := Cell(Position(0, 0), false, false, None);
    var cells := [[free, free.(isOccupied := true)], [free.(isOccupied := true), free]];
    var a, b := Position(0, 0), Position(1, 1);
    PathValidator.CornerQuirk();
    assert HVRoute(a, b)[1] == Position(1, 0);
    assert VHRoute(a, b)[1] == Position(0, 1);
  }

  // ---------------------------------------------------------------------
  // The route-building loops.

  /** No cell of `leg` is obstructed. */
  predicate LegClear(cells: seq<seq<Cell>>, size: int, leg: seq<Position>, from: Position, to: Position)
    requires Square(cells, size)
  {
    forall i :: 0 <= i < |leg| ==> !Obstructed(cells, size, leg[i], from, to)
  }

  /** A route is free exactly when both of its legs are. */
  lemma UnobstructedLegs(cells: seq<seq<Cell>>, size: int, a: seq<Position>, b: seq<Position>, from: Position, to: Position)
    requires Square(cells, size)
    ensures Unobstructed(cells, size, a + b + [to], from, to) <==>
              LegClear(cells, size, a, from, to) && LegClear(cells, size, b, from, to)
  {
    var route := a + b + [to];
    assert forall i :: 0 <= i < |a| ==> route[i] == a[i];
    assert forall i :: 0 <= i < |b| ==> route[|a| + i] == b[i];
    if LegClear(cells, size, a, from, to) && LegClear(cells, size, b, from, to) {
      forall i | 0 <= i < |route| - 1
        ensures !Obstructed(cells, size, route[i], from, to)
      {
        if i >= |a| {
          assert route[|a| + (i - |a|)] == b[i - |a|];
        }
      }
    }
  }

  /** One horizontal for-loop: columns a toward b (b excluded) on row y,
      null at the first obstructed cell. */
  method ScanRow(grid: GameGrid, from: Position, to: Position, a: int, b: int, y: int)
      returns (r: Option<seq<Position>>)
    requires grid.WellFormed()
    ensures r == if LegClear(grid.cells, grid.size, HLeg(a, b, y), from, to) then Some(HLeg(a, b, y)) else None
  {
    ghost var leg := HLeg(a, b, y);
    var path: seq<Position> := [];
    if a != b {
      var step := if a < b then 1 else -1;
      var x := a;
      while x != b
        invariant |path| <= |leg| && x == Toward(a, b, |path|)
        invariant path == leg[..|path|]
        invariant LegClear(grid.cells, grid.size, path, from, to)
        decreases Abs(b - x)
      {
        if Obstructed(grid.cells, grid.size, Position(x, y), from, to) {
          assert leg[|path|] == Position(x, y);
          return None;
        }
        path := path + [Position(x, y)];
        x := x + step;
      }
    }
    assert path == leg;
    return Some(path);
  }

  /** One vertical for-loop: rows a toward b (b excluded) in column x. */
  method ScanColumn(grid: GameGrid, from: Position, to: Position, a: int, b: int, x: int)
      returns (r: Option<seq<Position>>)
    requires grid.WellFormed()
    ensures r == if LegClear(grid.cells, grid.size, VLeg(a, b, x), from, to) then Some(VLeg(a, b, x)) else None
  {
    ghost var leg := VLeg(a, b, x);
    var path: seq<Position> := [];
    if a != b {
      var step := if a < b then 1 else -1;
      var y := a;
      while y != b
        invariant |path| <= |leg| && y == Toward(a, b, |path|)
        invariant path == leg[..|path|]
        invariant LegClear(grid.cells, grid.size, path, from, to)
        decreases Abs(b - y)
      {
        if Obstructed(grid.cells, grid.size, Position(x, y), from, to) {
          assert leg[|path|] == Position(x, y);
          return None;
        }
        path := path + [Position(x, y)];
        y := y + step;
      }
    }
    assert path == leg;
    return Some(path);
  }

  /** getHVPath: the row loop, then the column loop; `to` is pushed last. */
  method GetHVPath(grid: GameGrid, from: Position, to: Position) returns (r: Option<seq<Position>>)
    requires grid.WellFormed()
    ensures r == HVPath(grid.cells, grid.size, from, to)
  {
    UnobstructedLegs(grid.cells, grid.size, HLeg(from.x, to.x, from.y), VLeg(from.y, to.y, to.x), from, to);
    var row := ScanRow(grid, from, to, from.x, to.x, from.y);
    if row.None? {
      return None;
    }
    var column := ScanColumn(grid, from, to, from.y, to.y, to.x);
    if column.None? {
      return None;
    }
    return Some(row.value + column.value + [to]);
  }

  /** getVHPath: the column loop, then the row loop. */
  method GetVHPath(grid: GameGrid, from: Position, to: Position) returns (r: Option<seq<Position>>)
    requires grid.WellFormed()
    ensures r == VHPath(grid.cells, grid.size, from, to)
  {
    UnobstructedLegs(grid.cells, grid.size, VLeg(from.y, to.y, from.x), HLeg(from.x, to.x, to.y), from, to);
    var column := ScanColumn(grid, from, to, from.y, to.y, from.x);
    if column.None? {
      return None;
    }
    var row := ScanRow(grid, from, to, from.x, to.x, to.y);
    if row.None? {
      return None;
    }
    return Some(column.value + row.value + [to]);
  }

  /** findPath: both routes are built; the HV one wins when it exists. */
  method FindPath(grid: GameGrid, from: Position, to: Position) returns (r: Option<seq<Position>>)
    requires grid.WellFormed()
    ensures r == LRoute(grid.cells, grid.size, from, to)
  {
    var path1 := GetHVPath(grid, from, to);
    var path2 := GetVHPath(grid, from, to);
    if path1.Some? {
      return path1;
    }
    if path2.Some? {
      return path2;
    }
    return None;
  }

  // ---------------------------------------------------------------------
  // canReachAllCells

  function NumberKey(d: Dot): int { d.number }

  /** The dots in visiting order: a stable sort by number. */
  function ByNumber(dots: seq<Dot>): seq<Dot> {
    SortBy(dots, NumberKey)
  }

  /** The cells of the routes between ds[0], ds[1], ..., ds[n], or None when one
      of those n consecutive pairs has no route. */
  function Covered(cells: seq<seq<Cell>>, size: int, ds: seq<Dot>, n: nat): Option<set<Position>>
    requires Square(cells, size) && n < |ds|
  {
    if n == 0 then Some({})
    else
      match Covered(cells, size, ds, n - 1)
      case None => None
      case Some(s) =>
        match LRoute(cells, size, ds[n - 1].position, ds[n].position)
        case None => None
        case Some(route) => Some(s + Elems(route))
  }

  /** floor(size * size * 0.6), computed exactly. */
  function CoverageThreshold(size: nat): nat {
    size * size * 6 / 10
  }

  /** What canReachAllCells accepts: eight dots, a route between each pair of
      consecutive dots in number order, and routes covering at least 60% of
      the board. */
  predicate ReachesAllCells(cells: seq<seq<Cell>>, size: nat, dots: seq<Dot>)
    requires Square(cells, size)
  {
    |dots| == 8 &&
    var c := Covered(cells, size, ByNumber(dots), 7);
    c.Some? && |c.value| >= CoverageThreshold(size)
  }

  /** The coverage is defined exactly when every consecutive pair has a route,
      and then it holds every one of the dots ds[0..n]. */
  lemma {:induction false} CoveredPairs(cells: seq<seq<Cell>>, size: int, ds: seq<Dot>, n: nat)
    requires Square(cells, size) && n < |ds|
    ensures Covered(cells, size, ds, n).Some? <==>
              forall i :: 0 <= i < n ==> LRoute(cells, size, ds[i].position, ds[i + 1].position).Some?
    ensures Covered(cells, size, ds, n).Some? && n > 0 ==>
              forall k :: 0 <= k <= n ==> ds[k].position in Covered(cells, size, ds, n).value
  {
    if n > 0 {
      CoveredPairs(cells, size, ds, n - 1);
      var c := Covered(cells, size, ds, n);
      if c.Some? {
        var route := LRoute(cells, size, ds[n - 1].position, ds[n].position).value;
        RouteEnds(cells, size, ds[n - 1].position, ds[n].position);
        assert ds[n].position in Elems(route);
        assert ds[n - 1].position in Elems(route);
      }
    }
  }

  /** A route holds both of its ends. */
  lemma RouteEnds(cells: seq<seq<Cell>>, size: int, from: Position, to: Position)
    requires Square(cells, size)
    ensures LRoute(cells, size, from, to).Some? ==>
              from in LRoute(cells, size, from, to).value && to in LRoute(cells, size, from, to).value
  {
    var h := HLeg(from.x, to.x, from.y) + VLeg(from.y, to.y, to.x);
    var v := VLeg(from.y, to.y, from.x) + HLeg(from.x, to.x, to.y);
    assert HVRoute(from, to) == h + [to] && VHRoute(from, to) == v + [to];
    assert Last(HVRoute(from, to)) == to && Last(VHRoute(from, to)) == to;
    if from != to {
      HLegShape(from.x, to.x, from.y);
      VLegShape(from.y, to.y, to.x);
      VLegShape(from.y, to.y, from.x);
      HLegShape(from.x, to.x, to.y);
      assert HVRoute(from, to)[0] == from;
      assert VHRoute(from, to)[0] == from;
    }
  }

  /** With every dot on the board the covered cells lie on the board, so the
      coverage can reach but never exceed size * size. */
  lemma {:induction false} CoveredOnBoard(cells: seq<seq<Cell>>, size: nat, ds: seq<Dot>, n: nat)
    requires Square(cells, size) && n < |ds|
    requires forall k :: 0 <= k < |ds| ==> InBounds(ds[k].position, size)
    requires Covered(cells, size, ds, n).Some?
    ensures Covered(cells, size, ds, n).value <= Board(size)
    ensures |Covered(cells, size, ds, n).value| <= size * size
  {
    if n > 0 {
      CoveredOnBoard(cells, size, ds, n - 1);
      var from, to := ds[n - 1].position, ds[n].position;
      var route := LRoute(cells, size, from, to).value;
      LRouteWalk(cells, size, from, to);
      forall p | p in Elems(route)
        ensures p in Board(size)
      {
        InBoard(p, size);
      }
    }
    SubsetCard(Covered(cells, size, ds, n).value, Board(size));
    BoardCard(size);
  }

  /** canReachAllCells implies every step of the number order is reachable in
      the sense of lib/pathValidator.ts. */
  lemma ReachesAllCellsReachable(cells: seq<seq<Cell>>, size: nat, dots: seq<Dot>)
    requires Square(cells, size) && ReachesAllCells(cells, size, dots)
    ensures |dots| == 8
    ensures forall i :: 0 <= i < 7 ==>
              PathValidator.Reachable(cells, ByNumber(dots)[i].position, ByNumber(dots)[i + 1].position)
  {
    var ds := ByNumber(dots);
    CoveredPairs(cells, size, ds, 7);
    forall i | 0 <= i < 7
      ensures PathValidator.Reachable(cells, ds[i].position, ds[i + 1].position)
    {
      LRouteReachable(cells, size, ds[i].position, ds[i + 1].position);
    }
  }

  /** path.forEach(pos => visited.add(pos)). */
  method AddAll(visited: set<Position>, path: seq<Position>) returns (r: set<Position>)
    ensures r == visited + Elems(path)
  {
    r := visited;
    var j := 0;
    while j < |path|
      invariant 0 <= j <= |path|
      invariant r == visited + Elems(path[..j])
    {
      assert path[..j + 1] == path[..j] + [path[j]];
      ElemsAppend(path[..j], path[j]);
      r := r + {path[j]};
      j := j + 1;
    }
    assert path[..j] == path;
  }

  /** The sorted copy of the dots. */
  method SortByNumber(dots: seq<Dot>) returns (sorted: seq<Dot>)
    ensures sorted == ByNumber(dots)
    ensures multiset(sorted) == multiset(dots)
    ensures SortedBy(sorted, NumberKey)
  {
    sorted := SortBy(dots, NumberKey);
    SortBySorted(dots, NumberKey);
  }

  /** canReachAllCells. */
  method CanReachAllCells(grid: GameGrid, dots: seq<Dot>) returns (r: bool)
    requires grid.WellFormed()
    ensures r == ReachesAllCells(grid.cells, grid.size, dots)
  {
    if |dots| != 8 {
      return false;
    }
    var sortedDots := SortByNumber(dots);
    var visited: set<Position> := {};
    var i := 0;
    while i < |sortedDots| - 1
      invariant 0 <= i <= |sortedDots| - 1
      invariant Covered(grid.cells, grid.size, sortedDots, i) == Some(visited)
    {
      var path := FindPath(grid, sortedDots[i].position, sortedDots[i + 1].position);
      if path.None? {
        CoveredNone(grid.cells, grid.size, sortedDots, i + 1, 7);
        return false;
      }
      visited := AddAll(visited, path.value);
      i := i + 1;
    }
    return |visited| >= grid.size * grid.size * 6 / 10;
  }

  /** Once a pair has no route, no longer prefix has a coverage either. */
  lemma {:induction false} CoveredNone(cells: seq<seq<Cell>>, size: int, ds: seq<Dot>, n: nat, m: nat)
    requires Square(cells, size) && n <= m < |ds|
    requires Covered(cells, size, ds, n).None?
    ensures Covered(cells, size, ds, m).None?
    decreases m - n
  {
    if n < m {
      CoveredNone(cells, size, ds, n + 1, m);
    }
  }

  // ---------------------------------------------------------------------
  // getSpiralPositions and getFallbackPositions

  /** The Chebyshev (king-move) distance. */
  function Chebyshev(a: Position, b: Position): nat {
    if Abs(a.x - b.x) < Abs(a.y - b.y) then Abs(a.y - b.y) else Abs(a.x - b.x)
  }

  /** The test of the inner loop: on the board and on the border of the square
      of half-width r around (cx, cy). */
  predicate Kept(x: int, y: int, cx: int, cy: int, r: int, n: int) {
    0 <= x < n && 0 <= y < n && (x == cx - r || x == cx + r || y == cy - r || y == cy + r)
  }

  /** Number of values of each loop counter: cx - r .. cx + r. */
  function Width(r: int): nat {
    if r < 0 then 0 else 2 * r + 1
  }

  /** What the inner loop has pushed for column x after k rows, starting at cy - r. */
  function ColumnCells(x: int, cx: int, cy: int, r: int, n: int, k: nat): seq<Position> {
    if k == 0 then []
    else
      ColumnCells(x, cx, cy, r, n, k - 1) +
      (if Kept(x, cy - r + k - 1, cx, cy, r, n) then [Position(x, cy - r + k - 1)] else [])
  }

  /** What the outer loop has pushed after j columns, starting at cx - r. */
  function RingCells(cx: int, cy: int, r: int, n: int, j: nat): seq<Position> {
    if j == 0 then []
    else RingCells(cx, cy, r, n, j - 1) + ColumnCells(cx - r + j - 1, cx, cy, r, n, Width(r))
  }

  /** Ordered by column, then by row. */
  predicate ColumnMajor(s: seq<Position>) {
    forall i, j :: 0 <= i < j < |s| ==> s[i].x < s[j].x || (s[i].x == s[j].x && s[i].y < s[j].y)
  }

  lemma {:induction false} ColumnCellsShape(x: int, cx: int, cy: int, r: int, n: int, k: nat)
    ensures forall p :: p in ColumnCells(x, cx, cy, r, n, k) <==>
              p.x == x && cy - r <= p.y < cy - r + k && Kept(p.x, p.y, cx, cy, r, n)
    ensures ColumnMajor(ColumnCells(x, cx, cy, r, n, k))
  {
    if k > 0 {
      ColumnCellsShape(x, cx, cy, r, n, k - 1);
    }
  }

  /** Joining a column-major list of cells left of column c to a column-major
      list of cells in column c keeps the order. */
  lemma ColumnMajorAppend(front: seq<Position>, col: seq<Position>, c: int)
    requires ColumnMajor(front) && ColumnMajor(col)
    requires forall p :: p in front ==> p.x < c
    requires forall p :: p in col ==> p.x == c
    ensures ColumnMajor(front + col)
  {
    var s := front + col;
    forall a, b | 0 <= a < b < |s|
      ensures s[a].x < s[b].x || (s[a].x == s[b].x && s[a].y < s[b].y)
    {
      if b < |front| {
        assert s[a] == front[a] && s[b] == front[b];
      } else if a >= |front| {
        assert s[a] == col[a - |front|] && s[b] == col[b - |front|];
      } else {
        assert s[a] == front[a] && s[a] in front;
        assert s[b] == col[b - |front|] && s[b] in col;
      }
    }
  }

  lemma {:induction false} RingCellsShape(cx: int, cy: int, r: int, n: int, j: nat)
    ensures forall p :: p in RingCells(cx, cy, r, n, j) <==>
              cx - r <= p.x < cx - r + j && cy - r <= p.y < cy - r + Width(r) && Kept(p.x, p.y, cx, cy, r, n)
    ensures ColumnMajor(RingCells(cx, cy, r, n, j))
  {
    if j > 0 {
      RingCellsShape(cx, cy, r, n, j - 1);
      var front, col := RingCells(cx, cy, r, n, j - 1), ColumnCells(cx - r + j - 1, cx, cy, r, n, Width(r));
      ColumnCellsShape(cx - r + j - 1, cx, cy, r, n, Width(r));
      ColumnMajorAppend(front, col, cx - r + j - 1);
    }
  }

  /** The candidates of radius r around (cx, cy) are exactly the on-board cells
      at Chebyshev distance r, listed column by column, each column top down;
      in particular no cell repeats. */
  lemma SpiralCells(cx: int, cy: int, r: int, n: int)
    ensures forall p :: p in RingCells(cx, cy, r, n, Width(r)) <==>
              InBounds(p, n) && Chebyshev(p, Position(cx, cy)) == r
    ensures ColumnMajor(RingCells(cx, cy, r, n, Width(r)))
    ensures Distinct(RingCells(cx, cy, r, n, Width(r)))
  {
    RingCellsShape(cx, cy, r, n, Width(r));
  }

  /** getSpiralPositions: x from cx - r to cx + r, y from cy - r to cy + r,
      keeping the on-board cells of the square's border. */
  method GetSpiralPositions(centerX: int, centerY: int, radius: int, gridSize: int) returns (positions: seq<Position>)
    ensures positions == RingCells(centerX, centerY, radius, gridSize, Width(radius))
  {
    positions := [];
    var x := centerX - radius;
    while x <= centerX + radius
      invariant x - (centerX - radius) <= Width(radius)
      invariant x <= centerX + radius + 1 || radius < 0
      invariant positions == RingCells(centerX, centerY, radius, gridSize, if radius < 0 then 0 else x - (centerX - radius))
    {
      ghost var j := x - (centerX - radius);
      ghost var front := positions;
      var y := centerY - radius;
      while y <= centerY + radius
        invariant 0 <= y - (centerY - radius) <= Width(radius)
        invariant positions == front + ColumnCells(x, centerX, centerY, radius, gridSize, y - (centerY - radius))
      {
        if x >= 0 && x < gridSize && y >= 0 && y < gridSize {
          if x == centerX - radius || x == centerX + radius || y == centerY - radius || y == centerY + radius {
            positions := positions + [Position(x, y)];
          }
        }
        y := y + 1;
      }
      x := x + 1;
    }
  }

  /** Along the list the distance from c never decreases. */
  predicate Outward(s: seq<Position>, c: Position) {
    forall i, j :: 0 <= i < j < |s| ==> Chebyshev(s[i], c) <= Chebyshev(s[j], c)
  }

  /** A repetition-free list holding every cell of the board has at least
      size * size entries. */
  lemma HoldsBoard(s: seq<Position>, size: nat)
    requires Distinct(s)
    requires forall p :: InBounds(p, size) ==> p in s
    ensures |s| >= size * size
  {
    forall p | p in Board(size)
      ensures p in Elems(s)
    {
      InBoard(p, size);
    }
    SubsetCard(Board(size), Elems(s));
    DistinctElemsCard(s);
    BoardCard(size);
  }

  /** Every cell of the board is within size - 1 of the centre cell. */
  lemma NearCentre(p: Position, size: nat)
    requires InBounds(p, size)
    ensures Chebyshev(p, Position(size / 2, size / 2)) < size
  {
  }

  /** The ring loop of getFallbackPositions: walks the candidates of `radius`,
      appending those not yet listed, and stops once dotCount are listed. */
  method AddRing(positions: seq<Position>, center: int, radius: nat, size: nat, dotCount: int)
      returns (out: seq<Position>)
    requires radius >= 1 && 1 <= |positions| < dotCount
    requires Distinct(positions) && AllInBounds(positions, size)
    requires forall i :: 0 <= i < |positions| ==> Chebyshev(positions[i], Position(center, center)) < radius
    requires Outward(positions, Position(center, center))
    ensures positions <= out && |out| <= dotCount
    ensures Distinct(out) && AllInBounds(out, size)
    ensures forall i :: 0 <= i < |out| ==> Chebyshev(out[i], Position(center, center)) <= radius
    ensures Outward(out, Position(center, center))
    ensures |out| < dotCount ==>
              forall p :: InBounds(p, size) && Chebyshev(p, Position(center, center)) == radius ==> p in out
  {
    var c := Position(center, center);
    var candidates := GetSpiralPositions(center, center, radius, size);
    SpiralCells(center, center, radius, size);
    out := positions;
    var currentCount := |positions|;
    var k := 0;
    while k < |candidates|
      invariant 0 <= k <= |candidates|
      invariant positions <= out && currentCount == |out| <= dotCount
      invariant Distinct(out) && AllInBounds(out, size)
      invariant forall i :: 0 <= i < |out| ==> Chebyshev(out[i], c) <= radius
      invariant Outward(out, c)
      invariant forall m :: 0 <= m < k ==> candidates[m] in out
    {
      if currentCount >= dotCount {
        break;
      }
      var pos := candidates[k];
      if pos !in out {
        assert candidates[k] in candidates;
        out := out + [pos];
        currentCount := currentCount + 1;
      }
      k := k + 1;
    }
  }

  /** getFallbackPositions for dotCount <= size * size: the centre, then the
      rings of radius 1, 2, ... in spiral order until dotCount cells are listed.
      The rings cover the board, so the random top-up loop of the source is
      never entered and is not part of the model. */
  method GetFallbackPositions(size: nat, dotCount: int) returns (result: seq<Position>)
    requires dotCount <= size * size
    ensures |result| == if dotCount <= 0 then 0 else dotCount
    ensures Distinct(result) && AllInBounds(result, size)
    ensures dotCount >= 1 ==> result[0] == Position(size / 2, size / 2)
    ensures Outward(result, Position(size / 2, size / 2))
  {
    var center := size / 2;
    var c := Position(center, center);
    var positions := [c];
    var radius := 1;
    var currentCount := 1;
    while currentCount < dotCount && radius < size
      invariant 1 <= radius && 1 <= currentCount == |positions|
      invariant currentCount <= dotCount || currentCount == 1
      invariant positions[0] == c && Distinct(positions)
      invariant dotCount >= 1 ==> AllInBounds(positions, size)
      invariant forall i :: 0 <= i < |positions| ==> Chebyshev(positions[i], c) < radius
      invariant Outward(positions, c)
      invariant currentCount < dotCount ==>
                  forall p :: InBounds(p, size) && Chebyshev(p, c) < radius ==> p in positions
    {
      ghost var before := positions;
      positions := AddRing(positions, center, radius, size, dotCount);
      assert positions[0] == before[0];
      currentCount := |positions|;
      radius := radius + 1;
    }
    if currentCount < dotCount {
      forall p | InBounds(p, size)
        ensures p in positions
      {
        NearCentre(p, size);
      }
      HoldsBoard(positions, size);
      assert false;
    }
    result := if dotCount <= 0 then [] else positions[..dotCount];
    if dotCount >= 1 {
      assert result == positions;
    }
  }
}
