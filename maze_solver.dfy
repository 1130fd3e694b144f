/** lib/mazeSolver.ts: a depth-first search for a self-avoiding walk that
    passes over every dot, the neighbour and whole-board enumerations it
    uses, and the checker that reports on a player's path. */
module MazeSolver {
  import opened SeqUtil
  import opened GameTypes

  // ---------------------------------------------------------------------
  // getAdjacentPositions

  /** The four orthogonal moves in the order the solver tries them:
      down, right, up, left. */
  function Steps(p: Position): (r: seq<Position>)
    ensures |r| == 4
  {
    [Position(p.x, p.y + 1), Position(p.x + 1, p.y), Position(p.x, p.y - 1), Position(p.x - 1, p.y)]
  }

  /** The on-board entries of s, in their original order. */
  function OnBoard(s: seq<Position>, size: int): (r: seq<Position>)
    ensures forall q :: q in r <==> q in s && InBounds(q, size)
    ensures |r| <= |s|
  {
    if s == [] then []
    else OnBoard(s[..|s| - 1], size) + (if InBounds(s[|s| - 1], size) then [s[|s| - 1]] else [])
  }

  /** The neighbour list holds exactly the on-board cells at distance one. */
  lemma NeighboursExact(p: Position, size: int, q: Position)
    ensures q in OnBoard(Steps(p), size) <==> InBounds(q, size) && Adjacent(p, q)
  {
    if Adjacent(p, q) {
      assert q in Steps(p);
    }
  }

  lemma NeighboursAdjacent(p: Position, size: int)
    ensures forall k :: 0 <= k < |OnBoard(Steps(p), size)| ==>
              InBounds(OnBoard(Steps(p), size)[k], size) && Adjacent(p, OnBoard(Steps(p), size)[k])
  {
    forall k | 0 <= k < |OnBoard(Steps(p), size)|
      ensures Adjacent(p, OnBoard(Steps(p), size)[k])
    {
      NeighboursExact(p, size, OnBoard(Steps(p), size)[k]);
    }
  }

  /** No neighbour is listed twice. */
  lemma NeighboursDistinct(p: Position, size: int)
    ensures Distinct(OnBoard(Steps(p), size))
  {
    var s := Steps(p);
    assert Distinct(s);
    forall i | 0 <= i <= 4
      ensures Distinct(OnBoard(s[..i], size))
    {
      NeighboursPrefixDistinct(s, size, i);
    }
    assert s[..4] == s;
  }

  lemma {:induction false} NeighboursPrefixDistinct(s: seq<Position>, size: int, i: nat)
    requires Distinct(s) && i <= |s|
    ensures Distinct(OnBoard(s[..i], size))
  {
    if i > 0 {
      NeighboursPrefixDistinct(s, size, i - 1);
      assert s[..i][..i - 1] == s[..i - 1];
      var front := OnBoard(s[..i - 1], size);
      forall k | 0 <= k < |front|
        ensures front[k] != s[i - 1]
      {
        assert front[k] in s[..i - 1];
      }
    }
  }

  /** getAdjacentPositions: tries the four moves and keeps the on-board ones. */
  method GetAdjacentPositions(pos: Position, size: int) returns (adjacent: seq<Position>)
    ensures adjacent == OnBoard(Steps(pos), size)
  {
    var directions := [Position(0, 1), Position(1, 0), Position(0, -1), Position(-1, 0)];
    adjacent := [];
    for i := 0 to |directions|
      invariant adjacent == OnBoard(Steps(pos)[..i], size)
    {
      var newPos := Position(pos.x + directions[i].x, pos.y + directions[i].y);
      assert Steps(pos)[..i + 1][..i] == Steps(pos)[..i];
      if newPos.x >= 0 && newPos.x < size && newPos.y >= 0 && newPos.y < size {
        adjacent := adjacent + [newPos];
      }
    }
    assert Steps(pos)[..4] == Steps(pos);
  }

  // ---------------------------------------------------------------------
  // getAllGridPositions

  /** getAllGridPositions: every cell, row by row, each row left to right. */
  method GetAllGridPositions(size: nat) returns (positions: seq<Position>)
    ensures positions == RowMajor(size, size)
  {
    positions := [];
    for y := 0 to size
      invariant positions == RowMajor(y, size)
    {
      for x := 0 to size
        invariant positions == RowMajor(y, size) + Row(y, size)[..x]
      {
        assert Row(y, size)[..x + 1] == Row(y, size)[..x] + [Position(x, y)];
        positions := positions + [Position(x, y)];
      }
      assert Row(y, size)[..size] == Row(y, size);
    }
  }

  /** The enumeration lists each of the size*size cells exactly once. */
  lemma AllGridPositionsExact(size: nat, p: Position)
    ensures |RowMajor(size, size)| == size * size
    ensures Distinct(RowMajor(size, size))
    ensures p in RowMajor(size, size) <==> InBounds(p, size)
  {
    RowMajorDistinct(size, size);
    RowMajorMembers(size, size, p);
  }

  // ---------------------------------------------------------------------
  // findPathRecursive and findSolutionPath

  /** remainingDots.filter(dot => path.some(...)): the targets already on the path. */
  function Connected(targets: seq<Position>, path: seq<Position>): (r: seq<Position>)
    ensures |r| <= |targets|
  {
    if targets == [] then []
    else (if targets[0] in path then [targets[0]] else []) + Connected(targets[1..], path)
  }

  /** Every target lies on the path. */
  predicate Covers(targets: seq<Position>, path: seq<Position>) {
    forall k :: 0 <= k < |targets| ==> targets[k] in path
  }

  /** The filter keeps every target exactly when the path covers them all. */
  lemma {:induction false} ConnectedAll(targets: seq<Position>, path: seq<Position>)
    ensures |Connected(targets, path)| == |targets| <==> Covers(targets, path)
  {
    if targets != [] {
      ConnectedAll(targets[1..], path);
      assert forall k :: 1 <= k < |targets| ==> targets[k] == targets[1..][k - 1];
    }
  }

  /** findPathRecursive: extends the shared trail from `current` until every
      target is on it. On success the trail is a self-avoiding walk that
      starts with the old trail and `current` and whose last cell is the
      first one that completes the targets; on failure the trail is as on
      entry. */
  method FindPathRecursive(current: Position, targets: seq<Position>, trail: Trail, size: nat)
    returns (found: bool)
    requires trail.Valid(size) && InBounds(current, size)
    requires trail.path != [] ==> Adjacent(trail.path[|trail.path| - 1], current)
    requires !Covers(targets, trail.path)
    modifies trail
    ensures trail.Valid(size)
    ensures !found ==> trail.path == old(trail.path) && trail.visited == old(trail.visited)
    ensures current in old(trail.visited) ==> !found
    ensures found ==>
              |old(trail.path)| < |trail.path| &&
              trail.path[..|old(trail.path)| + 1] == old(trail.path) + [current] &&
              Covers(targets, trail.path) &&
              !Covers(targets, trail.path[..|trail.path| - 1])
    decreases Board(size) - trail.visited, 0
  {
    if current in trail.visited {
      return false;
    }
    ghost var path0 := trail.path;
    InBoard(current, size);
    trail.Push(current, size);
    var connectedDots := Connected(targets, trail.path);
    ConnectedAll(targets, trail.path);
    if |connectedDots| == |targets| {
      assert trail.path[..|trail.path| - 1] == path0;
      assert trail.path[..|path0| + 1] == trail.path;
      return true;
    }
    var adjacentPositions := GetAdjacentPositions(current, size);
    NeighboursAdjacent(current, size);
    assert trail.path[|trail.path| - 1] == current;
    found := TryNeighbours(adjacentPositions, targets, trail, size);
    if found {
      assert trail.path[..|path0| + 1] == path0 + [current];
    } else {
      trail.Pop(path0, current, size);
    }
  }

  /** The loop over the neighbours: the first successful search wins; when
      all fail the trail is as on entry. */
  method TryNeighbours(neighbours: seq<Position>, targets: seq<Position>, trail: Trail, size: nat)
    returns (found: bool)
    requires trail.Valid(size) && trail.path != [] && !Covers(targets, trail.path)
    requires forall k :: 0 <= k < |neighbours| ==>
               InBounds(neighbours[k], size) && Adjacent(trail.path[|trail.path| - 1], neighbours[k])
    modifies trail
    ensures trail.Valid(size)
    ensures !found ==> trail.path == old(trail.path) && trail.visited == old(trail.visited)
    ensures found ==>
              |old(trail.path)| < |trail.path| &&
              trail.path[..|old(trail.path)|] == old(trail.path) &&
              Covers(targets, trail.path) &&
              !Covers(targets, trail.path[..|trail.path| - 1])
    decreases Board(size) - trail.visited, 1
  {
    for i := 0 to |neighbours|
      invariant trail.path == old(trail.path) && trail.visited == old(trail.visited)
    {
      found := FindPathRecursive(neighbours[i], targets, trail, size);
      if found {
        PrefixParts(trail.path, old(trail.path), neighbours[i]);
        return true;
      }
    }
    found := false;
  }

  /** findSolutionPath: tries each dot in turn as the start of the search. */
  method FindSolutionPath(grid: GameGrid) returns (r: Option<seq<Position>>)
    requires grid.DotsInBounds()
    ensures grid.dots == [] ==> r == None
    ensures r.Some? ==>
              IsWalk(r.value, grid.size) && |r.value| > 0 &&
              (exists k :: 0 <= k < |grid.dots| && r.value[0] == grid.dots[k].position) &&
              forall k :: 0 <= k < |grid.dots| ==> grid.dots[k].position in r.value
  {
    var dotPositions := seq(|grid.dots|, k requires 0 <= k < |grid.dots| reads grid => grid.dots[k].position);
    var trail := new Trail();
    for i := 0 to |dotPositions|
      invariant dotPositions == seq(|grid.dots|, k requires 0 <= k < |grid.dots| reads grid => grid.dots[k].position)
    {
      trail.Clear();
      var startDot := dotPositions[i];
      var found := FindPathRecursive(startDot, dotPositions, trail, grid.size);
      if found {
        assert trail.path[0] == ([] + [startDot])[0];
        assert forall k :: 0 <= k < |grid.dots| ==> grid.dots[k].position == dotPositions[k];
        return Some(trail.path);
      }
    }
    return None;
  }

  // ---------------------------------------------------------------------
  // validatePlayerPath

  /** The report validatePlayerPath returns. */
  datatype PathReport = PathReport(isValid: bool, connectedDots: nat, totalDots: nat, hasSelfCrossing: bool)

  /** validatePlayerPath: looks for the first repeated cell, counts the dots
      on the path and accepts a path without repeats that reaches every dot. */
  method ValidatePlayerPath(path: seq<Position>, dots: seq<Dot>) returns (r: PathReport)
    ensures r.hasSelfCrossing <==> !Distinct(path)
    ensures r.connectedDots == |DotsOnPath(dots, path)| && r.totalDots == |dots|
    ensures r.connectedDots == |dots| <==> forall k :: 0 <= k < |dots| ==> dots[k].position in path
    ensures r.isValid <==> Distinct(path) && forall k :: 0 <= k < |dots| ==> dots[k].position in path
  {
    var visited: set<Position> := {};
    var hasSelfCrossing := false;
    var i := 0;
    while i < |path|
      invariant 0 <= i <= |path|
      invariant visited == Elems(path[..i]) && Distinct(path[..i])
      invariant !hasSelfCrossing
    {
      var pos := path[i];
      if pos in visited {
        var j := IndexOf(path[..i], pos);
        assert path[j] == path[i];
        hasSelfCrossing := true;
        break;
      }
      assert path[..i + 1] == path[..i] + [pos];
      ElemsAppend(path[..i], pos);
      visited := visited + {pos};
      i := i + 1;
    }
    if !hasSelfCrossing {
      assert path[..i] == path;
    }
    var connectedDots := |DotsOnPath(dots, path)|;
    DotsOnPathAll(dots, path);
    var isValid := !hasSelfCrossing && connectedDots == |dots|;
    return PathReport(isValid, connectedDots, |dots|, hasSelfCrossing);
  }
}
