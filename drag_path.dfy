/** hooks/useDragPath.ts: drawing a path through every cell by dragging, and
    the check that the finished path meets the dots in number order.

    areAdjacent is GameTypes.Adjacent and posEquals is equality of positions.
    The hook's React state (currentPath, isDragging, dragPosition and the
    lastDragPos ref) becomes the fields of a DragSession, updated one event at
    a time; onPathComplete becomes the value MouseMove returns. */
module DragPath {
  import opened SeqUtil
  import opened GameTypes
  import SolvableMazeGenerator

  /** areAdjacent is symmetric and irreflexive. */
  lemma AdjacentSymmetric(a: Position, b: Position)
    ensures Adjacent(a, b) <==> Adjacent(b, a)
    ensures !Adjacent(a, a)
  {
  }

  // ---------------------------------------------------------------------
  // validateDotSequence

  /** grid.dots.find(dot => posEquals(dot.position, p)): the first dot on p. */
  function DotAt(dots: seq<Dot>, p: Position): (r: Option<Dot>)
    ensures r.Some? <==> exists k :: 0 <= k < |dots| && dots[k].position == p
    ensures r.Some? ==> r.value in dots && r.value.position == p
  {
    if dots == [] then None
    else if dots[0].position == p then Some(dots[0])
    else
      var r := DotAt(dots[1..], p);
      assert forall k :: 1 <= k < |dots| ==> dots[k] == dots[1..][k - 1];
      r
  }

  /** When no other dot shares dots[k]'s cell, find returns dots[k]. */
  lemma {:induction false} DotAtUnique(dots: seq<Dot>, k: nat)
    requires k < |dots|
    requires forall j :: 0 <= j < |dots| && j != k ==> dots[j].position != dots[k].position
    ensures DotAt(dots, dots[k].position) == Some(dots[k])
  {
    if k > 0 {
      var rest := dots[1..];
      forall j | 0 <= j < |rest| && j != k - 1
        ensures rest[j].position != rest[k - 1].position
      {
        assert rest[j] == dots[j + 1];
      }
      DotAtUnique(rest, k - 1);
    }
  }

  /** The dots met while walking along the path, one per cell holding a dot. */
  function Met(path: seq<Position>, dots: seq<Dot>): seq<Dot> {
    if path == [] then []
    else
      Met(path[..|path| - 1], dots) +
      match DotAt(dots, path[|path| - 1]) case Some(d) => [d] case None => []
  }

  /** The k-th dot met carries the number k + 1. */
  predicate NumberedInOrder(m: seq<Dot>) {
    forall k :: 0 <= k < |m| ==> m[k].number == k + 1
  }

  /** validateDotSequence's verdict: every dot lies on the path, and the dots
      met along it are numbered 1, 2, ... with at least one per dot. */
  predicate DotSequenceValid(path: seq<Position>, dots: seq<Dot>) {
    (forall k :: 0 <= k < |dots| ==> dots[k].position in path) &&
    NumberedInOrder(Met(path, dots)) && |Met(path, dots)| >= |dots|
  }

  /** validateDotSequence: the filter count, then the walk with the
      expectedNextDot counter, returning false at the first dot out of order. */
  method ValidateDotSequence(path: seq<Position>, dots: seq<Dot>) returns (r: bool)
    ensures r == DotSequenceValid(path, dots)
    ensures r ==> forall k :: 0 <= k < |dots| ==> dots[k].position in path
  {
    var dotsInPath := DotsOnPath(dots, path);
    DotsOnPathAll(dots, path);
    if |dotsInPath| != |dots| {
      return false;
    }
    var expectedNextDot := 1;
    var i := 0;
    while i < |path|
      invariant 0 <= i <= |path|
      invariant expectedNextDot == |Met(path[..i], dots)| + 1
      invariant NumberedInOrder(Met(path[..i], dots))
    {
      var pathPos := path[i];
      MetStep(path, dots, i);
      var dotAtPosition := DotAt(dots, pathPos);
      if dotAtPosition.Some? {
        if dotAtPosition.value.number != expectedNextDot {
          MetOutOfOrder(path, dots, i);
          return false;
        }
        expectedNextDot := expectedNextDot + 1;
      }
      i := i + 1;
    }
    assert path[..i] == path;
    return expectedNextDot > |dots|;
  }

  /** One more cell meets the dot on it, if any. */
  lemma MetStep(path: seq<Position>, dots: seq<Dot>, i: nat)
    requires i < |path|
    ensures Met(path[..i + 1], dots) ==
              Met(path[..i], dots) + match DotAt(dots, path[i]) case Some(d) => [d] case None => []
  {
    assert path[..i + 1][..i] == path[..i];
  }

  /** A dot met out of turn makes the whole walk out of order. */
  lemma MetOutOfOrder(path: seq<Position>, dots: seq<Dot>, i: nat)
    requires i < |path| && DotAt(dots, path[i]).Some?
    requires DotAt(dots, path[i]).value.number != |Met(path[..i], dots)| + 1
    ensures !NumberedInOrder(Met(path, dots))
  {
    var m := Met(path[..i], dots);
    MetStep(path, dots, i);
    MetExtends(path, dots, i + 1, |path|);
    assert path[..|path|] == path;
    assert Met(path, dots)[|m|] == Met(path[..i + 1], dots)[|m|];
  }

  /** The dots met along a prefix are a prefix of those met along the path. */
  lemma {:induction false} MetExtends(path: seq<Position>, dots: seq<Dot>, i: nat, j: nat)
    requires i <= j <= |path|
    ensures Met(path[..i], dots) <= Met(path[..j], dots)
    decreases j - i
  {
    if i < j {
      MetExtends(path, dots, i + 1, j);
      assert path[..i + 1][..i] == path[..i];
    }
  }

  /** The dots' cells lie on the path in the dots' order. */
  predicate DotsInPathOrder(path: seq<Position>, dots: seq<Dot>) {
    (forall k :: 0 <= k < |dots| ==> dots[k].position in path) &&
    forall j, k :: 0 <= j < k < |dots| ==> IndexOf(path, dots[j].position) < IndexOf(path, dots[k].position)
  }

  lemma {:induction false} InOrderDots(path: seq<Position>, dots: seq<Dot>)
    requires InOrderWithin(DotPositions(dots), path)
    ensures DotsInPathOrder(path, dots)
  {
    var ps := DotPositions(dots);
    assert forall k :: 0 <= k < |dots| ==> ps[k] == dots[k].position;
  }

  /** The dots whose cell comes before index i of the path are the first c. */
  predicate SplitAt(path: seq<Position>, dots: seq<Dot>, i: int, c: int)
    requires DotsInPathOrder(path, dots)
  {
    0 <= i <= |path| && 0 <= c <= |dots| &&
    (forall k :: 0 <= k < c ==> IndexOf(path, dots[k].position) < i) &&
    (forall k :: c <= k < |dots| ==> IndexOf(path, dots[k].position) >= i)
  }

  /** Along a repetition-free path through the dots' cells, in the dots' order,
      the dots met in the first i cells are the first c dots, where c counts
      the dots whose cell comes before i. */
  lemma {:induction false} MetPrefix(path: seq<Position>, dots: seq<Dot>, i: nat, c: nat)
    requires Distinct(path) && DotsInPathOrder(path, dots) && SplitAt(path, dots, i, c)
    ensures Met(path[..i], dots) == dots[..c]
    decreases i, 1
  {
    if i == 0 {
    } else if c > 0 && IndexOf(path, dots[c - 1].position) == i - 1 {
      MetHit(path, dots, i, c);
    } else {
      MetMiss(path, dots, i, c);
    }
  }

  /** Cell i - 1 holds dot c - 1, the next dot met. */
  lemma {:induction false} MetHit(path: seq<Position>, dots: seq<Dot>, i: nat, c: nat)
    requires Distinct(path) && DotsInPathOrder(path, dots) && SplitAt(path, dots, i, c)
    requires i > 0 && c > 0 && IndexOf(path, dots[c - 1].position) == i - 1
    ensures Met(path[..i], dots) == dots[..c]
    decreases i, 0
  {
    forall k | 0 <= k < c - 1
      ensures IndexOf(path, dots[k].position) < i - 1
    {
      assert IndexOf(path, dots[k].position) < IndexOf(path, dots[c - 1].position);
    }
    MetPrefix(path, dots, i - 1, c - 1);
    forall j | 0 <= j < |dots| && j != c - 1
      ensures dots[j].position != dots[c - 1].position
    {
      if j < c - 1 {
        assert IndexOf(path, dots[j].position) < IndexOf(path, dots[c - 1].position);
      }
    }
    DotAtUnique(dots, c - 1);
    MetStep(path, dots, i - 1);
    assert dots[c - 1].position == path[i - 1];
    assert dots[..c] == dots[..c - 1] + [dots[c - 1]];
  }

  /** When cell i - 1 is not dot c - 1's, it holds no dot and the split
      moves back to i - 1 unchanged. */
  lemma {:induction false} MissSplit(path: seq<Position>, dots: seq<Dot>, i: nat, c: nat)
    requires Distinct(path) && DotsInPathOrder(path, dots) && SplitAt(path, dots, i, c)
    requires i > 0 && !(c > 0 && IndexOf(path, dots[c - 1].position) == i - 1)
    ensures SplitAt(path, dots, i - 1, c)
    ensures forall k :: 0 <= k < |dots| ==> dots[k].position != path[i - 1]
  {
    assert IndexOf(path, path[i - 1]) == i - 1;
    forall k | 0 <= k < |dots|
      ensures dots[k].position != path[i - 1]
      ensures k < c ==> IndexOf(path, dots[k].position) < i - 1
    {
      if k < c - 1 {
        assert IndexOf(path, dots[k].position) < IndexOf(path, dots[c - 1].position);
      }
    }
  }

  /** Cell i - 1 holds no dot. */
  lemma {:induction false} MetMiss(path: seq<Position>, dots: seq<Dot>, i: nat, c: nat)
    requires Distinct(path) && DotsInPathOrder(path, dots) && SplitAt(path, dots, i, c)
    requires i > 0 && !(c > 0 && IndexOf(path, dots[c - 1].position) == i - 1)
    ensures Met(path[..i], dots) == dots[..c]
    decreases i, 0
  {
    MissSplit(path, dots, i, c);
    MetPrefix(path, dots, i - 1, c);
    MetStep(path, dots, i - 1);
    assert DotAt(dots, path[i - 1]) == None;
  }

  /** The solution path a generated puzzle stores passes validateDotSequence:
      it meets exactly the dots, in number order. */
  lemma SolutionPathAccepted(dots: seq<Dot>, path: seq<Position>, size: nat)
    requires size >= 2 && SolvableMazeGenerator.SolvableLayout(dots, path, size)
    ensures |path| == size * size
    ensures DotSequenceValid(path, dots)
  {
    InOrderDots(path, dots);
    MetPrefix(path, dots, |path|, |dots|);
    assert path[..|path|] == path;
    assert dots[..|dots|] == dots;
  }

  // ---------------------------------------------------------------------
  // The drag state machine.

  /** Where currentPath goes when the mouse, while dragging, enters `pos`:
      off the board nothing changes; an earlier cell of the path rewinds the
      path to end there; a new cell next to the end is appended; anything
      else (the end itself, a non-adjacent cell) changes nothing. */
  function Dragged(path: seq<Position>, pos: Position, size: int): (r: seq<Position>)
    requires path != []
    ensures r != [] && (r <= path || r == path + [pos])
    ensures r < path <==> InBounds(pos, size) && pos in path[..|path| - 1]
    ensures r == path + [pos] <==> InBounds(pos, size) && pos !in path && Adjacent(Last(path), pos)
  {
    if !InBounds(pos, size) then path
    else if pos in path && IndexOf(path, pos) < |path| - 1 then path[..IndexOf(path, pos) + 1]
    else if pos != Last(path) && Adjacent(Last(path), pos) && pos !in path then path + [pos]
    else path
  }

  /** A drag step keeps the path a non-empty walk on the board, and the new
      path is a prefix of the old one or the old one extended by `pos`. */
  lemma DraggedWalk(path: seq<Position>, pos: Position, size: int)
    requires path != [] && IsWalk(path, size)
    ensures Dragged(path, pos, size) != [] && IsWalk(Dragged(path, pos, size), size)
    ensures Dragged(path, pos, size) <= path || Dragged(path, pos, size) == path + [pos]
    ensures |Dragged(path, pos, size)| == |path| + 1 <==> Dragged(path, pos, size) == path + [pos]
  {
    var r := Dragged(path, pos, size);
    if InBounds(pos, size) {
      if pos in path && IndexOf(path, pos) < |path| - 1 {
        assert r == path[..IndexOf(path, pos) + 1];
        assert forall i :: 0 <= i < |r| ==> r[i] == path[i];
      } else if pos != Last(path) && Adjacent(Last(path), pos) && pos !in path {
        WalkConcat(path, [pos], size);
      }
    }
  }

  /** Dragging back onto the previous cell undoes the last step, and dragging
      forward again redoes it. */
  lemma RewindRedo(front: seq<Position>, q: Position, size: int)
    requires front != [] && IsWalk(front + [q], size)
    ensures Dragged(front + [q], Last(front), size) == front
    ensures Dragged(front, q, size) == front + [q]
  {
    var path := front + [q];
    var p := Last(front);
    assert path[|front| - 1] == p && path[|front|] == q;
    assert p in path;
    var i := IndexOf(path, p);
    assert i == |front| - 1;
    assert path[..i + 1] == front;
    assert q !in front by {
      forall j | 0 <= j < |front|
        ensures front[j] != q
      {
        assert path[j] == front[j];
      }
    }
  }

  class DragSession {
    /** The grid the hook is given: its side and its dots. */
    const size: nat
    const dots: seq<Dot>
    var currentPath: seq<Position>
    var isDragging: bool
    var dragPosition: Option<Position>
    var lastDragPos: Option<Position>

    constructor (size: nat, dots: seq<Dot>)
      ensures this.size == size && this.dots == dots
      ensures currentPath == [] && !isDragging && dragPosition == None && lastDragPos == None
      ensures Valid()
    {
      this.size := size;
      this.dots := dots;
      currentPath := [];
      isDragging := false;
      dragPosition := None;
      lastDragPos := None;
    }

    /** The drawn path is a walk on the board, non-empty while dragging. */
    predicate Valid()
      reads this
    {
      IsWalk(currentPath, size) && (isDragging ==> currentPath != [])
    }

    /** handleMouseDown: starts (or resumes) dragging only on an empty path or
      on the path's last cell. DragGrid reports only on-board cells. */
    method MouseDown(x: int, y: int)
      requires Valid() && InBounds(Position(x, y), size)
      modifies this
      ensures Valid()
      ensures if old(currentPath) == [] || Last(old(currentPath)) == Position(x, y) then
                isDragging && dragPosition == Some(Position(x, y)) && lastDragPos == Some(Position(x, y)) &&
                currentPath == (if old(currentPath) == [] then [Position(x, y)] else old(currentPath))
              else
                currentPath == old(currentPath) && isDragging == old(isDragging) &&
                dragPosition == old(dragPosition) && lastDragPos == old(lastDragPos)
    {
      var pos := Position(x, y);
      if |currentPath| == 0 || currentPath[|currentPath| - 1] == pos {
        isDragging := true;
        lastDragPos := Some(pos);
        dragPosition := Some(pos);
        if |currentPath| == 0 {
          currentPath := [pos];
        }
      }
    }

    /** handleMouseMove: returns the path handed to onPathComplete, if any. */
    method MouseMove(x: int, y: int) returns (completed: Option<seq<Position>>)
      requires Valid()
      modifies this
      ensures Valid() && |currentPath| <= size * size
      ensures isDragging == old(isDragging)
      ensures !old(isDragging) ==>
                currentPath == old(currentPath) && dragPosition == old(dragPosition) &&
                lastDragPos == old(lastDragPos) && completed == None
      ensures old(isDragging) ==>
                dragPosition == Some(Position(x, y)) &&
                currentPath == Dragged(old(currentPath), Position(x, y), size)
      ensures old(isDragging) ==>
                lastDragPos == if currentPath != old(currentPath) then Some(Position(x, y)) else old(lastDragPos)
      ensures completed.Some? <==>
                old(isDragging) && currentPath == old(currentPath) + [Position(x, y)] &&
                |currentPath| == size * size && DotSequenceValid(currentPath, dots)
      ensures completed.Some? ==> completed.value == currentPath && IsHamiltonianPath(currentPath, size)
    {
      completed := None;
      if !isDragging {
        WalkCoverage(currentPath, size);
        return;
      }
      var pos := Position(x, y);
      ghost var path0 := currentPath;
      DraggedWalk(path0, pos, size);
      dragPosition := Some(pos);
      if x < 0 || x >= size || y < 0 || y >= size {
        WalkCoverage(currentPath, size);
        return;
      }
      var last := currentPath[|currentPath| - 1];
      var existingIndex := if pos in currentPath then IndexOf(currentPath, pos) else -1;
      if existingIndex != -1 && existingIndex < |currentPath| - 1 {
        currentPath := currentPath[..existingIndex + 1];
        lastDragPos := Some(pos);
        WalkCoverage(currentPath, size);
        return;
      }
      if pos != last && Adjacent(last, pos) && pos !in currentPath {
        var newPath := currentPath + [pos];
        currentPath := newPath;
        lastDragPos := Some(pos);
        WalkCoverage(currentPath, size);
        var totalCells := size * size;
        if |newPath| == totalCells {
          var validSequence := ValidateDotSequence(newPath, dots);
          if validSequence {
            completed := Some(newPath);
          }
        }
      } else {
        WalkCoverage(currentPath, size);
      }
    }

    /** handleMouseUp: stops dragging and keeps the path. */
    method MouseUp()
      requires Valid()
      modifies this
      ensures Valid()
      ensures !isDragging && currentPath == old(currentPath) && lastDragPos == old(lastDragPos)
      ensures dragPosition == if old(isDragging) then None else old(dragPosition)
    {
      if isDragging {
        isDragging := false;
        dragPosition := None;
      }
    }

    /** clearPath: back to the initial state. */
    method ClearPath()
      modifies this
      ensures Valid()
      ensures currentPath == [] && !isDragging && dragPosition == None && lastDragPos == None
    {
      currentPath := [];
      isDragging := false;
      dragPosition := None;
      lastDragPos := None;
    }
  }
}
