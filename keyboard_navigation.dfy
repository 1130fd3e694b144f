/** hooks/useKeyboardNavigation.ts: the cursor that arrow keys move over the
    board, clamped at its edges, and the Space/Enter key that selects the dot
    under it. */
module KeyboardNavigation {
  import opened GameTypes

  datatype Key = ArrowUp | ArrowDown | ArrowLeft | ArrowRight | Space | Enter | OtherKey

  /** The cursor of a fresh board. */
  const Start: Position := Position(0, 0)

  function Max(a: int, b: int): int { if a < b then b else a }
  function Min(a: int, b: int): int { if a < b then a else b }

  /** The cell an arrow key points at, ignoring the board's edges; other
      keys point at the cursor itself. */
  function Toward(sel: Position, key: Key): Position {
    match key
    case ArrowUp => Position(sel.x, sel.y - 1)
    case ArrowDown => Position(sel.x, sel.y + 1)
    case ArrowLeft => Position(sel.x - 1, sel.y)
    case ArrowRight => Position(sel.x + 1, sel.y)
    case _ => sel
  }

  /** The cursor after one key press: the clamped coordinate update. On a
      non-empty board it moves to the cell the key points at when that cell
      is on the board, and otherwise stays where it is. */
  function Move(sel: Position, key: Key, size: int): (r: Position)
    ensures key in {Space, Enter, OtherKey} ==> r == sel
    ensures size >= 1 && InBounds(sel, size) ==>
              r == (if InBounds(Toward(sel, key), size) then Toward(sel, key) else sel)
  {
    match key
    case ArrowUp => sel.(y := Max(0, sel.y - 1))
    case ArrowDown => sel.(y := Min(size - 1, sel.y + 1))
    case ArrowLeft => sel.(x := Max(0, sel.x - 1))
    case ArrowRight => sel.(x := Min(size - 1, sel.x + 1))
    case _ => sel
  }

  /** The dot passed to onDotSelect for a key press: the dot of the cell under
      the cursor, for Space and Enter only. */
  function Selected(cells: seq<seq<Cell>>, sel: Position, key: Key): (r: Option<Dot>)
    requires key == Space || key == Enter ==> 0 <= sel.y < |cells| && 0 <= sel.x < |cells[sel.y]|
    ensures r.Some? <==> (key == Space || key == Enter) && cells[sel.y][sel.x].dot.Some?
    ensures r.Some? ==> r == cells[sel.y][sel.x].dot
  {
    if key == Space || key == Enter then cells[sel.y][sel.x].dot else None
  }

  /** The cursor after a series of key presses. */
  function MoveAll(sel: Position, keys: seq<Key>, size: int): (r: Position)
    decreases |keys|
  {
    if keys == [] then sel else MoveAll(Move(sel, keys[0], size), keys[1..], size)
  }

  /** From the start of a non-empty board, no series of keys takes the cursor
      off the board, so Space/Enter always reads a cell. */
  lemma {:induction false} MoveAllStaysOnBoard(sel: Position, keys: seq<Key>, size: int)
    requires size >= 1 && InBounds(sel, size)
    ensures InBounds(MoveAll(sel, keys, size), size)
    decreases |keys|
  {
    if keys != [] {
      MoveAllStaysOnBoard(Move(sel, keys[0], size), keys[1..], size);
    }
  }

  function Repeat(key: Key, n: nat): (r: seq<Key>)
    ensures |r| == n && forall i :: 0 <= i < n ==> r[i] == key
  {
    if n == 0 then [] else [key] + Repeat(key, n - 1)
  }

  lemma {:induction false} MoveAllAppend(sel: Position, a: seq<Key>, b: seq<Key>, size: int)
    ensures MoveAll(sel, a + b, size) == MoveAll(MoveAll(sel, a, size), b, size)
    decreases |a|
  {
    if a != [] {
      assert (a + b)[0] == a[0] && (a + b)[1..] == a[1..] + b;
      MoveAllAppend(Move(sel, a[0], size), a[1..], b, size);
    } else {
      assert a + b == b;
    }
  }

  /** n presses of ArrowDown from row y, with y + n still on the board, go
      down n rows. */
  lemma {:induction false} DownPresses(sel: Position, n: nat, size: int)
    requires 0 <= sel.y && sel.y + n < size
    ensures MoveAll(sel, Repeat(ArrowDown, n), size) == Position(sel.x, sel.y + n)
    decreases n
  {
    if n > 0 {
      assert Repeat(ArrowDown, n)[1..] == Repeat(ArrowDown, n - 1);
      DownPresses(Position(sel.x, sel.y + 1), n - 1, size);
    }
  }

  lemma {:induction false} RightPresses(sel: Position, n: nat, size: int)
    requires 0 <= sel.x && sel.x + n < size
    ensures MoveAll(sel, Repeat(ArrowRight, n), size) == Position(sel.x + n, sel.y)
    decreases n
  {
    if n > 0 {
      assert Repeat(ArrowRight, n)[1..] == Repeat(ArrowRight, n - 1);
      RightPresses(Position(sel.x + 1, sel.y), n - 1, size);
    }
  }

  /** Every cell of the board can be selected: y presses of ArrowDown and x
      of ArrowRight take the cursor from the start to (x, y). */
  lemma EveryCellSelectable(p: Position, size: int)
    requires InBounds(p, size)
    ensures MoveAll(Start, Repeat(ArrowDown, p.y) + Repeat(ArrowRight, p.x), size) == p
  {
    MoveAllAppend(Start, Repeat(ArrowDown, p.y), Repeat(ArrowRight, p.x), size);
    DownPresses(Start, p.y, size);
    RightPresses(Position(0, p.y), p.x, size);
  }
}
