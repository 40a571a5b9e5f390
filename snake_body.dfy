/**
 * The snake: its ordered body (head first), its target length, its current and
 * queued direction, and the tail cell it last gave up. `SnakeState` is the value
 * of a snake; the class `Snake` holds the same fields and updates them in place.
 */
module SnakeBody {
  import opened Optional
  import opened GridSpace

  datatype Direction = Up | Down | Left | Right

  /** The unit vector of a direction, in grid steps (y grows downwards). */
  function Delta(d: Direction): (int, int) {
    match d
    case Up => (0, -1)
    case Down => (0, 1)
    case Left => (-1, 0)
    case Right => (1, 0)
  }

  /** The centre of the board, where a new snake starts. */
  const Center: Cell := (ScreenWidth / 2, ScreenHeight / 2)

  /** The cell one step from `head`, wrapping around both edges of the board. */
  function Step(head: Cell, d: Direction): Cell {
    ((head.0 + Delta(d).0 * GridSize) % ScreenWidth,
     (head.1 + Delta(d).1 * GridSize) % ScreenHeight)
  }

  datatype SnakeState = SnakeState(
    length: int,                     // the target body length
    positions: seq<Cell>,            // the body, head first
    direction: Direction,
    nextDirection: Option<Direction>,
    last: Option<Cell>,              // the tail cell dropped by the last move
    position: Cell)                  // the drawable position: the head after a move

  /** The head: the first cell of the body. */
  function HeadOf(s: SnakeState): Cell
    requires |s.positions| >= 1
  {
    s.positions[0]
  }

  /** A freshly built (or reset) snake: one cell at the centre, heading right. */
  function Initial(): SnakeState {
    SnakeState(1, [Center], Right, None, None, Center)
  }

  /** The snake's health: what a tick keeps true of it. */
  predicate Inv(s: SnakeState) {
    && s.length >= 1
    && 1 <= |s.positions| <= s.length
    && Distinct(s.positions)
    && OnBoard(s.positions)
    && s.position == s.positions[0]
  }

  /** Consume the queued direction, if there is one. */
  function UpdatedDirection(s: SnakeState): (r: SnakeState)
    ensures r.nextDirection == None
    ensures s.nextDirection == None ==> r == s
    ensures s.nextDirection.Some? ==> r.direction == s.nextDirection.value
    ensures r.(direction := s.direction, nextDirection := s.nextDirection) == s
  {
    match s.nextDirection
    case Some(d) => s.(direction := d, nextDirection := None)
    case None => s
  }

  /**
   * One move: the head steps in the current direction. Stepping onto any body
   * cell behind the head resets the snake; otherwise the new head is prepended
   * and the tail is dropped when the body would exceed the target length.
   */
  function Moved(s: SnakeState): SnakeState
    requires |s.positions| >= 1
  {
    var next := Step(HeadOf(s), s.direction);
    if next in s.positions[1..] then
      Initial()
    else
      var grown := [next] + s.positions;
      if |grown| > s.length then
        s.(positions := grown[..|grown| - 1], last := Some(grown[|grown| - 1]), position := next)
      else
        s.(positions := grown, last := None, position := next)
  }

  /** The initial snake is healthy. */
  lemma InitialIsValid()
    ensures Inv(Initial()) && IsCell(Center)
  {
  }

  /** One cell-sized step along an axis of `n` pixels, wrapped, stays grid-aligned on that axis. */
  lemma WrapAxis(v: int, dv: int, n: int)
    requires n == ScreenWidth || n == ScreenHeight
    requires 0 <= v < n && v % 20 == 0
    requires dv == -20 || dv == 0 || dv == 20
    ensures 0 <= (v + dv) % n < n && ((v + dv) % n) % 20 == 0
    ensures dv != 0 ==> (v + dv) % n != v
  {
    if v + dv < 0 {
      assert (v + dv) % n == v + dv + n;
    } else if v + dv >= n {
      assert (v + dv) % n == v + dv - n;
    } else {
      assert (v + dv) % n == v + dv;
    }
  }

  /** A step from a board cell lands on a different board cell. */
  lemma StepOnBoard(h: Cell, d: Direction)
    requires IsCell(h)
    ensures IsCell(Step(h, d)) && Step(h, d) != h
  {
    var dx, dy := Delta(d).0 * GridSize, Delta(d).1 * GridSize;
    assert (dx == 0) != (dy == 0) && (dx == -20 || dx == 0 || dx == 20) && (dy == -20 || dy == 0 || dy == 20);
    WrapAxis(h.0, dx, ScreenWidth);
    WrapAxis(h.1, dy, ScreenHeight);
  }

  /** Moving right from the last column re-enters the first column of the same row. */
  lemma WrapsAtRightEdge(y: int)
    requires 0 <= y < ScreenHeight
    ensures Step((ScreenWidth - GridSize, y), Right) == (0, y)
  {
  }

  /** The move resets the snake exactly when the new head lands on a non-head body cell. */
  lemma MoveResetsIffCollision(s: SnakeState)
    requires |s.positions| >= 1
    ensures Moved(s) == Initial() <==> Step(s.positions[0], s.direction) in s.positions[1..]
  {
    var next := Step(s.positions[0], s.direction);
    if next !in s.positions[1..] {
      var r := Moved(s);
      if |s.positions| + 1 > s.length {
        assert r.last.Some?;
      } else {
        assert |r.positions| >= 2;
      }
    }
  }

  /**
   * Without a collision the new head goes in front, the old cells keep their
   * order, and the tail is dropped (and remembered) exactly when the body
   * would otherwise exceed the target length.
   */
  lemma MoveAdvances(s: SnakeState)
    requires |s.positions| >= 1
    requires Step(s.positions[0], s.direction) !in s.positions[1..]
    ensures var r := Moved(s);
      var popped := |s.positions| + 1 > s.length;
      && r.positions[0] == Step(s.positions[0], s.direction)
      && |r.positions| == (if popped then |s.positions| else |s.positions| + 1)
      && r.positions[1..] == s.positions[..|r.positions| - 1]
      && r.last == (if popped then Some(s.positions[|s.positions| - 1]) else None)
      && r.length == s.length && r.direction == s.direction && r.nextDirection == s.nextDirection
      && r.position == r.positions[0]
  {
  }

  /** A move keeps the snake healthy; a body of one cell then means a target length of one. */
  lemma MovePreservesInv(s: SnakeState)
    requires Inv(s)
    ensures Inv(Moved(s))
    ensures |Moved(s).positions| >= 2 || Moved(s).length == 1
  {
    var next := Step(s.positions[0], s.direction);
    StepOnBoard(s.positions[0], s.direction);
    InitialIsValid();
    if next !in s.positions[1..] {
      assert next !in s.positions by {
        assert s.positions == [s.positions[0]] + s.positions[1..];
      }
      var grown := [next] + s.positions;
      assert Distinct(grown) by {
        forall i, j | 0 <= i < j < |grown| ensures grown[i] != grown[j] {
          if i == 0 {
            assert grown[j] == s.positions[j - 1];
          } else {
            assert grown[i] == s.positions[i - 1] && grown[j] == s.positions[j - 1];
          }
        }
      }
      assert OnBoard(grown) by {
        forall i | 0 <= i < |grown| ensures IsCell(grown[i]) {
          if i > 0 {
            assert grown[i] == s.positions[i - 1];
          }
        }
      }
    }
  }

  class Snake {
    var length: int
    var positions: seq<Cell>
    var direction: Direction
    var nextDirection: Option<Direction>
    var last: Option<Cell>
    var position: Cell

    /** The value this snake currently holds. */
    function State(): SnakeState
      reads this
    {
      SnakeState(length, positions, direction, nextDirection, last, position)
    }

    constructor ()
      ensures State() == Initial()
    {
      length := 1;
      positions := [Center];
      direction := Right;
      nextDirection := None;
      last := None;
      position := Center;
    }

    method UpdateDirection()
      modifies this
      ensures State() == UpdatedDirection(old(State()))
    {
      if nextDirection.Some? {
        direction := nextDirection.value;
        nextDirection := None;
      }
    }

    method Move()
      requires |positions| >= 1
      modifies this
      ensures State() == Moved(old(State()))
    {
      var next := Step(HeadOf(State()), direction);
      if next in positions[1..] {
        Reset();
      } else {
        positions := [next] + positions;
        if |positions| > length {
          last := Some(positions[|positions| - 1]);
          positions := positions[..|positions| - 1];
        } else {
          last := None;
        }
      }
      position := positions[0];
    }

    /** Back to the initial snake, discarding the whole body. */
    method Reset()
      modifies this
      ensures State() == Initial()
    {
      length := 1;
      positions := [Center];
      direction := Right;
      nextDirection := None;
      last := None;
      position := Center;
    }
  }
}
