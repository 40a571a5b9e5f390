/**
 * One tick of the game: the snake turns and moves, then three independent
 * checks run in a fixed order against the new head: the apple grows the snake,
 * the bad food shrinks or resets it, the obstacle resets it. Each item that is
 * hit is moved to a free cell. A bad-food or obstacle reset first records the
 * snake's length in the high-score store when it beats the stored value; the
 * reset on running into the body does not.
 *
 * The rules are stated on values (`Stage`); the class `Game` runs them on the
 * snake and item objects in place.
 */
module GameLoop {
  import opened Optional
  import opened GridSpace
  import opened SnakeBody
  import opened Entities
  import opened HighScore
  import opened Controls

  /** Why the game stops with an exception. */
  datatype Fault =
    | NoFreeCell   // an item is to be placed but the snake covers the whole board
    | EmptyBody    // the head of a snake with no cells is read

  datatype Status = Running | Exited | Crashed(fault: Fault)

  /** The snake together with the stored high score, between two steps of a tick. */
  datatype Stage = Stage(snake: SnakeState, highScore: int)

  /** The turn and the move that open every tick. */
  function Moving(s: SnakeState, highScore: int): Stage
    requires |s.positions| >= 1
  {
    Stage(Moved(UpdatedDirection(s)), highScore)
  }

  /**
   * The turn and the move, with the length recorded in the high-score store
   * before a self-collision reset, as the bad-food and obstacle resets do.
   */
  function MovingFixed(s: SnakeState, highScore: int): Stage
    requires |s.positions| >= 1
  {
    var t := UpdatedDirection(s);
    if Step(HeadOf(t), t.direction) in t.positions[1..] then Stage(Initial(), Recorded(highScore, s.length))
    else Moving(s, highScore)
  }

  /** The apple check: a hit raises the target length by one; the body grows on later moves. */
  function AppleRule(st: Stage, apple: Cell): Stage
    requires |st.snake.positions| >= 1
  {
    if HeadOf(st.snake) == apple then st.(snake := st.snake.(length := st.snake.length + 1))
    else st
  }

  /**
   * The bad-food check as the game has it: a hit on a longer snake lowers the
   * target length and drops the tail cell; a hit on a snake of length one
   * records the high score and resets the snake.
   */
  function BadFoodRule(st: Stage, badFood: Cell): Stage
    requires |st.snake.positions| >= 1
  {
    var s := st.snake;
    if HeadOf(s) != badFood then st
    else if s.length > 1 then
      st.(snake := s.(length := s.length - 1, positions := s.positions[..|s.positions| - 1]))
    else
      Stage(Initial(), Recorded(st.highScore, s.length))
  }

  /**
   * The bad-food check as evidently intended: the tail cell is dropped only when
   * the body is longer than the lowered target length, so a body that has not
   * yet grown into its length keeps its cells.
   */
  function BadFoodRuleFixed(st: Stage, badFood: Cell): Stage
    requires |st.snake.positions| >= 1
  {
    var s := st.snake;
    if HeadOf(s) != badFood then st
    else if s.length > 1 then
      var body := if |s.positions| > s.length - 1 then s.positions[..|s.positions| - 1] else s.positions;
      st.(snake := s.(length := s.length - 1, positions := body))
    else
      Stage(Initial(), Recorded(st.highScore, s.length))
  }

  /** The obstacle check: a hit records the high score and resets the snake. */
  function ObstacleRule(st: Stage, obstacle: Cell): Stage
    requires |st.snake.positions| >= 1
  {
    if HeadOf(st.snake) == obstacle then Stage(Initial(), Recorded(st.highScore, st.snake.length))
    else st
  }

  /** The apple and bad-food checks in order. */
  function AfterFood(m: Stage, apple: Cell, badFood: Cell): Stage
    requires |m.snake.positions| >= 1
  {
    BadFoodRule(AppleRule(m, apple), badFood)
  }

  /**
   * How a tick that started from stage `m` (right after the move) ends: an item
   * that is hit needs a free cell, and the obstacle check reads the head of the
   * body the bad-food check left.
   */
  function TickOutcome(m: Stage, apple: Cell, badFood: Cell, obstacle: Cell): Status
    requires |m.snake.positions| >= 1
  {
    var a := AppleRule(m, apple);
    if HeadOf(m.snake) == apple && AvailablePositions(a.snake.positions) == {} then Crashed(NoFreeCell)
    else
      var b := BadFoodRule(a, badFood);
      if HeadOf(a.snake) == badFood && AvailablePositions(b.snake.positions) == {} then Crashed(NoFreeCell)
      else if |b.snake.positions| == 0 then Crashed(EmptyBody)
      else
        var c := ObstacleRule(b, obstacle);
        if HeadOf(b.snake) == obstacle && AvailablePositions(c.snake.positions) == {} then Crashed(NoFreeCell)
        else Running
  }

  /** An item is moved to a free cell of `body` when it was hit, and stays put otherwise. */
  ghost predicate Relocated(before: Cell, after: Cell, hit: bool, body: seq<Cell>) {
    if hit then after in AvailablePositions(body) else after == before
  }

  /** What a frame reads and writes: the snake, the score, the tick rate and the three item cells. */
  datatype World = World(snake: SnakeState, highScore: int, speed: int, apple: Cell, badFood: Cell, obstacle: Cell)

  /**
   * One frame from `w` to `w'`. The events are handled first. An exit event
   * stops the game with only the queued direction changed; otherwise the tick
   * runs with the rate and queued direction the events left, ends as
   * `TickOutcome` says, and when it keeps running leaves the stage and the item
   * placements the rules give.
   */
  ghost predicate FrameStep(w: World, events: seq<Event>, status: Status, w': World) {
    var input := Handle(w.speed, w.snake.nextDirection, events);
    var s := w.snake.(nextDirection := input.pending);
    && |s.positions| >= 1
    && (status == Exited <==> input.quit)
    && (input.quit ==> w' == w.(snake := s))
    && (!input.quit ==>
          var m := Moving(s, w.highScore);
          var a := AppleRule(m, w.apple);
          var b := AfterFood(m, w.apple, w.badFood);
          && w'.speed == input.speed
          && status == TickOutcome(m, w.apple, w.badFood, w.obstacle)
          && (status == Running ==>
                var c := ObstacleRule(b, w.obstacle);
                && Stage(w'.snake, w'.highScore) == c
                && Relocated(w.apple, w'.apple, HeadOf(m.snake) == w.apple, a.snake.positions)
                && Relocated(w.badFood, w'.badFood, HeadOf(a.snake) == w.badFood, b.snake.positions)
                && Relocated(w.obstacle, w'.obstacle, HeadOf(b.snake) == w.obstacle, c.snake.positions)))
  }

  /**
   * `trace` records `n` frames of `frames`: each entry steps to the next by
   * `FrameStep`, every frame but the last one keeps the game running, and the
   * last one ends with `last`.
   */
  ghost predicate Traced(trace: seq<World>, frames: seq<seq<Event>>, n: nat, last: Status) {
    && n <= |frames| && |trace| == n + 1
    && forall k :: 0 <= k < n ==> FrameStep(trace[k], frames[k], if k == n - 1 then last else Running, trace[k + 1])
  }

  /** A frame that follows a running trace extends it by one entry. */
  lemma TracedExtends(trace: seq<World>, frames: seq<seq<Event>>, n: nat, status: Status, w': World)
    requires Traced(trace, frames, n, Running) && n < |frames|
    requires FrameStep(trace[n], frames[n], status, w')
    ensures Traced(trace + [w'], frames, n + 1, status)
  {
    var t := trace + [w'];
    forall k | 0 <= k < n + 1
      ensures FrameStep(t[k], frames[k], if k == n then status else Running, t[k + 1])
    {
      assert t[k] == trace[k];
      if k < n {
        assert t[k + 1] == trace[k + 1];
      }
    }
  }

  /** The apple check changes nothing but the target length, which a hit raises by one. */
  lemma AppleGrowsSnake(st: Stage, apple: Cell)
    requires |st.snake.positions| >= 1
    ensures var r := AppleRule(st, apple);
      && r.snake.length == st.snake.length + (if HeadOf(st.snake) == apple then 1 else 0)
      && r.snake.(length := st.snake.length) == st.snake
      && r.highScore == st.highScore
  {
  }

  /**
   * A bad-food hit on a snake longer than one lowers its length by one and
   * removes exactly the last body cell; on a snake of length one it records the
   * high score and resets the snake. A miss changes nothing.
   */
  lemma BadFoodShrinksOrResets(st: Stage, badFood: Cell)
    requires |st.snake.positions| >= 1
    ensures var s, r := st.snake, BadFoodRule(st, badFood);
      && (HeadOf(s) != badFood ==> r == st)
      && (HeadOf(s) == badFood && s.length > 1 ==>
            && r.snake.length == s.length - 1
            && |r.snake.positions| == |s.positions| - 1
            && r.snake.positions + [s.positions[|s.positions| - 1]] == s.positions
            && r.snake.(length := s.length, positions := s.positions) == s
            && r.highScore == st.highScore)
      && (HeadOf(s) == badFood && s.length <= 1 ==>
            r.snake == Initial() && r.highScore == Recorded(st.highScore, s.length))
  {
  }

  /** An obstacle hit records the high score and resets the snake; a miss changes nothing. */
  lemma ObstacleResets(st: Stage, obstacle: Cell)
    requires |st.snake.positions| >= 1
    ensures var r := ObstacleRule(st, obstacle);
      && (HeadOf(st.snake) != obstacle ==> r == st)
      && (HeadOf(st.snake) == obstacle ==>
            r.snake == Initial() && r.highScore == Recorded(st.highScore, st.snake.length))
  {
  }

  lemma UpdatedDirectionKeepsInv(s: SnakeState)
    requires Inv(s)
    ensures Inv(UpdatedDirection(s))
  {
  }

  /**
   * Starting from a healthy snake, the food checks leave an empty body exactly
   * when the head enters a cell holding both the apple and the bad food while
   * the snake has length one.
   */
  lemma FoodEmptiesBodyIff(s: SnakeState, highScore: int, apple: Cell, badFood: Cell)
    requires Inv(s)
    ensures var m := Moving(s, highScore);
      |AfterFood(m, apple, badFood).snake.positions| == 0 <==>
        HeadOf(m.snake) == apple && apple == badFood && m.snake.length == 1
  {
    MovePreservesInv(UpdatedDirection(s));
  }

  /**
   * The first tick of a new game can already read the head of an empty body:
   * the apple and the bad food may both be placed on the cell right of the
   * centre, which the snake enters on its first move.
   */
  lemma EmptyBodyReachable(highScore: int, obstacle: Cell)
    ensures var c := (Center.0 + GridSize, Center.1);
      && c in AvailablePositions(Initial().positions)
      && |AfterFood(Moving(Initial(), highScore), c, c).snake.positions| == 0
      && TickOutcome(Moving(Initial(), highScore), c, c, obstacle) == Crashed(EmptyBody)
  {
    var c := (Center.0 + GridSize, Center.1);
    var m := Moving(Initial(), highScore);
    assert m.snake.positions == [c];
    assert AppleRule(m, c).snake.length == 2;
    assert (0, 0) in AvailablePositions([]);
  }

  /** Dropping the tail of a body of two or more cells keeps it a healthy body. */
  lemma DropTailKeepsBody(ps: seq<Cell>)
    requires |ps| >= 2 && Distinct(ps) && OnBoard(ps)
    ensures Distinct(ps[..|ps| - 1]) && OnBoard(ps[..|ps| - 1])
  {
  }

  /**
   * A tick keeps the target length at least one, and, unless the food checks
   * emptied the body, keeps the whole snake healthy: at most `length` distinct
   * board cells, head first.
   */
  lemma TickPreservesInv(s: SnakeState, highScore: int, apple: Cell, badFood: Cell, obstacle: Cell)
    requires Inv(s)
    ensures var b := AfterFood(Moving(s, highScore), apple, badFood);
      && b.snake.length >= 1
      && (|b.snake.positions| >= 1 ==> Inv(b.snake) && Inv(ObstacleRule(b, obstacle).snake))
  {
    UpdatedDirectionKeepsInv(s);
    MovePreservesInv(UpdatedDirection(s));
    InitialIsValid();
    var a := AppleRule(Moving(s, highScore), apple);
    if |a.snake.positions| >= 2 {
      DropTailKeepsBody(a.snake.positions);
    }
  }

  /** With the corrected bad-food check a tick never empties the body and always keeps the snake healthy. */
  lemma FixedTickPreservesInv(s: SnakeState, highScore: int, apple: Cell, badFood: Cell, obstacle: Cell)
    requires Inv(s)
    ensures var b := BadFoodRuleFixed(AppleRule(Moving(s, highScore), apple), badFood);
      && Inv(b.snake)
      && Inv(ObstacleRule(b, obstacle).snake)
  {
    UpdatedDirectionKeepsInv(s);
    MovePreservesInv(UpdatedDirection(s));
    InitialIsValid();
    var a := AppleRule(Moving(s, highScore), apple);
    if |a.snake.positions| >= 2 {
      DropTailKeepsBody(a.snake.positions);
    }
  }

  /**
   * The high score never drops; a snake that resets this tick has its length
   * recorded; and the new score is the old one or one of those lengths.
   */
  lemma HighScoreRecordsResets(s: SnakeState, highScore: int, apple: Cell, badFood: Cell, obstacle: Cell)
    requires Inv(s)
    requires |AfterFood(Moving(s, highScore), apple, badFood).snake.positions| >= 1
    ensures var a := AppleRule(Moving(s, highScore), apple);
      var b := BadFoodRule(a, badFood);
      var c := ObstacleRule(b, obstacle);
      var badReset := HeadOf(a.snake) == badFood && a.snake.length <= 1;
      var obstacleReset := HeadOf(b.snake) == obstacle;
      && c.highScore >= highScore
      && (badReset ==> c.highScore >= a.snake.length)
      && (obstacleReset ==> c.highScore >= b.snake.length)
      && (|| c.highScore == highScore
          || (badReset && c.highScore == a.snake.length)
          || (obstacleReset && c.highScore == b.snake.length))
  {
  }

  /**
   * A snake of length five that turns down into its own body resets on the
   * move, yet the tick ends with the high score still at 0: the self-collision
   * reset records nothing.
   */
  lemma SelfCollisionUnrecorded()
    ensures var s := SnakeState(5, [(40, 0), (20, 0), (20, 20), (40, 20), (60, 20)], Down, None, None, (40, 0));
      var m := Moving(s, 0);
      var c := ObstacleRule(AfterFood(m, (0, 0), (0, 0)), (0, 0));
      && Inv(s)
      && m.snake == Initial()
      && TickOutcome(m, (0, 0), (0, 0), (0, 0)) == Running
      && c.snake == Initial() && c.highScore == 0 < s.length
  {
    var s := SnakeState(5, [(40, 0), (20, 0), (20, 20), (40, 20), (60, 20)], Down, None, None, (40, 0));
    assert Step((40, 0), Down) == s.positions[1..][2];
  }

  /**
   * With the corrected move every reset of the tick is recorded: the score
   * never drops, it is at least the length of a snake that runs into itself,
   * that eats bad food at length one or that hits the obstacle, and it is the
   * old score or one of those lengths. The snake itself moves as before.
   */
  lemma FixedMovingRecordsEveryReset(s: SnakeState, highScore: int, apple: Cell, badFood: Cell, obstacle: Cell)
    requires Inv(s)
    requires |AfterFood(MovingFixed(s, highScore), apple, badFood).snake.positions| >= 1
    ensures var t := UpdatedDirection(s);
      var m := MovingFixed(s, highScore);
      var a := AppleRule(m, apple);
      var b := BadFoodRule(a, badFood);
      var c := ObstacleRule(b, obstacle);
      var collision := Step(HeadOf(t), t.direction) in t.positions[1..];
      var badReset := HeadOf(a.snake) == badFood && a.snake.length <= 1;
      var obstacleReset := HeadOf(b.snake) == obstacle;
      && m.snake == Moving(s, highScore).snake
      && c.highScore >= highScore
      && (collision ==> c.highScore >= s.length)
      && (badReset ==> c.highScore >= a.snake.length)
      && (obstacleReset ==> c.highScore >= b.snake.length)
      && (|| c.highScore == highScore
          || (collision && c.highScore == s.length)
          || (badReset && c.highScore == a.snake.length)
          || (obstacleReset && c.highScore == b.snake.length))
  {
  }

  /**
   * From a healthy snake, placing an item fails only when the apple is eaten by
   * a snake that covers the whole board.
   */
  lemma NoFreeCellIff(s: SnakeState, highScore: int, apple: Cell, badFood: Cell, obstacle: Cell)
    requires Inv(s)
    ensures var m := Moving(s, highScore);
      TickOutcome(m, apple, badFood, obstacle) == Crashed(NoFreeCell) <==>
        HeadOf(m.snake) == apple && |m.snake.positions| == GridWidth * GridHeight
  {
    UpdatedDirectionKeepsInv(s);
    MovePreservesInv(UpdatedDirection(s));
    var m := Moving(s, highScore);
    BoardFullIff(m.snake.positions);
    FreeCellExists(Initial().positions);
    var a := AppleRule(m, apple);
    if HeadOf(a.snake) == badFood && a.snake.length > 1 {
      FreeCellExists(a.snake.positions[..|a.snake.positions| - 1]);
    }
  }

  /**
   * A tick that keeps running leaves a healthy snake, every item on a board
   * cell, and a high score that has not dropped.
   */
  lemma RunningTickKeepsGame(s: SnakeState, highScore: int, apple: Cell, badFood: Cell, obstacle: Cell,
                             apple': Cell, badFood': Cell, obstacle': Cell)
    requires Inv(s) && IsCell(apple) && IsCell(badFood) && IsCell(obstacle)
    requires var m := Moving(s, highScore);
      var a := AppleRule(m, apple);
      var b := AfterFood(m, apple, badFood);
      && |b.snake.positions| >= 1
      && Relocated(apple, apple', HeadOf(m.snake) == apple, a.snake.positions)
      && Relocated(badFood, badFood', HeadOf(a.snake) == badFood, b.snake.positions)
      && Relocated(obstacle, obstacle', HeadOf(b.snake) == obstacle, ObstacleRule(b, obstacle).snake.positions)
    ensures var c := ObstacleRule(AfterFood(Moving(s, highScore), apple, badFood), obstacle);
      && Inv(c.snake) && c.highScore >= highScore
      && IsCell(apple') && IsCell(badFood') && IsCell(obstacle')
  {
    TickPreservesInv(s, highScore, apple, badFood, obstacle);
    HighScoreRecordsResets(s, highScore, apple, badFood, obstacle);
  }

  /** The running game: the snake, the three items, the tick rate and the high-score store. */
  class Game {
    var snake: Snake
    var apple: Item
    var badFood: Item
    var obstacle: Item
    var speed: int
    var highScore: int

    /** One item of each kind, three distinct objects. */
    ghost predicate Linked()
      reads this
    {
      && apple.kind == Apple && badFood.kind == BadFood && obstacle.kind == Obstacle
      && apple != badFood && apple != obstacle && badFood != obstacle
    }

    /** A game between two frames: a healthy snake and every item on a board cell. */
    ghost predicate Valid()
      reads this, snake, apple, badFood, obstacle
    {
      && Linked()
      && Inv(snake.State())
      && IsCell(apple.position) && IsCell(badFood.position) && IsCell(obstacle.position)
    }

    /** The values the game holds now. */
    ghost function Snapshot(): World
      reads this, snake, apple, badFood, obstacle
    {
      World(snake.State(), highScore, speed, apple.position, badFood.position, obstacle.position)
    }

    /** Game start: a new snake, the items on free cells, the initial rate, the store consulted once. */
    constructor (storedHighScore: int)
      ensures Valid() && fresh(snake) && fresh(apple) && fresh(badFood) && fresh(obstacle)
      ensures snake.State() == Initial() && speed == InitialSpeed
      ensures IsCell(apple.position) && apple.position != Center
      ensures IsCell(badFood.position) && badFood.position != Center
      ensures IsCell(obstacle.position) && obstacle.position != Center
      ensures highScore == Recorded(storedHighScore, 1)
    {
      var s := new Snake();
      FreeCellExists([Center]);
      apple := new Item(Apple, s.positions);
      badFood := new Item(BadFood, s.positions);
      obstacle := new Item(Obstacle, s.positions);
      snake := s;
      speed := InitialSpeed;
      highScore := storedHighScore;
      new;
      InitialIsValid();
      ChangeTitle(snake.length);
    }

    /** Store the length when it beats the stored high score. */
    method ChangeTitle(length: int)
      modifies this`highScore
      ensures highScore == Recorded(old(highScore), length)
    {
      if length > highScore {
        highScore := length;
      }
    }

    /** The apple check: a hit raises the target length and moves the apple to a free cell. */
    method CheckApple() returns (ok: bool)
      requires Linked() && |snake.positions| >= 1
      modifies snake`length, apple
      ensures var st := Stage(old(snake.State()), highScore);
        var hit := HeadOf(st.snake) == old(apple.position);
        && Stage(snake.State(), highScore) == AppleRule(st, old(apple.position))
        && (ok <==> !(hit && AvailablePositions(snake.positions) == {}))
        && (ok ==> Relocated(old(apple.position), apple.position, hit, snake.positions))
    {
      ok := true;
      if HeadOf(snake.State()) == apple.position {
        snake.length := snake.length + 1;
        ok := apple.RandomizePosition(snake.positions);
      }
    }

    /**
     * The bad-food check: a hit shrinks a longer snake by its tail cell, or
     * records the high score and resets a snake of length one; the bad food then
     * moves to a free cell.
     */
    method CheckBadFood() returns (ok: bool)
      requires Linked() && |snake.positions| >= 1
      modifies snake, badFood, this`highScore
      ensures var st := Stage(old(snake.State()), old(highScore));
        var hit := HeadOf(st.snake) == old(badFood.position);
        && Stage(snake.State(), highScore) == BadFoodRule(st, old(badFood.position))
        && (ok <==> !(hit && AvailablePositions(snake.positions) == {}))
        && (ok ==> Relocated(old(badFood.position), badFood.position, hit, snake.positions))
    {
      ok := true;
      if HeadOf(snake.State()) == badFood.position {
        if snake.length > 1 {
          snake.length := snake.length - 1;
          snake.positions := snake.positions[..|snake.positions| - 1];
        } else {
          ChangeTitle(snake.length);
          snake.Reset();
        }
        ok := badFood.RandomizePosition(snake.positions);
      }
    }

    /** The obstacle check: a hit records the high score, resets the snake and moves the obstacle. */
    method CheckObstacle() returns (ok: bool)
      requires Linked() && |snake.positions| >= 1
      modifies snake, obstacle, this`highScore
      ensures var st := Stage(old(snake.State()), old(highScore));
        var hit := HeadOf(st.snake) == old(obstacle.position);
        && Stage(snake.State(), highScore) == ObstacleRule(st, old(obstacle.position))
        && (ok <==> !(hit && AvailablePositions(snake.positions) == {}))
        && (ok ==> Relocated(old(obstacle.position), obstacle.position, hit, snake.positions))
    {
      ok := true;
      if HeadOf(snake.State()) == obstacle.position {
        ChangeTitle(snake.length);
        snake.Reset();
        ok := obstacle.RandomizePosition(snake.positions);
      }
    }

    /**
     * The three item checks of a tick, run on the snake as the move left it:
     * apple, bad food, then the obstacle against whatever body the bad-food
     * check left.
     */
    method CheckItems() returns (status: Status)
      requires Linked() && |snake.positions| >= 1
      modifies snake, apple, badFood, obstacle, this`highScore
      ensures var m := Stage(old(snake.State()), old(highScore));
        var a := AppleRule(m, old(apple.position));
        var b := AfterFood(m, old(apple.position), old(badFood.position));
        && status == TickOutcome(m, old(apple.position), old(badFood.position), old(obstacle.position))
        && (status == Running ==>
              var c := ObstacleRule(b, old(obstacle.position));
              && Stage(snake.State(), highScore) == c
              && Relocated(old(apple.position), apple.position, HeadOf(m.snake) == old(apple.position), a.snake.positions)
              && Relocated(old(badFood.position), badFood.position, HeadOf(a.snake) == old(badFood.position), b.snake.positions)
              && Relocated(old(obstacle.position), obstacle.position, HeadOf(b.snake) == old(obstacle.position), c.snake.positions))
    {
      var ok := CheckApple();
      if !ok {
        return Crashed(NoFreeCell);
      }
      ok := CheckBadFood();
      if !ok {
        return Crashed(NoFreeCell);
      }
      if |snake.positions| == 0 {
        return Crashed(EmptyBody);
      }
      ok := CheckObstacle();
      if !ok {
        return Crashed(NoFreeCell);
      }
      status := Running;
    }

    /** One tick: turn, move, then the apple, bad-food and obstacle checks in this order. */
    method Tick() returns (status: Status)
      requires Valid()
      modifies this, snake, apple, badFood, obstacle
      ensures Linked() && speed == old(speed)
      ensures snake == old(snake) && apple == old(apple) && badFood == old(badFood) && obstacle == old(obstacle)
      ensures var m := Moving(old(snake.State()), old(highScore));
        var a := AppleRule(m, old(apple.position));
        var b := AfterFood(m, old(apple.position), old(badFood.position));
        && status == TickOutcome(m, old(apple.position), old(badFood.position), old(obstacle.position))
        && (status == Running ==>
              var c := ObstacleRule(b, old(obstacle.position));
              && Stage(snake.State(), highScore) == c
              && Relocated(old(apple.position), apple.position, HeadOf(m.snake) == old(apple.position), a.snake.positions)
              && Relocated(old(badFood.position), badFood.position, HeadOf(a.snake) == old(badFood.position), b.snake.positions)
              && Relocated(old(obstacle.position), obstacle.position, HeadOf(b.snake) == old(obstacle.position), c.snake.positions))
      ensures status == Running ==> Valid() && highScore >= old(highScore)
    {
      ghost var s0, h0 := snake.State(), highScore;
      ghost var a0, b0, o0 := apple.position, badFood.position, obstacle.position;
      snake.UpdateDirection();
      snake.Move();
      status := CheckItems();
      if status == Running {
        RunningTickKeepsGame(s0, h0, a0, b0, o0, apple.position, badFood.position, obstacle.position);
      }
    }

    /**
     * One frame of the main loop: this frame's key events, then a tick unless
     * one of the events ended the game.
     */
    method Frame(events: seq<Event>) returns (status: Status)
      requires Valid()
      modifies this, snake, apple, badFood, obstacle
      ensures Linked()
      ensures snake == old(snake) && apple == old(apple) && badFood == old(badFood) && obstacle == old(obstacle)
      ensures FrameStep(old(Snapshot()), events, status, Snapshot())
      ensures status == Running ==> Valid() && highScore >= old(highScore)
      ensures status == Exited <==> !NoExit(events)
      ensures status == Exited ==> Valid() && highScore == old(highScore)
    {
      QuitIffExit(speed, snake.nextDirection, events);
      var newSpeed, quit := HandleKeys(snake, speed, events);
      if quit {
        return Exited;
      }
      speed := newSpeed;
      status := Tick();
    }

    /**
     * The main loop over a run of frames: frame after frame until one of them
     * ends the game. `played` counts the frames that ran, the last one
     * included; `trace` holds the game before each of them and after the last.
     */
    method Run(frames: seq<seq<Event>>) returns (status: Status, played: nat, ghost trace: seq<World>)
      requires Valid()
      modifies this, snake, apple, badFood, obstacle
      ensures played <= |frames| && |trace| == played + 1
      ensures trace[0] == old(Snapshot()) && trace[played] == Snapshot()
      ensures forall k :: 0 <= k < played ==>
        FrameStep(trace[k], frames[k], if k == played - 1 then status else Running, trace[k + 1])
      ensures status == Running ==> played == |frames|
      ensures status != Running ==> played >= 1
      ensures status == Exited ==> !NoExit(frames[played - 1])
      ensures forall k :: 0 <= k < played && (status != Exited || k < played - 1) ==> NoExit(frames[k])
      ensures !status.Crashed? ==> Valid() && highScore >= old(highScore)
    {
      status, played := Running, 0;
      trace := [Snapshot()];
      while played < |frames| && status == Running
        invariant Traced(trace, frames, played, status)
        invariant trace[0] == old(Snapshot()) && trace[played] == Snapshot()
        invariant status != Running ==> played >= 1
        invariant status == Exited ==> !NoExit(frames[played - 1])
        invariant forall k :: 0 <= k < played && (status != Exited || k < played - 1) ==> NoExit(frames[k])
        invariant !status.Crashed? ==> Valid() && highScore >= old(highScore)
        invariant snake == old(snake) && apple == old(apple) && badFood == old(badFood) && obstacle == old(obstacle)
      {
        status := Frame(frames[played]);
        TracedExtends(trace, frames, played, status, Snapshot());
        trace := trace + [Snapshot()];
        played := played + 1;
      }
    }
  }
}
