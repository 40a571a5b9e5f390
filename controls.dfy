/**
 * Keyboard handling for one frame: the arrow keys queue a turn, Q and W
 * change the tick rate, Escape or closing the window ends the game.
 */
module Controls {
  import opened Optional
  import opened SnakeBody

  /** The tick rate the game starts with. */
  const InitialSpeed: int := 10

  datatype Key = Escape | KeyQ | KeyW | ArrowUp | ArrowDown | ArrowLeft | ArrowRight | OtherKey(code: int)

  datatype Event = QuitEvent | KeyDown(key: Key) | OtherEvent

  /** The direction a key maps to; keys without a mapping give none. */
  function DirectionFor(k: Key): Option<Direction> {
    match k
    case ArrowUp => Some(Up)
    case ArrowDown => Some(Down)
    case ArrowLeft => Some(Left)
    case ArrowRight => Some(Right)
    case _ => None
  }

  /** The event ends the game. */
  predicate IsExit(e: Event) {
    e.QuitEvent? || e == KeyDown(Escape)
  }

  /** None of the events ends the game. */
  predicate NoExit(events: seq<Event>) {
    forall e :: e in events ==> !IsExit(e)
  }

  /** The event overwrites the queued direction. */
  predicate IsTurn(e: Event) {
    e.KeyDown? && e.key !in {Escape, KeyQ, KeyW}
  }

  /** The outcome of a batch of events: the new tick rate, the queued direction, and whether to stop. */
  datatype Input = Input(speed: int, pending: Option<Direction>, quit: bool)

  function Max(a: int, b: int): int {
    if a >= b then a else b
  }

  /** The events of a frame, handled in order until one of them ends the game. */
  function Handle(speed: int, pending: Option<Direction>, events: seq<Event>): Input
    decreases |events|
  {
    if events == [] then Input(speed, pending, false)
    else
      var e, rest := events[0], events[1..];
      if IsExit(e) then Input(speed, pending, true)
      else if e == KeyDown(KeyQ) then Handle(speed + 2, pending, rest)
      else if e == KeyDown(KeyW) then Handle(Max(1, speed - 2), pending, rest)
      else if e.KeyDown? then Handle(speed, DirectionFor(e.key), rest)
      else Handle(speed, pending, rest)
  }

  /** Handle this frame's events: returns the new tick rate and queues the turn on the snake. */
  method HandleKeys(snake: Snake, currentSpeed: int, events: seq<Event>) returns (speed: int, quit: bool)
    modifies snake`nextDirection
    ensures Handle(currentSpeed, old(snake.nextDirection), events) == Input(speed, snake.nextDirection, quit)
  {
    speed := currentSpeed;
    var i := 0;
    while i < |events|
      invariant 0 <= i <= |events|
      invariant Handle(currentSpeed, old(snake.nextDirection), events) == Handle(speed, snake.nextDirection, events[i..])
    {
      var e := events[i];
      assert events[i..][1..] == events[i + 1..];
      if e.QuitEvent? {
        return speed, true;
      } else if e.KeyDown? {
        if e.key == Escape {
          return speed, true;
        } else if e.key == KeyQ {
          speed := speed + 2;
        } else if e.key == KeyW {
          speed := Max(1, speed - 2);
        } else {
          snake.nextDirection := DirectionFor(e.key);
        }
      }
      i := i + 1;
    }
    quit := false;
  }

  /** The frame ends the game exactly when one of its events is an exit. */
  lemma {:induction false} QuitIffExit(speed: int, pending: Option<Direction>, events: seq<Event>)
    ensures Handle(speed, pending, events).quit <==> !NoExit(events)
    decreases |events|
  {
    if events != [] {
      var e, rest := events[0], events[1..];
      assert events == [e] + rest;
      if IsExit(e) {
        assert e in events;
      } else {
        if e == KeyDown(KeyQ) {
          QuitIffExit(speed + 2, pending, rest);
        } else if e == KeyDown(KeyW) {
          QuitIffExit(Max(1, speed - 2), pending, rest);
        } else if e.KeyDown? {
          QuitIffExit(speed, DirectionFor(e.key), rest);
        } else {
          QuitIffExit(speed, pending, rest);
        }
      }
    }
  }

  /** A tick rate of at least one never drops below one. */
  lemma {:induction false} SpeedStaysPositive(speed: int, pending: Option<Direction>, events: seq<Event>)
    requires speed >= 1
    ensures Handle(speed, pending, events).speed >= 1
    decreases |events|
  {
    if events != [] && !IsExit(events[0]) {
      var e, rest := events[0], events[1..];
      if e == KeyDown(KeyQ) {
        SpeedStaysPositive(speed + 2, pending, rest);
      } else if e == KeyDown(KeyW) {
        SpeedStaysPositive(Max(1, speed - 2), pending, rest);
      } else if e.KeyDown? {
        SpeedStaysPositive(speed, DirectionFor(e.key), rest);
      } else {
        SpeedStaysPositive(speed, pending, rest);
      }
    }
  }

  /** Each Q press adds two and each W press takes two away, never below one. */
  lemma {:induction false} SpeedBounds(speed: int, pending: Option<Direction>, events: seq<Event>)
    requires speed >= 1
    ensures Handle(speed, pending, events).speed <= speed + 2 * |events|
    decreases |events|
  {
    if events != [] && !IsExit(events[0]) {
      var e, rest := events[0], events[1..];
      if e == KeyDown(KeyQ) {
        SpeedBounds(speed + 2, pending, rest);
      } else if e == KeyDown(KeyW) {
        SpeedBounds(Max(1, speed - 2), pending, rest);
      } else if e.KeyDown? {
        SpeedBounds(speed, DirectionFor(e.key), rest);
      } else {
        SpeedBounds(speed, pending, rest);
      }
    }
  }

  /** From the starting rate of 10, six presses of W bottom out at 1. */
  lemma SlowDownBottomsOut(pending: Option<Direction>)
    ensures var w := KeyDown(KeyW);
      Handle(InitialSpeed, pending, [w, w, w, w, w, w]).speed == 1
  {
    var w := KeyDown(KeyW);
    assert Handle(InitialSpeed, pending, [w, w, w, w, w, w]) == Handle(8, pending, [w, w, w, w, w]);
    assert Handle(8, pending, [w, w, w, w, w]) == Handle(6, pending, [w, w, w, w]);
    assert Handle(6, pending, [w, w, w, w]) == Handle(4, pending, [w, w, w]);
    assert Handle(4, pending, [w, w, w]) == Handle(2, pending, [w, w]);
    assert Handle(2, pending, [w, w]) == Handle(1, pending, [w]);
    assert Handle(1, pending, [w]) == Handle(1, pending, []);
  }

  /** Without exit or turn events the queued direction stays as it was. */
  lemma {:induction false} NoTurnKeepsPending(speed: int, pending: Option<Direction>, events: seq<Event>)
    requires forall i :: 0 <= i < |events| ==> !IsExit(events[i]) && !IsTurn(events[i])
    ensures Handle(speed, pending, events) == Input(Handle(speed, pending, events).speed, pending, false)
    decreases |events|
  {
    if events != [] {
      var e, rest := events[0], events[1..];
      if e == KeyDown(KeyQ) {
        NoTurnKeepsPending(speed + 2, pending, rest);
      } else if e == KeyDown(KeyW) {
        NoTurnKeepsPending(Max(1, speed - 2), pending, rest);
      } else {
        NoTurnKeepsPending(speed, pending, rest);
      }
    }
  }

  /**
   * The last turn event of the frame decides the queued direction: an arrow key
   * queues its direction, any other key clears the queue.
   */
  lemma {:induction false} LastTurnWins(speed: int, pending: Option<Direction>, events: seq<Event>, j: int)
    requires forall i :: 0 <= i < |events| ==> !IsExit(events[i])
    requires 0 <= j < |events| && IsTurn(events[j])
    requires forall i :: j < i < |events| ==> !IsTurn(events[i])
    ensures !Handle(speed, pending, events).quit
    ensures Handle(speed, pending, events).pending == DirectionFor(events[j].key)
    decreases |events|
  {
    var e, rest := events[0], events[1..];
    if j == 0 {
      NoTurnKeepsPending(speed, DirectionFor(e.key), rest);
    } else if e == KeyDown(KeyQ) {
      LastTurnWins(speed + 2, pending, rest, j - 1);
    } else if e == KeyDown(KeyW) {
      LastTurnWins(Max(1, speed - 2), pending, rest, j - 1);
    } else if e.KeyDown? {
      LastTurnWins(speed, DirectionFor(e.key), rest, j - 1);
    } else {
      LastTurnWins(speed, pending, rest, j - 1);
    }
  }
}
