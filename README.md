# Snake: a verified model of the grid simulation

This project models the game logic of a single-screen Snake game written in
Python on top of pygame (`the_snake.py`). The game runs on a 640×480 board cut into
20-pixel cells. A snake moves one cell per tick, with wrap-around at every edge.
It eats apples, which make it grow. It eats bad food, which makes it shrink, or
resets it when it has length one. Hitting the obstacle or its own body resets it.
The player steers with the arrow keys, and Q and W raise and lower the tick rate.
A high-score store keeps the longest length seen at a bad-food or obstacle reset.

Modules:

- `GridSpace` (grid_space.dfy): the board constants, the set of all cells, and the free cells left by the snake. It proves the board has exactly 32 × 24 = 768 cells, and it proves when a free cell exists.
- `SnakeBody` (snake_body.dfy):
  - the `SnakeState` value and the pure rules `UpdatedDirection`, `Step` and `Moved`;
  - the snake's invariant `Inv`: length ≥ 1, 1 ≤ |body| ≤ length, distinct cells on the board, and the head is the drawable position;
  - the class `Snake`, whose methods update its fields in place and are proved equal to the pure rules.
- `Entities` (entities.dfy): the class `Item`, one class for the apple, the bad food and the obstacle, which behave identically. `RandomizePosition` is a nondeterministic choice from the free cells. It reports failure when there is no free cell.
- `Controls` (controls.dfy): one frame of key handling (`HandleKeys`, a loop proved against the function `Handle`), and the lemmas about the tick rate and the queued direction.
- `HighScore` (high_score.dfy): `Recorded`, the decision that keeps the larger of the stored score and the current length.
- `GameLoop` (game_loop.dfy):
  - the per-tick rules on values (`AppleRule`, `BadFoodRule`, `ObstacleRule`, `TickOutcome`) and the lemmas about a whole tick;
  - the class `Game`, whose `Tick` and `Frame` methods run the rules on the objects.

`Game.Tick` follows the code as written, including its two ways of raising an exception. Each becomes a status:
- `Crashed(NoFreeCell)`: `random.choice` on an empty list.
- `Crashed(EmptyBody)`: the head of an empty body is read (see Findings).

The other members:
- `Optional` (optional.dfy) holds the `Option` type that stands for Python's `None`.
- Python's `%` with a positive divisor never returns a negative number, and neither does Dafny's, so `Step` uses `%` directly.

## Model

| member | source | states |
|---|---|---|
| GridSpace.AllCellsExactly | the_snake.py:35-37 | a cell is on the board exactly when both coordinates are non-negative multiples of 20 below 640 and 480 |
| GridSpace.AllCellsCount | the_snake.py:29-37 | the board has GridWidth × GridHeight = 32 × 24 = 768 cells |
| GridSpace.AvailablePositions | the_snake.py:69-74 | the free cells are exactly the board cells not in the snake; they are disjoint from the snake's cells, lie on the board, and together with the snake's cells cover the board |
| GridSpace.FreeCellExists | the_snake.py:69-74 | a snake with fewer than 768 entries always leaves a free cell |
| GridSpace.BoardFullIff | the_snake.py:69-74 | a body of distinct board cells has at most 768 cells, and leaves no free cell exactly when it has 768 |
| Entities.Item.constructor | the_snake.py:99-101 | a new item sits on a board cell outside the snake |
| Entities.Item.RandomizePosition | the_snake.py:103-109 | placement succeeds exactly when a free cell exists; the item then lies on a free cell, and otherwise stays where it was |
| SnakeBody.Snake.constructor | the_snake.py:141-147 | a new snake has length 1, the single cell (320, 240), direction right, no queued direction and no dropped tail |
| SnakeBody.InitialIsValid | the_snake.py:141-147 | the initial snake satisfies the snake invariant |
| SnakeBody.UpdatedDirection | the_snake.py:153-157 | a queued direction becomes the direction and the queue is cleared; with nothing queued the snake is unchanged; nothing else changes |
| SnakeBody.Snake.UpdateDirection | the_snake.py:153-157 | the fields become UpdatedDirection of the old ones |
| GameLoop.UpdatedDirectionKeepsInv | the_snake.py:153-157 | consuming the queued direction keeps the snake invariant |
| SnakeBody.StepOnBoard | the_snake.py:161-164 | one step with wrap-around from a board cell lands on a different board cell |
| SnakeBody.WrapsAtRightEdge | the_snake.py:161-164 | moving right from x = 620 lands on x = 0 in the same row |
| SnakeBody.MoveResetsIffCollision | the_snake.py:166-167 | the move resets the snake exactly when the new head is a body cell behind the head, the tail included |
| SnakeBody.MoveAdvances | the_snake.py:168-175 | without a collision the new head is prepended and the old cells keep their order; the tail is dropped and remembered exactly when the body would exceed the length, and otherwise nothing is remembered |
| SnakeBody.MovePreservesInv | the_snake.py:159-175 | a move keeps length ≥ 1, 1 ≤ \|body\| ≤ length, distinct cells on the board and the head as position; a one-cell body afterwards means length one |
| SnakeBody.Snake.Move | the_snake.py:159-175 | the fields become Moved of the old ones |
| SnakeBody.Snake.Reset | the_snake.py:177-179 | the fields become those of a new snake |
| Controls.HandleKeys | the_snake.py:187-214 | the loop over the frame's events computes the tick rate, the queued direction and the quit flag given by Handle |
| Controls.SpeedStaysPositive | the_snake.py:205-208 | a tick rate of at least 1 stays at least 1 after any events |
| Controls.SpeedBounds | the_snake.py:205-206 | from a rate of at least 1, each event raises the tick rate by at most 2 |
| Controls.SlowDownBottomsOut | the_snake.py:207-208 | from the starting rate 10, six W presses give 1, not a negative rate |
| Controls.LastTurnWins | the_snake.py:209-212 | the last key that is not Escape, Q or W decides the queued direction; an unmapped key clears it |
| Controls.QuitIffExit | the_snake.py:197-204 | the events of a frame end the game exactly when one of them is a window close or Escape |
| Controls.NoTurnKeepsPending | the_snake.py:197-212 | events that are neither exits nor turns leave the queued direction as it was and do not quit |
| HighScore.Recorded | the_snake.py:230-232 | the store becomes the larger of the stored score and the current length |
| GameLoop.Game.ChangeTitle | the_snake.py:225-235 | the high score becomes Recorded of the old score and the length |
| GameLoop.Game.constructor | the_snake.py:242-247 | a new game has the initial snake, three items on board cells off the snake, rate 10, and the stored score checked against length 1 |
| GameLoop.AppleGrowsSnake | the_snake.py:255-257 | an apple hit raises the length by one and changes nothing else; a miss changes nothing |
| GameLoop.BadFoodShrinksOrResets | the_snake.py:259-266 | a bad-food hit on a longer snake lowers the length by one and removes exactly the last cell; the direction, the queued direction, the remembered tail and the drawable position stay as they were, so the dropped cell is not remembered; at length one it records the high score and resets; a miss changes nothing |
| GameLoop.ObstacleResets | the_snake.py:268-271 | an obstacle hit records the high score and resets the snake; a miss changes nothing |
| GameLoop.Game.CheckApple | the_snake.py:255-257 | the snake and score become AppleRule of the old ones; on a hit the apple lies on a free cell, and placing fails only when none is left |
| GameLoop.Game.CheckBadFood | the_snake.py:259-266 | the snake and score become BadFoodRule of the old ones; on a hit the bad food lies on a cell left free by the new body, and placing fails only when none is left |
| GameLoop.Game.CheckObstacle | the_snake.py:268-271 | the snake and score become ObstacleRule of the old ones; on a hit the obstacle lies on a cell left free by the reset snake, and placing fails only when none is left |
| GameLoop.Game.CheckItems | the_snake.py:255-271 | the three checks in order end as TickOutcome says; when they keep running, the snake and score are ObstacleRule after AfterFood of the old ones, and each item that was hit lies on a cell left free by the body at that moment |
| GameLoop.Game.Tick | the_snake.py:252-271 | the tick ends as TickOutcome says and keeps the same snake and item objects; when it keeps running, the snake and the high score are the three checks applied in order, each item that was hit lies on a cell left free by the body at that moment, the game is again valid (healthy snake, every item on a board cell) and the high score has not dropped |
| GameLoop.Game.Frame | the_snake.py:249-271 | the frame takes the game from its old values to its new ones as FrameStep says: key events first; an exit event stops the game with only the queued direction changed, and the game stays valid; otherwise the tick runs with the rate and queued direction the events left, ends as TickOutcome says, and when it keeps running leaves the stage and item placements the rules give, a valid game and a score that has not dropped |
| GameLoop.Game.Run | the_snake.py:249-271 | frames run one after another: the returned trace starts at the old game and ends at the new one, and each frame played takes one entry to the next by FrameStep, every frame but the last keeping the game running and the last ending with the returned status; the run stops early only on an exit event or a crashed tick, and reports Running once every frame has run; as long as none crashes, the game stays valid and the high score never drops |
| GameLoop.TracedExtends | the_snake.py:249-271 | a frame that follows a run of frames that kept the game running extends the trace by one entry, ending with that frame's status |
| GameLoop.TickPreservesInv | the_snake.py:252-271 | after a tick the length is at least 1; unless the food checks emptied the body, the snake invariant holds after the food checks and after the obstacle check |
| GameLoop.HighScoreRecordsResets | the_snake.py:259-271 | the high score never drops; it is at least the length of a snake reset by bad food or by the obstacle in the tick; it differs from the old score only by equalling the length of a snake that one of those resets actually hit |
| GameLoop.NoFreeCellIff | the_snake.py:255-271 | from a healthy snake, placing an item fails exactly when the apple is eaten by a snake that covers all 768 cells |
| GameLoop.FoodEmptiesBodyIff | the_snake.py:255-268 | from a healthy snake, the food checks leave an empty body exactly when apple and bad food share the cell the head enters at length one |
| GameLoop.EmptyBodyReachable | the_snake.py:259-268 | on the first tick, with apple and bad food both placed at (340, 240), the body is emptied and the obstacle check reads an empty body |
| GameLoop.FixedTickPreservesInv | the_snake.py:259-266 | with the corrected bad-food rule, every tick keeps the full snake invariant, so the body is never empty |
| GameLoop.SelfCollisionUnrecorded | the_snake.py:166-167 | a healthy snake of length five that turns into its own body resets, and the tick ends with the high score still 0 |
| GameLoop.FixedMovingRecordsEveryReset | the_snake.py:166-167 | with the score recorded at the self-collision reset, the snake moves as before and the score is at least the length of every snake that resets in the tick, never drops, and differs from the old score only by equalling the length of a snake that actually reset (self-collision, bad food at length one, or obstacle) |

## Left out

- Rendering is not modelled: `draw`, `draw_at_position`, `draw_info_bar`, filling the screen, updating the display, the window caption text and the fonts. They only call into the graphics library.
- The frame clock (`clock.tick`) is not modelled. Event polling becomes an input: each frame receives its events as a sequence. `pygame.quit()` followed by `SystemExit` becomes the status `Exited`.
- The high-score file is not modelled as a file. The store is the integer field `Game.highScore`. The game is given the value that `load_high_score` read. A missing or unparsable file is taken to read as 0, which is what `load_high_score` returns. Parsing with `int()` accepts signs, spaces and underscores; it is not modelled. Writing with `save_high_score` and reading back are taken to give the same integer.
- `random.choice` is a nondeterministic choice among the free cells. Its distribution is not modelled.
- Colours and the height of the info bar are not modelled. They matter only for drawing.
- GameLoop.Game.Tick: when a tick crashes, the contract says only which fault occurred, not the state of the objects. The Python program stops at that point with an exception.

## Findings

| source | as written | input that shows it | evidently intended | confidence | as-written member | corrected member |
|---|---|---|---|---|---|---|
| the_snake.py:259-268 | a bad-food hit at length > 1 always pops the tail (line 262). After an apple hit in the same tick at length 1, the body has one cell. The pop empties it, and line 268 reads `positions[0]` of an empty list (IndexError) | new game, no key pressed; apple and bad food both placed at (340, 240), the cell right of the centre, which the rules allow because items are not checked against each other | shrink the body only when it is longer than the lowered length, so that the body never empties | high (not executed) | GameLoop.BadFoodRule, shown by GameLoop.EmptyBodyReachable and GameLoop.FoodEmptiesBodyIff | GameLoop.BadFoodRuleFixed, proved by GameLoop.FixedTickPreservesInv |
| the_snake.py:166-167 | running into the body calls `reset` directly (line 167), so `change_title` is never called and the length is not recorded, unlike the bad-food reset (line 264) and the obstacle reset (line 269) | a snake of length 5 with body (40,0), (20,0), (20,20), (40,20), (60,20) heading down, stored score 0, items elsewhere: it resets and the score stays 0 | record the high score at every reset-triggering event, self-collision included | medium (not executed) | GameLoop.Moving, shown by GameLoop.SelfCollisionUnrecorded | GameLoop.MovingFixed, proved by GameLoop.FixedMovingRecordsEveryReset |

`Game.Tick` keeps the behaviour as written, so that the model matches the game. It reports the empty body as `Crashed(EmptyBody)`, and it leaves the score alone at a self-collision reset. The corrected rules are the ones whose properties are proved for every tick.
