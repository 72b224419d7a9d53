# Brick breaker: a Dafny model of the per-frame game state

This project models the game controller `BrickBreakerGame` of a small
brick-breaker arcade game (`main.py`). A paddle at the bottom of the screen
deflects a ball into a grid of bricks. A brick the ball touches is
destroyed and scores one point (the next brick in the list is skipped in
that pass). The level goes up every fifteen points.
The controller is modelled as an immutable `Game` value and pure transition
functions, one per part of a frame:

- `entities.dfy`: modules `Geometry` and `Entities`. Rectangles, the
  collision tests, ball, paddle and brick, and the setup constants, which are
  taken as a `Config` parameter.
- `subsequence.dfy`: module `Subsequence`. Order-preserving deletion, and
  Python's `list.remove` (first equal element).
- `bricks.dfy`: module `BrickField`. The row-major brick grid, and the
  collision pass. The pass is written twice: as the loop of the source
  (`SweepLoop`) and as a recursive reference (`Sweep`). The two are proved
  equal.
- `game.dfy`: module `Controller`. Key handling, the event queue, paddle
  steering, the update step, one frame and a run of frames.
- `invariants.dfy`: module `Invariants`. The invariant every reachable state
  keeps, with one preservation lemma per transition.
- `scenarios.dfy`: module `Scenarios`. Worked situations on an illustrative
  800x600 screen with 100 bricks.

The main facts proved:

- Space changes the state exactly when the game is cleared or over. It then
  resets score and level and rebuilds the field.
- Escape only toggles the pause flag, so two escapes cancel out.
- The update freezes the state while the game is over or paused.
- Inside one update, bricks are only deleted, and the score grows by exactly
  the number deleted.
- The level rises by at most one per update, and it rises exactly when the
  score reaches `level * 15`.
- The ball's colour changes only on a level-up with a palette entry.
- In every reachable state, `score + bricks left == rows * cols` holds. The
  live bricks are the grid with some bricks deleted. The level never runs
  ahead of the score.

Deliberately literal behaviour, each proved as a lemma:

- **Collision pass.** The loop deletes from the list it is walking. Python's
  list iterator still advances after each deletion, so the brick right after
  a deleted one is not examined in that pass (`SweepSkipsNeighbour`,
  `Scenarios.NeighbourSkipped`). The pass therefore keeps at least the
  untouched bricks, and deletes only touched ones (`SweepKeepsUntouched`,
  `SweepRemovesOnlyHits`). When no two touched bricks are neighbours, it
  deletes exactly the touched ones (`SweepExactWithoutNeighbours`).
- **Level-up speed.** Level-up adds one to each velocity component whatever
  its sign. A ball that is moving up or left therefore slows down
  (`Scenarios.LevelUpSlowsRisingBall`).
- **Paddle guards.** The paddle guards test the position *before* the move,
  so the paddle is not clamped to `[0, width - paddleWidth]`. It can end up
  less than one move (8 pixels) past either edge
  (`Scenarios.PaddleOvershoot`). What is proved instead is the band
  `-8 < x < width - paddleWidth + 8` (`Invariants.SteerInv`).
- **Restart keeps the pause flag.** Restart rebuilds paddle, ball and bricks
  and resets score, level, `retry` and `game_over`, but does not touch
  `paused`.
- **Update ignores the cleared flag.** The update step itself checks only
  `game_over` and `paused`. The check of `retry` sits in the main loop, and
  the model places it there too (`Frame`).

Assumptions about code that is not part of this model:

- `Ball.move` adds the velocity.
- `reverse_x` and `reverse_y` negate one velocity component.
- `Paddle.move_left` and `move_right` subtract or add the paddle speed.
- Each constructor takes its arguments in the order used at main.py:28-34.
- `Rect.colliderect` is strict axis-aligned overlap. Rectangles that only
  share an edge do not collide.
- `list.remove(brick)` deletes the brick at the iterator's position. With
  positive brick sizes this holds even under value equality, because the
  grid has no duplicates (`Invariants.RemoveByValueIsPositional`).

## Model

| member | source | states |
|---|---|---|
| BrickField.GridRows | main.py:31-35 | the first n rows of the grid hold n * cols bricks |
| BrickField.GridLayout | main.py:31-35 | the grid holds rows * cols bricks, and brick row * cols + col sits at (col * brickWidth, row * brickHeight) with the brick size |
| BrickField.GridDistinct | main.py:31-35 | with positive brick sizes, no two grid bricks are equal |
| BrickField.Sweep | main.py:72-76 | a collision pass never leaves more bricks than it was given |
| BrickField.SweepSub | main.py:72-76 | a pass only deletes bricks, and keeps the order of the rest |
| BrickField.Keep | main.py:72-74 | reference for the pass: exactly the bricks the ball's box does not touch, and nothing else |
| BrickField.SweepLoop | main.py:72-76 | the loop whose iterator advances after each deletion leaves exactly the `Sweep` survivors, counts the deletions, and reverses the vertical speed once per deletion |
| BrickField.SweepKeepsUntouched | main.py:72-76 | every brick the box does not touch survives the pass, in order |
| BrickField.SweepRemovesOnlyHits | main.py:72-76 | every deleted brick was touched by the ball's box |
| BrickField.SweepShrinksIffHit | main.py:72-76 | a pass deletes something if and only if some brick is touched |
| BrickField.SweepExactWithoutNeighbours | main.py:72-76 | when no two touched bricks are neighbours, the pass deletes exactly the touched bricks |
| BrickField.SweepSkipsNeighbour | main.py:72-74 | when the first two bricks are both touched, the second survives, because the iterator skips it |
| BrickField.SweepSingleHit | main.py:72-76 | when exactly one brick is touched, exactly one brick is deleted |
| Controller.Initialize | main.py:21-35 | reinitialisation makes the bricks exactly the row-major grid of rows * cols bricks, puts the paddle centred 10 pixels above the bottom with speed 8 and the ball at the screen centre moving (5, 5) in white, and leaves score, level and the three flags alone |
| Controller.NewGame | main.py:11-19 | a new game has score 0, level 1, all flags clear, the full row-major grid, and the freshly placed paddle and ball |
| Controller.NewGameLayout | main.py:31-35 | brick row * cols + col of a new game sits at (col * brickWidth, row * brickHeight) |
| Controller.StartIsNewGame | main.py:124-125 | rebuilding at the start of the main loop gives back the constructed state |
| Controller.HandleKey | main.py:42-51 | space changes the state if and only if retry or game over holds, and then clears both flags, sets score 0 and level 1, rebuilds the field and keeps `paused`; escape negates `paused` and changes nothing else; other keys change nothing |
| Controller.EscapeTwice | main.py:50-51 | two escapes restore the original state |
| Controller.HandleEvents | main.py:37-51 | the program exits if and only if a quit event is queued; without an effective space, the events only flip `paused` once per escape |
| Controller.HandleEventsRestart | main.py:37-51 | from the cleared or game-over state, a batch with a space and no quit ends in the restarted game (flags clear, score 0, level 1, fresh field), whose `paused` is flipped once per escape of the whole batch, before the space or after it |
| Controller.Steer | main.py:130-135 | only the paddle's x changes, by at most one move; with one key held, the paddle moves by one step in that key's direction exactly when its guard holds on the position before the move, and otherwise stays put; with both held, the right guard reads the position after the left move, which fixes the outcome in each of the four guard cases |
| Controller.MoveAndBounce | main.py:55-69 | the ball moves by its velocity with no clamping; the bounces keep the speed magnitudes; the horizontal speed is reversed exactly at the side walls; the vertical speed is reversed by the top wall or by a paddle hit, and is unchanged when neither or both apply; the bottom edge reverses nothing |
| Controller.LevelUp | main.py:86-92 | the level rises by one exactly when score >= level * 15, and then both speed components gain 1; the colour changes only to the palette entry of the new level, when there is one |
| Controller.Update | main.py:53-92 | nothing changes when the game is over or paused; otherwise the ball moves by its velocity, the surviving bricks are exactly the collision pass's survivors and include every untouched brick in order, the vertical speed is reversed once per deleted brick, both speeds gain 1 on a level-up, the score grows by the number deleted, the level rises by at most one and exactly at the threshold, retry holds afterwards exactly when it held before or no brick is left, and game over is set exactly when the ball is at or below the bottom edge |
| Controller.UpdateSingleHit | main.py:72-76 | with exactly one touched brick, an update deletes one brick, adds one point and reverses the vertical speed once |
| Controller.Frame | main.py:127-137 | the program exits if and only if a quit event is queued; in the cleared or game-over state without space, a frame only flips `paused` once per escape; a paused game whose events leave it paused is unchanged, held arrows included; a playing game whose events leave it playing is steered and then updated; an odd number of escapes pauses a playing game without moving it, and unpauses a paused game, which is then steered and updated in the same frame |
| Controller.FrameRestart | main.py:127-137 | in the frame whose space restarts the game, the restarted game is steered and updated at once unless the batch's escapes leave it paused |
| Controller.Run | main.py:124-141 | a run stops if and only if some frame delivers a quit event |
| Controller.RunFrozenWhileOver | main.py:127-137 | from the cleared or game-over state, a run whose frames deliver no space changes at most `paused` |
| Invariants.NewGameInv | main.py:11-35 | a new game satisfies the reachable-state invariant |
| Invariants.HandleKeyInv | main.py:42-51 | key handling preserves the invariant |
| Invariants.HandleEventsInv | main.py:37-51 | the event queue preserves the invariant |
| Invariants.SteerInv | main.py:130-135 | paddle steering keeps the paddle less than one move past either screen edge |
| Invariants.UpdateInv | main.py:53-92 | the update preserves score + bricks = rows * cols, deletion from the grid, retry implying no bricks, and level behind score |
| Invariants.FrameInv | main.py:127-137 | a frame preserves the invariant |
| Invariants.RunInv | main.py:124-141 | any run of frames preserves the invariant |
| Invariants.ReachableBounds | main.py:124-141 | every state reached from a new game has score <= rows * cols and (level - 1) * 15 <= rows * cols |
| Invariants.RemoveByValueIsPositional | main.py:72-74 | in every reachable brick list, deleting a brick by value deletes it at its own position |
| Scenarios.LeftWallBounce | main.py:55-62 | a ball at (0, 100) moving (-5, 2) ends at (-5, 102) moving (5, 2) |
| Scenarios.RetryRestart | main.py:43-49 | from the cleared state, space gives score 0, level 1 and 100 bricks |
| Scenarios.GameOverSticks | main.py:83-84 | a ball at or below the bottom edge ends the game, and every later frame up to the first space leaves ball, paddle, bricks and score unchanged |
| Scenarios.NeighbourSkipped | main.py:72-74 | of two touched neighbouring bricks, only the first is deleted in a pass |
| Scenarios.PaddleOvershoot | main.py:132-133 | a paddle 3 pixels from the left edge moves to x = -5 |
| Scenarios.LevelUpSlowsRisingBall | main.py:87-92 | level-up turns a vertical speed of -6 into -5, and sets the level-2 colour |

## Left out

- `draw_objects` (main.py:94-122) is left out. It only renders through the
  windowing library.
- Display setup, the window caption, `clock.tick(60)` and the `screen` field
  are left out. They are I/O and timing with no effect on the game state.
- The event queue and the keyboard are inputs to a frame instead of calls
  into the windowing library. The queue is a sequence of `Event` values, and
  the held arrow keys are two booleans.
- A quit event is modelled as the session ending (`Closed`). `pygame.quit()`
  and `sys.exit()` are not modelled further.
- The bodies of `Ball`, `Paddle`, `Brick` and `Rect.colliderect` are not part
  of this model. They get the assumed semantics listed above.
- `colliderect` may treat zero-size or negative-size rectangles specially in
  the library. Such cases are outside the strict-overlap assumption.
- The setup constants, including `WIDTH`, `HEIGHT`, `BALL_RADIUS`, the brick
  and paddle sizes, `LEVEL_COLORS` and `WHITE`, are parameters. The values in
  `Scenarios` are only illustrative.
- Python integers are unbounded, and so are Dafny's. The library's
  rectangles hold C integers, and their overflow for huge coordinates is not
  modelled.
- `Invariants.SteerInv` does not state the bound `[0, width - paddleWidth]`
  for the paddle, because the guards test the position before the move and
  the code does not keep it. The proved band is less than one move wider on
  each side.
