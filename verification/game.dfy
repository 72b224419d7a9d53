/** The game controller: the state it owns and the transitions of one frame
    (key handling, paddle steering, the physics update). */
module Controller {
  import opened Geometry
  import opened Entities
  import opened Subsequence
  import opened BrickField

  type Level = n: int | 1 <= n witness 1

  datatype Game = Game(
    paddle: Paddle,
    ball: Ball,
    bricks: seq<Brick>,
    score: nat,
    level: Level,
    retry: bool,     // every brick is gone; waiting for a restart
    gameOver: bool,  // the ball fell past the bottom edge
    paused: bool)

  datatype Key = Space | Escape | OtherKey

  /** What the event queue can deliver; every other event type is ignored. */
  datatype Event = QuitEvent | KeyDown(key: Key) | OtherEvent

  /** The program either keeps running with a game state or has exited. */
  datatype Session = Running(game: Game) | Closed

  /** Everything one frame reads from the outside: the queued events and
      whether the left and right arrow keys are held. */
  datatype Input = Input(events: seq<Event>, left: bool, right: bool)

  function Abs(n: int): nat
  {
    if n < 0 then -n else n
  }

  /** The paddle of a fresh game: centred, `PaddleGap` pixels above the bottom.
      Python's `//` by 2 is Dafny's `/` by 2 (both round down). */
  function InitialPaddle(cfg: Config): Paddle
  {
    Paddle((cfg.width - cfg.paddleWidth) / 2, cfg.height - cfg.paddleHeight - PaddleGap,
           cfg.paddleWidth, cfg.paddleHeight, PaddleSpeed)
  }

  /** The ball of a fresh game: centre of the screen, moving down-right, white. */
  function InitialBall(cfg: Config): Ball
  {
    Ball(cfg.width / 2, cfg.height / 2, BallSpeed, BallSpeed, cfg.white)
  }

  /** A paddle as (re)initialisation leaves it: horizontally centred (rounded
      down), `PaddleGap` pixels above the bottom edge, configured size, speed 8. */
  predicate FreshPaddle(cfg: Config, p: Paddle)
  {
    && 2 * p.x <= cfg.width - cfg.paddleWidth < 2 * p.x + 2
    && p.y + p.height + PaddleGap == cfg.height
    && p.width == cfg.paddleWidth && p.height == cfg.paddleHeight
    && p.speed == 8
  }

  /** A ball as (re)initialisation leaves it: at the screen centre (rounded
      down), moving 5 pixels right and 5 down per frame, white. */
  predicate FreshBall(cfg: Config, b: Ball)
  {
    && 2 * b.x <= cfg.width < 2 * b.x + 2
    && 2 * b.y <= cfg.height < 2 * b.y + 2
    && b.speedX == 5 && b.speedY == 5
    && b.color == cfg.white
  }

  /** Brick `row * cols + col` of a fresh game sits at
      `(col * brickWidth, row * brickHeight)`. */
  lemma NewGameLayout(cfg: Config, row: int, col: int)
    requires 0 <= row < cfg.brickRows && 0 <= col < cfg.brickCols
    ensures 0 <= row * cfg.brickCols + col < |NewGame(cfg).bricks|
    ensures NewGame(cfg).bricks[row * cfg.brickCols + col]
         == Brick(col * cfg.brickWidth, row * cfg.brickHeight, cfg.brickWidth, cfg.brickHeight)
  {
    GridLayout(cfg, row, col);
  }

  /** Rebuild paddle, ball and brick grid; score, level and flags are left alone. */
  function Initialize(cfg: Config, g: Game): (r: Game)
    ensures r.bricks == Grid(cfg) && |r.bricks| == cfg.brickRows * cfg.brickCols
    ensures FreshPaddle(cfg, r.paddle) && FreshBall(cfg, r.ball)
    ensures r.score == g.score && r.level == g.level
    ensures r.retry == g.retry && r.gameOver == g.gameOver && r.paused == g.paused
  {
    g.(paddle := InitialPaddle(cfg), ball := InitialBall(cfg), bricks := Grid(cfg))
  }

  /** The state right after construction. */
  function NewGame(cfg: Config): (r: Game)
    ensures r.score == 0 && r.level == 1
    ensures !r.retry && !r.gameOver && !r.paused
    ensures r.bricks == Grid(cfg) && |r.bricks| == cfg.brickRows * cfg.brickCols
    ensures FreshPaddle(cfg, r.paddle) && FreshBall(cfg, r.ball)
  {
    Game(InitialPaddle(cfg), InitialBall(cfg), Grid(cfg), 0, 1, false, false, false)
  }

  /** The main loop rebuilds paddle, ball and grid once more before its first
      frame; that yields the state construction already produced. */
  lemma StartIsNewGame(cfg: Config)
    ensures Initialize(cfg, NewGame(cfg)) == NewGame(cfg)
  {
  }

  /** A restarted game: flags cleared, score 0, level 1, a fresh field, and
      the given pause flag. */
  function Restart(cfg: Config, g: Game, paused: bool): Game
  {
    Initialize(cfg, g.(retry := false, gameOver := false, score := 0, level := 1, paused := paused))
  }

  /** One key press. Space restarts, but only from the retry or game-over
      state; escape toggles the pause flag; other keys do nothing. */
  function HandleKey(cfg: Config, g: Game, k: Key): (r: Game)
    ensures k == Space ==> (r != g <==> g.retry || g.gameOver)
    ensures k == Space && (g.retry || g.gameOver) ==>
      && r.score == 0 && r.level == 1 && !r.retry && !r.gameOver
      && r.paused == g.paused
      && r.bricks == Grid(cfg) && r.ball == InitialBall(cfg) && r.paddle == InitialPaddle(cfg)
    ensures k == Escape ==> r.paused != g.paused && r.(paused := g.paused) == g
    ensures k == OtherKey ==> r == g
  {
    match k
    case Space => if g.retry || g.gameOver then Restart(cfg, g, g.paused) else g
    case Escape => g.(paused := !g.paused)
    case OtherKey => g
  }

  /** Two escapes in a row give back the original state. */
  lemma EscapeTwice(cfg: Config, g: Game)
    ensures HandleKey(cfg, HandleKey(cfg, g, Escape), Escape) == g
  {
  }

  /** Number of escape presses in a batch of events. */
  function Escapes(evs: seq<Event>): nat
  {
    multiset(evs)[KeyDown(Escape)]
  }

  /** The event queue of one frame, handled in order. A quit event ends the
      program on the spot (`pygame.quit` and `sys.exit`). */
  function HandleEvents(cfg: Config, g: Game, evs: seq<Event>): (s: Session)
    ensures s.Closed? <==> QuitEvent in evs
    ensures s.Running? && ((!g.retry && !g.gameOver) || KeyDown(Space) !in evs) ==>
      s.game == g.(paused := g.paused != (Escapes(evs) % 2 == 1))
    decreases |evs|
  {
    if |evs| == 0 then Running(g)
    else
      assert evs == [evs[0]] + evs[1..];
      assert multiset(evs) == multiset([evs[0]]) + multiset(evs[1..]);
      match evs[0]
      case QuitEvent => Closed
      case KeyDown(k) => HandleEvents(cfg, HandleKey(cfg, g, k), evs[1..])
      case OtherEvent => HandleEvents(cfg, g, evs[1..])
  }

  /** The escape count of a non-empty batch, split at its first event. */
  lemma EscapesHead(evs: seq<Event>)
    requires |evs| > 0
    ensures Escapes(evs) == Escapes(evs[1..]) + (if evs[0] == KeyDown(Escape) then 1 else 0)
  {
    assert evs == [evs[0]] + evs[1..];
  }

  /** An effective space: from the cleared or game-over state, a batch with a
      space and no quit ends in the restarted game, whose pause flag has been
      flipped once per escape of the whole batch, before the space or after. */
  lemma {:induction false} HandleEventsRestart(cfg: Config, g: Game, evs: seq<Event>)
    requires g.retry || g.gameOver
    requires KeyDown(Space) in evs && QuitEvent !in evs
    ensures HandleEvents(cfg, g, evs) == Running(Restart(cfg, g, g.paused != (Escapes(evs) % 2 == 1)))
    decreases |evs|
  {
    TailMembers(evs);
    if evs[0] == KeyDown(Space) {
      EscapesHead(evs);
      RestartAfterSpace(cfg, g, evs[1..]);
    } else {
      HandleEventsHead(cfg, g, evs);
      HandleEventsRestart(cfg, if evs[0] == KeyDown(Escape) then g.(paused := !g.paused) else g, evs[1..]);
      RestartBeforeSpace(cfg, g, evs);
    }
  }

  /** What membership in a batch says about its tail. */
  lemma TailMembers(evs: seq<Event>)
    requires |evs| > 0
    ensures KeyDown(Space) in evs && evs[0] != KeyDown(Space) ==> KeyDown(Space) in evs[1..]
    ensures QuitEvent !in evs ==> QuitEvent !in evs[1..] && evs[0] != QuitEvent
  {
    assert evs == [evs[0]] + evs[1..];
  }

  /** A step of `HandleEventsRestart` before the space: whether the first
      event is an escape that flips the pause flag or an event that leaves it
      alone, the restart the rest of the batch leads to is the one the whole
      batch leads to. */
  lemma RestartBeforeSpace(cfg: Config, g: Game, evs: seq<Event>)
    requires |evs| > 0
    ensures var g1 := if evs[0] == KeyDown(Escape) then g.(paused := !g.paused) else g;
      Restart(cfg, g1, g1.paused != (Escapes(evs[1..]) % 2 == 1))
      == Restart(cfg, g, g.paused != (Escapes(evs) % 2 == 1))
  {
    EscapesHead(evs);
  }

  /** The first event of a batch that is neither quit nor space: an escape
      flips the pause flag, anything else leaves the state alone. */
  lemma HandleEventsHead(cfg: Config, g: Game, evs: seq<Event>)
    requires |evs| > 0 && evs[0] != KeyDown(Space) && evs[0] != QuitEvent
    ensures HandleEvents(cfg, g, evs)
         == HandleEvents(cfg, if evs[0] == KeyDown(Escape) then g.(paused := !g.paused) else g, evs[1..])
  {
  }

  /** The space step of `HandleEventsRestart`: after the restart the rest of
      the batch can only flip the pause flag. */
  lemma RestartAfterSpace(cfg: Config, g: Game, rest: seq<Event>)
    requires g.retry || g.gameOver
    requires QuitEvent !in rest
    ensures HandleEvents(cfg, HandleKey(cfg, g, Space), rest)
         == Running(Restart(cfg, g, g.paused != (Escapes(rest) % 2 == 1)))
  {
    var g1 := HandleKey(cfg, g, Space);
    assert g1 == Restart(cfg, g, g.paused);
  }

  /** The held arrow keys, applied before the update. Each guard looks at the
      position before that move, so the paddle may end up less than one move
      past either edge. With both keys held, the right guard reads the
      position the left move produced. */
  function Steer(cfg: Config, g: Game, left: bool, right: bool): (r: Game)
    ensures r == g.(paddle := g.paddle.(x := r.paddle.x))
    ensures r.paddle.x == g.paddle.x - g.paddle.speed || r.paddle.x == g.paddle.x
         || r.paddle.x == g.paddle.x + g.paddle.speed
    ensures !left && !right ==> r == g
    ensures left && !right ==>
      r.paddle.x == (if g.paddle.x > 0 then g.paddle.x - g.paddle.speed else g.paddle.x)
    ensures right && !left ==>
      r.paddle.x == (if g.paddle.x < cfg.width - g.paddle.width then g.paddle.x + g.paddle.speed else g.paddle.x)
    ensures left && right && 0 < g.paddle.x && g.paddle.x - g.paddle.speed < cfg.width - g.paddle.width ==>
      r == g
    ensures left && right && 0 < g.paddle.x && g.paddle.x - g.paddle.speed >= cfg.width - g.paddle.width ==>
      r.paddle.x == g.paddle.x - g.paddle.speed
    ensures left && right && g.paddle.x <= 0 && g.paddle.x < cfg.width - g.paddle.width ==>
      r.paddle.x == g.paddle.x + g.paddle.speed
    ensures left && right && g.paddle.x <= 0 && g.paddle.x >= cfg.width - g.paddle.width ==> r == g
  {
    var p1 := if left && g.paddle.x > 0 then g.paddle.MoveLeft() else g.paddle;
    var p2 := if right && p1.x < cfg.width - p1.width then p1.MoveRight() else p1;
    g.(paddle := p2)
  }

  /** The ball after moving and bouncing off the walls and the paddle: a wall
      at the left or right reverses the horizontal speed, the top wall and a
      paddle hit reverse the vertical speed, the bottom edge does nothing. */
  function MoveAndBounce(cfg: Config, paddle: Paddle, b: Ball): (r: Ball)
    ensures r.x == b.x + b.speedX && r.y == b.y + b.speedY && r.color == b.color
    ensures Abs(r.speedX) == Abs(b.speedX) && Abs(r.speedY) == Abs(b.speedY)
    ensures r.speedX != b.speedX ==> r.x <= 0 || r.x >= cfg.width - cfg.ballRadius * 2
    ensures (r.x <= 0 || r.x >= cfg.width - cfg.ballRadius * 2) ==> r.speedX == -b.speedX
    ensures r.y > 0 && !ContainsPoint(paddle.Rect(), r.x, r.y) ==> r.speedY == b.speedY
    ensures (r.y <= 0 <==> !ContainsPoint(paddle.Rect(), r.x, r.y)) ==> r.speedY == -b.speedY
    ensures r.y <= 0 && ContainsPoint(paddle.Rect(), r.x, r.y) ==> r.speedY == b.speedY
  {
    var moved := b.Move();
    var b1 := if moved.x <= 0 || moved.x >= cfg.width - cfg.ballRadius * 2 then moved.ReverseX() else moved;
    var b2 := if b1.y <= 0 then b1.ReverseY() else b1;
    if ContainsPoint(paddle.Rect(), b2.x, b2.y) then b2.ReverseY() else b2
  }

  /** At most one level per frame: when the score has reached `level * 15`
      the level goes up by one, both velocity components grow by one whatever
      their sign, and the ball takes the new level's colour if the palette
      has one. */
  function LevelUp(cfg: Config, g: Game): (r: Game)
    ensures r.level == g.level || r.level == g.level + 1
    ensures r.level == g.level + 1 <==> g.score >= g.level * PointsPerLevel
    ensures r.ball.speedX == g.ball.speedX + (r.level - g.level)
    ensures r.ball.speedY == g.ball.speedY + (r.level - g.level)
    ensures r.ball.color != g.ball.color ==>
      r.level == g.level + 1 && r.level <= |cfg.levelColors| && r.ball.color == cfg.levelColors[r.level - 1]
    ensures r.level == g.level + 1 && r.level <= |cfg.levelColors| ==> r.ball.color == cfg.levelColors[r.level - 1]
    ensures r == g.(level := r.level, ball := r.ball)
    ensures r.ball.x == g.ball.x && r.ball.y == g.ball.y
  {
    if g.score >= g.level * PointsPerLevel then
      var level := g.level + 1;
      var faster := g.ball.(speedX := g.ball.speedX + 1, speedY := g.ball.speedY + 1);
      g.(level := level,
         ball := if level <= |cfg.levelColors| then faster.(color := cfg.levelColors[level - 1]) else faster)
    else g
  }

  /** One physics update. Nothing happens while the game is over or paused;
      otherwise the ball moves and bounces, the collision pass deletes touched
      bricks (one point and one vertical reversal each), the retry and
      game-over flags are raised, and the level may go up once. */
  function Update(cfg: Config, g: Game): (r: Game)
    ensures g.gameOver || g.paused ==> r == g
    ensures !g.gameOver && !g.paused ==>
      && r.ball.x == g.ball.x + g.ball.speedX && r.ball.y == g.ball.y + g.ball.speedY
      && Sub(r.bricks, g.bricks)
      && Sub(Keep(BallBox(cfg, MoveAndBounce(cfg, g.paddle, g.ball)), g.bricks), r.bricks)
      && r.bricks == Sweep(BallBox(cfg, MoveAndBounce(cfg, g.paddle, g.ball)), g.bricks)
      && r.ball.speedX == MoveAndBounce(cfg, g.paddle, g.ball).speedX + (r.level - g.level)
      && r.ball.speedY
         == Flip(MoveAndBounce(cfg, g.paddle, g.ball).speedY, |g.bricks| - |r.bricks|) + (r.level - g.level)
      && r.score == g.score + (|g.bricks| - |r.bricks|)
      && (r.level == g.level || r.level == g.level + 1)
      && (r.level == g.level + 1 <==> r.score >= g.level * PointsPerLevel)
      && Abs(r.ball.speedX - (r.level - g.level)) == Abs(g.ball.speedX)
      && Abs(r.ball.speedY - (r.level - g.level)) == Abs(g.ball.speedY)
      && (r.ball.color != g.ball.color ==>
            r.level == g.level + 1 && r.level <= |cfg.levelColors| && r.ball.color == cfg.levelColors[r.level - 1])
      && (r.level == g.level + 1 && r.level <= |cfg.levelColors| ==> r.ball.color == cfg.levelColors[r.level - 1])
      && (r.retry <==> g.retry || r.bricks == [])
      && (r.gameOver <==> r.ball.y >= cfg.height)
      && r.paddle == g.paddle && r.paused == g.paused
  {
    if g.gameOver || g.paused then g
    else
      var b := MoveAndBounce(cfg, g.paddle, g.ball);
      var box := BallBox(cfg, b);
      var rest := Sweep(box, g.bricks);
      SweepSub(box, g.bricks);
      SweepKeepsUntouched(box, g.bricks);
      var hits := |g.bricks| - |rest|;
      var b' := b.(speedY := Flip(b.speedY, hits));
      LevelUp(cfg, g.(ball := b', bricks := rest, score := g.score + hits,
                      retry := g.retry || rest == [], gameOver := b'.y >= cfg.height))
  }

  /** When the ball's box touches exactly one brick, one brick goes and the
      score goes up by one. */
  lemma UpdateSingleHit(cfg: Config, g: Game)
    requires !g.gameOver && !g.paused
    requires |Keep(BallBox(cfg, MoveAndBounce(cfg, g.paddle, g.ball)), g.bricks)| == |g.bricks| - 1
    ensures |Update(cfg, g).bricks| == |g.bricks| - 1
    ensures Update(cfg, g).score == g.score + 1
    ensures Update(cfg, g).ball.speedY
         == -MoveAndBounce(cfg, g.paddle, g.ball).speedY + (Update(cfg, g).level - g.level)
  {
    SweepSingleHit(BallBox(cfg, MoveAndBounce(cfg, g.paddle, g.ball)), g.bricks);
  }

  /** One iteration of the main loop: events first; then, only while the game
      is neither cleared, over nor paused, the held keys steer the paddle and
      the physics update runs. Drawing and frame pacing are left out. */
  function Frame(cfg: Config, g: Game, input: Input): (s: Session)
    ensures s.Closed? <==> QuitEvent in input.events
    ensures s.Running? && (g.retry || g.gameOver) && KeyDown(Space) !in input.events ==>
      s.game == g.(paused := g.paused != (Escapes(input.events) % 2 == 1))
    ensures (!g.retry && !g.gameOver && g.paused && QuitEvent !in input.events
             && Escapes(input.events) % 2 == 0) ==> s == Running(g)
    ensures (!g.retry && !g.gameOver && !g.paused && QuitEvent !in input.events
             && Escapes(input.events) % 2 == 0) ==>
      s == Running(Update(cfg, Steer(cfg, g, input.left, input.right)))
    ensures (!g.retry && !g.gameOver && QuitEvent !in input.events
             && Escapes(input.events) % 2 == 1) ==>
      s == (if g.paused then Running(Update(cfg, Steer(cfg, g.(paused := false), input.left, input.right)))
            else Running(g.(paused := true)))
  {
    match HandleEvents(cfg, g, input.events)
    case Closed => Closed
    case Running(g1) =>
      if !g1.retry && !g1.gameOver && !g1.paused then
        Running(Update(cfg, Steer(cfg, g1, input.left, input.right)))
      else Running(g1)
  }

  /** The frame whose space restarts the game: the events leave the restarted
      game, paused once per escape of the batch, and unless that leaves it
      paused the held keys steer it and the update runs on it at once. */
  lemma FrameRestart(cfg: Config, g: Game, input: Input)
    requires g.retry || g.gameOver
    requires KeyDown(Space) in input.events && QuitEvent !in input.events
    ensures var g1 := Restart(cfg, g, g.paused != (Escapes(input.events) % 2 == 1));
      Frame(cfg, g, input)
      == if g1.paused then Running(g1) else Running(Update(cfg, Steer(cfg, g1, input.left, input.right)))
  {
    HandleEventsRestart(cfg, g, input.events);
  }

  /** A run: frames one after another from `g`, until a quit event. */
  function Run(cfg: Config, g: Game, inputs: seq<Input>): (s: Session)
    ensures s.Closed? <==> exists i | 0 <= i < |inputs| :: QuitEvent in inputs[i].events
    decreases |inputs|
  {
    if |inputs| == 0 then Running(g)
    else
      match Frame(cfg, g, inputs[0])
      case Closed => Closed
      case Running(g1) =>
        var s := Run(cfg, g1, inputs[1..]);
        assert forall i | 1 <= i < |inputs| :: inputs[i] == inputs[1..][i - 1];
        s
  }

  /** While the game is cleared or over and no frame delivers a space, a run
      changes at most the pause flag, whatever the held keys. */
  lemma {:induction false} RunFrozenWhileOver(cfg: Config, g: Game, inputs: seq<Input>)
    requires g.retry || g.gameOver
    requires forall i | 0 <= i < |inputs| :: KeyDown(Space) !in inputs[i].events
    ensures Run(cfg, g, inputs).Running? ==>
      Run(cfg, g, inputs).game == g.(paused := Run(cfg, g, inputs).game.paused)
    decreases |inputs|
  {
    if |inputs| > 0 {
      var s := Frame(cfg, g, inputs[0]);
      if s.Running? {
        assert forall i | 0 <= i < |inputs[1..]| :: inputs[1..][i] == inputs[i + 1];
        RunFrozenWhileOver(cfg, s.game, inputs[1..]);
      }
    }
  }
}
