/** What holds of every state the program can reach from a fresh game. */
module Invariants {
  import opened Entities
  import opened Subsequence
  import opened BrickField
  import opened Controller

  /** A screen wide enough for the paddle. */
  predicate ValidConfig(cfg: Config)
  {
    cfg.paddleWidth <= cfg.width
  }

  /** The paddle keeps its row, size and speed; it can overshoot an edge by
      less than one move, never more. */
  predicate PaddleInBand(cfg: Config, p: Paddle)
  {
    && p.y == InitialPaddle(cfg).y
    && p.width == cfg.paddleWidth
    && p.height == cfg.paddleHeight
    && p.speed == PaddleSpeed
    && -PaddleSpeed < p.x < cfg.width - cfg.paddleWidth + PaddleSpeed
  }

  /** The reachable-state invariant: every point scored is a brick gone from
      the grid, the live bricks are the grid with some deleted, a cleared
      field has no bricks, and the level never runs ahead of the score. */
  predicate Inv(cfg: Config, g: Game)
  {
    && g.score + |g.bricks| == cfg.brickRows * cfg.brickCols
    && Sub(g.bricks, Grid(cfg))
    && (g.retry ==> g.bricks == [])
    && (g.level - 1) * PointsPerLevel <= g.score
    && PaddleInBand(cfg, g.paddle)
  }

  lemma NewGameInv(cfg: Config)
    requires ValidConfig(cfg)
    ensures Inv(cfg, NewGame(cfg))
  {
    SubRefl(Grid(cfg));
  }

  lemma HandleKeyInv(cfg: Config, g: Game, k: Key)
    requires ValidConfig(cfg) && Inv(cfg, g)
    ensures Inv(cfg, HandleKey(cfg, g, k))
  {
    SubRefl(Grid(cfg));
  }

  lemma {:induction false} HandleEventsInv(cfg: Config, g: Game, evs: seq<Event>)
    requires ValidConfig(cfg) && Inv(cfg, g)
    ensures HandleEvents(cfg, g, evs).Running? ==> Inv(cfg, HandleEvents(cfg, g, evs).game)
    decreases |evs|
  {
    if |evs| > 0 {
      match evs[0]
      case QuitEvent =>
      case KeyDown(k) =>
        HandleKeyInv(cfg, g, k);
        HandleEventsInv(cfg, HandleKey(cfg, g, k), evs[1..]);
      case OtherEvent =>
        HandleEventsInv(cfg, g, evs[1..]);
    }
  }

  /** The edge guards keep the paddle less than one move past either screen edge. */
  lemma SteerInv(cfg: Config, g: Game, left: bool, right: bool)
    requires Inv(cfg, g)
    ensures Inv(cfg, Steer(cfg, g, left, right))
  {
  }

  /** One update deletes bricks and scores them one for one, and levels up
      only once the score has reached the threshold. */
  lemma UpdateInv(cfg: Config, g: Game)
    requires Inv(cfg, g)
    ensures Inv(cfg, Update(cfg, g))
  {
    var r := Update(cfg, g);
    if !g.gameOver && !g.paused {
      SubTrans(r.bricks, g.bricks, Grid(cfg));
      if g.retry {
        SubLength(r.bricks, g.bricks);
      }
    }
  }

  lemma FrameInv(cfg: Config, g: Game, input: Input)
    requires ValidConfig(cfg) && Inv(cfg, g)
    ensures Frame(cfg, g, input).Running? ==> Inv(cfg, Frame(cfg, g, input).game)
  {
    HandleEventsInv(cfg, g, input.events);
    var s := HandleEvents(cfg, g, input.events);
    if s.Running? {
      SteerInv(cfg, s.game, input.left, input.right);
      UpdateInv(cfg, Steer(cfg, s.game, input.left, input.right));
    }
  }

  lemma {:induction false} RunInv(cfg: Config, g: Game, inputs: seq<Input>)
    requires ValidConfig(cfg) && Inv(cfg, g)
    ensures Run(cfg, g, inputs).Running? ==> Inv(cfg, Run(cfg, g, inputs).game)
    decreases |inputs|
  {
    if |inputs| > 0 {
      FrameInv(cfg, g, inputs[0]);
      var s := Frame(cfg, g, inputs[0]);
      if s.Running? {
        RunInv(cfg, s.game, inputs[1..]);
      }
    }
  }

  /** Every state a run from a fresh game reaches keeps the invariant; so the
      score never exceeds the number of grid bricks and the level stays below
      one plus that number over fifteen. */
  lemma ReachableBounds(cfg: Config, inputs: seq<Input>)
    requires ValidConfig(cfg)
    ensures Run(cfg, NewGame(cfg), inputs).Running? ==>
      var g := Run(cfg, NewGame(cfg), inputs).game;
      && Inv(cfg, g)
      && g.score <= cfg.brickRows * cfg.brickCols
      && (g.level - 1) * PointsPerLevel <= cfg.brickRows * cfg.brickCols
  {
    NewGameInv(cfg);
    RunInv(cfg, NewGame(cfg), inputs);
  }

  /** With positive brick sizes the live bricks, and every list cut from them
      during a collision pass, hold no duplicates; so `list.remove(brick)`,
      which deletes the first equal element, deletes the brick at the
      iterator's position, as `Sweep` assumes. */
  lemma RemoveByValueIsPositional(cfg: Config, g: Game, s: seq<Brick>, i: int)
    requires cfg.brickWidth > 0 && cfg.brickHeight > 0
    requires Inv(cfg, g) && Sub(s, g.bricks) && 0 <= i < |s|
    ensures RemoveFirst(s, s[i]) == s[..i] + s[i + 1..]
  {
    GridDistinct(cfg);
    SubTrans(s, g.bricks, Grid(cfg));
    SubDistinct(s, Grid(cfg));
    RemoveFirstAt(s, i);
  }
}
