/** Worked situations, on an 800x600 screen with a 5x20 grid of 40x20
    bricks (illustrative values: the setup file is not part of this model). */
module Scenarios {
  import opened Geometry
  import opened Entities
  import opened BrickField
  import opened Controller

  const White := Color(255, 255, 255)

  function Screen(): Config
  {
    Config(800, 600, 10, 100, 10, 5, 20, 40, 20,
           [White, Color(255, 255, 0), Color(0, 255, 0)], White)
  }

  /** A ball at the left wall moving left: it moves to x = -5 and its
      horizontal speed is reversed; the vertical speed is kept. */
  lemma LeftWallBounce()
    ensures var g := Game(InitialPaddle(Screen()), Ball(0, 100, -5, 2, White), [], 3, 1, false, false, false);
      Update(Screen(), g).ball == Ball(-5, 102, 5, 2, White)
  {
  }

  /** A cleared field is the retry state; space then gives score 0, level 1
      and a full grid of 100 bricks. */
  lemma RetryRestart(g: Game)
    requires g.retry
    ensures var r := HandleKey(Screen(), g, Space);
      r.score == 0 && r.level == 1 && !r.retry && !r.gameOver && |r.bricks| == 100
  {
  }

  /** Once the ball falls past the bottom edge the game is over, and every
      later frame up to the first space moves nothing. */
  lemma GameOverSticks(cfg: Config, g: Game, inputs: seq<Input>)
    requires !g.gameOver && !g.paused && g.ball.y + g.ball.speedY >= cfg.height
    requires forall i | 0 <= i < |inputs| :: KeyDown(Space) !in inputs[i].events
    ensures Update(cfg, g).gameOver
    ensures Run(cfg, Update(cfg, g), inputs).Running? ==>
      var r := Run(cfg, Update(cfg, g), inputs).game;
      r.ball == Update(cfg, g).ball && r.paddle == Update(cfg, g).paddle
      && r.bricks == Update(cfg, g).bricks && r.score == Update(cfg, g).score
  {
    RunFrozenWhileOver(cfg, Update(cfg, g), inputs);
  }

  /** Two neighbouring bricks under the ball: the first is deleted and the
      second, having slid into the slot already visited, survives the pass. */
  lemma NeighbourSkipped()
    ensures var a, b := Brick(0, 0, 40, 20), Brick(40, 0, 40, 20);
      var box := Rect(35, 10, 20, 20);
      Hits(box, a) && Hits(box, b) && Sweep(box, [a, b]) == [b]
  {
  }

  /** The left guard looks at the position before the move, so a paddle three
      pixels from the edge ends up five pixels past it. */
  lemma PaddleOvershoot(g: Game)
    requires g.paddle.x == 3 && g.paddle.speed == PaddleSpeed
    ensures Steer(Screen(), g, true, false).paddle.x == -5
  {
  }

  /** Level-up adds one to each velocity component whatever its sign, so a
      ball moving up at 6 pixels per frame slows to 5. */
  lemma LevelUpSlowsRisingBall(g: Game)
    requires g.score == 15 && g.level == 1 && g.ball.speedY == -6
    ensures var r := LevelUp(Screen(), g);
      r.level == 2 && r.ball.speedY == -5 && Abs(r.ball.speedY) < Abs(g.ball.speedY)
      && r.ball.color == Color(255, 255, 0)
  {
  }
}
