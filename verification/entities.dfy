/** Screen-space rectangles and the two hit tests the game controller uses. */
module Geometry {

  /** An axis-aligned rectangle: top-left corner plus size, in pixels. */
  datatype Rect = Rect(x: int, y: int, width: int, height: int)

  /** Strict overlap of two rectangles. This is the assumed meaning of the
      windowing library's `Rect.colliderect`, whose code is not part of this
      model: rectangles that only share an edge do not collide. */
  predicate Overlaps(a: Rect, b: Rect)
  {
    && a.x < b.x + b.width
    && b.x < a.x + a.width
    && a.y < b.y + b.height
    && b.y < a.y + a.height
  }

  /** Inclusive point-in-rectangle test, as written out for the paddle bounce. */
  predicate ContainsPoint(r: Rect, px: int, py: int)
  {
    r.x <= px <= r.x + r.width && r.y <= py <= r.y + r.height
  }
}

/** The entities the controller owns (ball, paddle, bricks) and the fixed
    parameters of the game. The entity classes live in files that are not
    part of this model; their operations below carry the assumed semantics:
    `move` adds the velocity, `reverse_x`/`reverse_y` negate one component,
    `move_left`/`move_right` subtract/add the paddle speed. */
module Entities {
  import opened Geometry

  datatype Color = Color(r: int, g: int, b: int)

  /** The constants of the setup file, taken as parameters. */
  datatype Config = Config(
    width: int,
    height: int,
    ballRadius: int,
    paddleWidth: int,
    paddleHeight: int,
    brickRows: nat,
    brickCols: nat,
    brickWidth: int,
    brickHeight: int,
    levelColors: seq<Color>,
    white: Color)

  /** Constants written inline in the controller. */
  const PaddleSpeed: int := 8
  const BallSpeed: int := 5
  const PaddleGap: int := 10
  const PointsPerLevel: int := 15

  datatype Ball = Ball(x: int, y: int, speedX: int, speedY: int, color: Color)
  {
    /** Assumed `Ball.move`: advance by the velocity, no clamping. */
    function Move(): Ball
    {
      this.(x := x + speedX, y := y + speedY)
    }

    /** Assumed `Ball.reverse_x`. */
    function ReverseX(): Ball
    {
      this.(speedX := -speedX)
    }

    /** Assumed `Ball.reverse_y`. */
    function ReverseY(): Ball
    {
      this.(speedY := -speedY)
    }
  }

  datatype Paddle = Paddle(x: int, y: int, width: int, height: int, speed: int)
  {
    function Rect(): Geometry.Rect
    {
      Geometry.Rect(x, y, width, height)
    }

    /** Assumed `Paddle.move_left`: no clamping of its own. */
    function MoveLeft(): Paddle
    {
      this.(x := x - speed)
    }

    /** Assumed `Paddle.move_right`: no clamping of its own. */
    function MoveRight(): Paddle
    {
      this.(x := x + speed)
    }
  }

  /** A brick is nothing but its rectangle. */
  datatype Brick = Brick(x: int, y: int, width: int, height: int)
  {
    function Rect(): Geometry.Rect
    {
      Geometry.Rect(x, y, width, height)
    }
  }

  /** The rectangle handed to the brick test: the ball's bounding box. */
  function BallBox(cfg: Config, b: Ball): Rect
  {
    Rect(b.x, b.y, cfg.ballRadius * 2, cfg.ballRadius * 2)
  }
}
