/** Ball and paddle geometry of the play field (server.js:67-81, 209-228,
    252-258). The field is 800 wide and 400 high, paddles are 10 wide and 60
    high, the left paddle stands at x = 10 and the right one at x = 780.
    Numbers are modelled as exact reals; the speed-up factor 1.05 is the real
    number 21/20. */
module Physics {

  const FieldWidth: real := 800.0
  const FieldHeight: real := 400.0
  const PaddleWidth: real := 10.0
  const PaddleHeight: real := 60.0
  /** Highest paddle top that keeps the paddle on the field: `400 - 60`. */
  const PaddleTop: real := FieldHeight - PaddleHeight
  const LeftPaddleX: real := 10.0
  const RightPaddleX: real := 780.0
  const Speed: real := 5.0
  const SpeedUp: real := 1.05
  const BallRadius: real := 10.0

  datatype Ball = Ball(x: real, y: real, dx: real, dy: real, radius: real)

  /** The ball of a freshly created room. */
  const StartBall: Ball := Ball(400.0, 200.0, Speed, Speed, BallRadius)

  /** The two `Math.random() > 0.5` outcomes that pick the signs of a reset ball. */
  datatype Draw = Draw(dxPositive: bool, dyPositive: bool)

  function Abs(r: real): real
  {
    if r < 0.0 then -r else r
  }

  /** `Math.max(0, Math.min(400 - 60, y))`: the paddle top a move request asks for. */
  function Clamp(y: real): (r: real)
    ensures 0.0 <= r <= PaddleTop
    ensures 0.0 <= y <= PaddleTop ==> r == y
    ensures y < 0.0 ==> r == 0.0
    ensures y > PaddleTop ==> r == PaddleTop
  {
    if y < 0.0 then 0.0 else if y > PaddleTop then PaddleTop else y
  }

  /** One tick of free flight: `x += dx; y += dy`. */
  function Advance(b: Ball): Ball
  {
    b.(x := b.x + b.dx, y := b.y + b.dy)
  }

  /** The ball's top or bottom edge lies beyond the field. */
  predicate OutsideWalls(b: Ball)
  {
    b.y + b.radius > FieldHeight || b.y - b.radius < 0.0
  }

  /** Wall reflection: the vertical velocity is negated when the ball is beyond a wall. */
  function Reflect(b: Ball): (r: Ball)
    ensures r.x == b.x && r.y == b.y && r.dx == b.dx && r.radius == b.radius
    ensures Abs(r.dy) == Abs(b.dy)
    ensures b.dy != 0.0 ==> (r.dy == b.dy <==> !OutsideWalls(b))
  {
    if OutsideWalls(b) then b.(dy := -b.dy) else b
  }

  /** The ball's box overlaps the paddle whose top-left corner is (px, py). */
  predicate Collides(b: Ball, px: real, py: real)
  {
    && b.x - b.radius < px + PaddleWidth
    && b.x + b.radius > px
    && b.y > py
    && b.y < py + PaddleHeight
  }

  /** A paddle hit: `dx = -dx * 1.05`. */
  function Bounce(dx: real): (r: real)
    ensures dx > 0.0 ==> r < 0.0
    ensures dx < 0.0 ==> r > 0.0
    ensures Abs(r) == Abs(dx) * SpeedUp
  {
    -dx * SpeedUp
  }

  /** `resetBall`: back to the centre with speed 5 on both axes, in the drawn
      directions; the radius is kept. */
  function Reset(b: Ball, d: Draw): (r: Ball)
    ensures r.x == 400.0 && r.y == 200.0 && r.radius == b.radius
    ensures Abs(r.dx) == Speed && Abs(r.dy) == Speed
    ensures r.dx > 0.0 <==> d.dxPositive
    ensures r.dy > 0.0 <==> d.dyPositive
  {
    b.(x := 400.0, y := 200.0,
       dx := if d.dxPositive then Speed else -Speed,
       dy := if d.dyPositive then Speed else -Speed)
  }

  /** `y` is a whole multiple of 5: every height the ball can reach. */
  ghost predicate OnGrid(y: real)
  {
    y == y.Floor as real && y.Floor % 5 == 0
  }

  /** The vertical state the ball keeps between ticks: its centre stays within
      [5, 395] on the grid of its vertical steps, moving 5 per tick, and
      it is never about to leave at the edges. */
  ghost predicate HeightOk(b: Ball)
  {
    && b.radius == BallRadius
    && (b.dy == Speed || b.dy == -Speed)
    && 5.0 <= b.y <= 395.0 && OnGrid(b.y)
    && (b.y == 395.0 ==> b.dy == -Speed)
    && (b.y == 5.0 ==> b.dy == Speed)
  }

  /** The whole ball invariant between ticks. */
  ghost predicate BallOk(b: Ball)
  {
    HeightOk(b) && 0.0 <= b.x <= FieldWidth && Abs(b.dx) >= Speed
  }

  /** A reset ball satisfies the invariant. */
  lemma ResetOk(b: Ball, d: Draw)
    requires b.radius == BallRadius
    ensures BallOk(Reset(b, d))
  {
    assert 200.0.Floor == 200;
  }

  /** One tick of flight and wall reflection keeps the ball's centre inside
      [5, 395]: walls are never crossed by the centre, and the ball never
      sticks to a wall. */
  lemma FlightKeepsHeight(b: Ball)
    requires HeightOk(b)
    ensures HeightOk(Reflect(Advance(b)))
  {
    var a := Advance(b);
    var k := b.y.Floor;
    if b.dy == Speed {
      assert a.y == (k + 5) as real;
      assert a.y.Floor == k + 5;
    } else {
      assert a.y == (k - 5) as real;
      assert a.y.Floor == k - 5;
    }
  }

  /** With the radius of the game's ball, one ball cannot touch both paddles
      in the same tick, whatever their heights. */
  lemma NoDoubleHit(b: Ball, y0: real, y1: real)
    requires b.radius == BallRadius
    ensures !(Collides(b, LeftPaddleX, y0) && Collides(b, RightPaddleX, y1))
  {
  }
}
