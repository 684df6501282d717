/** The turret: its firing gate, the lead-prediction aim with scatter, and the creation of
    projectiles. The random draws of the source are inputs here. */
module Targeting {
  import opened Config
  import opened Vectors
  import opened Registry

  /** The four `random.uniform(0, TIME_DELAY)` draws that one call of `aim` makes:
      two for the x error, two for the y error. */
  datatype Scatter = Scatter(x1: real, x2: real, y1: real, y2: real) {
    /** Every draw lies in the interval the source samples from. */
    predicate InRange() {
      var d := TIME_DELAY as real;
      0.0 <= x1 <= d && 0.0 <= x2 <= d && 0.0 <= y1 <= d && 0.0 <= y2 <= d
    }
  }

  /** The triple `aim` returns: the aim point and the arrival tick. */
  datatype AimPoint = AimPoint(x: real, y: real, arrival: real)

  /** The delay the prediction covers, in seconds: the sensing delay plus the projectile's
      travel time, both derived from the same fixed distance. */
  const TOTAL_DELAY: real := TIME_DELAY as real + TIME_DELAY as real / PROJECTILE_SPEED as real

  /** Constant-acceleration extrapolation over `t` seconds. */
  function Predict(pos: Vec2, vel: Vec2, acc: Vec2, t: real): (r: Vec2)
    ensures t == 0.0 ==> r == pos
    ensures acc == ZERO ==> r == pos.Plus(vel.Scale(t))
  {
    pos.Plus(vel.Scale(t)).Plus(acc.Scale(0.5 * t * t))
  }

  /** Predict is a genuine constant-acceleration flow: predicting over t1 + t2 is predicting
      over t1 and then over t2 from the predicted position and velocity. */
  lemma PredictComposes(pos: Vec2, vel: Vec2, acc: Vec2, t1: real, t2: real)
    ensures Predict(pos, vel, acc, t1 + t2)
         == Predict(Predict(pos, vel, acc, t1), vel.Plus(acc.Scale(t1)), acc, t2)
  {
    AxisComposes(pos.x, vel.x, acc.x, t1, t2);
    AxisComposes(pos.y, vel.y, acc.y, t1, t2);
  }

  lemma AxisComposes(p: real, v: real, a: real, t1: real, t2: real)
    ensures p + (t1 + t2) * v + (0.5 * (t1 + t2) * (t1 + t2)) * a
         == (p + t1 * v + (0.5 * t1 * t1) * a) + t2 * (v + t1 * a) + (0.5 * t2 * t2) * a
  {
    calc {
      (0.5 * (t1 + t2) * (t1 + t2)) * a;
      (0.5 * t1 * t1) * a + t1 * t2 * a + (0.5 * t2 * t2) * a;
    }
  }

  /** The aim error on one axis, from its two draws. */
  function ScatterError(u1: real, u2: real): (e: real)
    ensures e == 0.0 <==> u1 + u2 == TIME_DELAY as real
    ensures e > 0.0 <==> u1 + u2 > TIME_DELAY as real
  {
    (u1 + u2 - TIME_DELAY as real) * MAX_SCATTER_DISTANCE as real
  }

  /** Draws from [0, TIME_DELAY] keep the error within TIME_DELAY * MAX_SCATTER_DISTANCE
      of the prediction; draws that sum to TIME_DELAY give no error at all. */
  lemma ScatterBound(u1: real, u2: real)
    requires 0.0 <= u1 <= TIME_DELAY as real && 0.0 <= u2 <= TIME_DELAY as real
    ensures -(TIME_DELAY * MAX_SCATTER_DISTANCE) as real <= ScatterError(u1, u2)
    ensures ScatterError(u1, u2) <= (TIME_DELAY * MAX_SCATTER_DISTANCE) as real
    ensures ScatterError(u1, u2) == 0.0 <==> u1 + u2 == TIME_DELAY as real
  {
  }

  class Turret {
    const shotDelay: real
    const volley: nat
    var nextShotTick: real

    constructor ()
      ensures shotDelay == SHOT_DELAY && volley == VOLLEY_SIZE
      ensures nextShotTick == TIME_DELAY_IN_TICKS as real
    {
      shotDelay := SHOT_DELAY;
      volley := VOLLEY_SIZE;
      nextShotTick := TIME_DELAY_IN_TICKS as real;
    }

    /** The firing decision: never before the delayed information exists, whatever
        `nextShotTick` holds; from then on, as soon as the next shot is due. */
    function ShouldShoot(tick: int): (fire: bool)
      reads this`nextShotTick
      ensures tick < TIME_DELAY_IN_TICKS ==> !fire
      ensures tick >= TIME_DELAY_IN_TICKS ==> (fire <==> tick as real >= nextShotTick)
    {
      if tick < TIME_DELAY_IN_TICKS then false
      else if tick as real >= nextShotTick then true
      else false
    }

    /** Aim from a delayed snapshot of the target: the constant-acceleration prediction over
        TOTAL_DELAY plus the per-axis scatter error, and the tick the projectile arrives. */
    static function Aim(tick: int, targetPos: Vec2, targetVelocity: Vec2, targetAcceleration: Vec2,
                        draw: Scatter): (r: AimPoint)
      ensures r.arrival == (tick + TIME_DELAY_IN_TICKS) as real
      ensures r.arrival > tick as real
    {
      var predicted := Predict(targetPos, targetVelocity, targetAcceleration, TOTAL_DELAY);
      var errorX := ScatterError(draw.x1, draw.x2);
      var errorY := ScatterError(draw.y1, draw.y2);
      AimPoint(predicted.x + errorX, predicted.y + errorY,
               tick as real + TIME_DELAY_IN_TICKS as real / PROJECTILE_SPEED as real)
    }

    /** Create the projectile for one aim point. */
    method Shoot(x: real, y: real, arrival: real) returns (p: Projectile)
      ensures fresh(p)
      ensures p.position == Vec2(x, y) && p.arrival == arrival && p.status == Live
      ensures p.radius == PROJECTILE_RADIUS
    {
      p := new Projectile(x, y, arrival);
    }
  }

  /** The aim point lies within the scatter bound of the prediction on each axis. */
  lemma AimWithinScatter(tick: int, pos: Vec2, vel: Vec2, acc: Vec2, draw: Scatter)
    requires draw.InRange()
    ensures var r, p := Turret.Aim(tick, pos, vel, acc, draw), Predict(pos, vel, acc, TOTAL_DELAY);
      -(TIME_DELAY * MAX_SCATTER_DISTANCE) as real <= r.x - p.x <= (TIME_DELAY * MAX_SCATTER_DISTANCE) as real &&
      -(TIME_DELAY * MAX_SCATTER_DISTANCE) as real <= r.y - p.y <= (TIME_DELAY * MAX_SCATTER_DISTANCE) as real
  {
    ScatterBound(draw.x1, draw.x2);
    ScatterBound(draw.y1, draw.y2);
  }

  /** With draws that cancel, the aim point is exactly the prediction. */
  lemma AimCentred(tick: int, pos: Vec2, vel: Vec2, acc: Vec2, draw: Scatter)
    requires draw.x1 + draw.x2 == TIME_DELAY as real && draw.y1 + draw.y2 == TIME_DELAY as real
    ensures var r := Turret.Aim(tick, pos, vel, acc, draw);
      Vec2(r.x, r.y) == Predict(pos, vel, acc, TOTAL_DELAY)
  {
  }

  /** A stationary target is aimed at where it stands; fired on tick 60, the projectile
      arrives on tick 120. */
  lemma AimAtStationaryTarget(pos: Vec2, draw: Scatter)
    requires draw.x1 + draw.x2 == TIME_DELAY as real && draw.y1 + draw.y2 == TIME_DELAY as real
    ensures Turret.Aim(60, pos, ZERO, ZERO, draw) == AimPoint(pos.x, pos.y, 120.0)
  {
  }

  /** A target moving at (100, 0) with no acceleration is led by 200 along x: its velocity
      times the total delay of two seconds. */
  lemma AimLeadsConstantVelocity(tick: int, pos: Vec2, draw: Scatter)
    requires draw.x1 + draw.x2 == TIME_DELAY as real && draw.y1 + draw.y2 == TIME_DELAY as real
    ensures var r := Turret.Aim(tick, pos, Vec2(100.0, 0.0), ZERO, draw);
      r.x == pos.x + 200.0 && r.y == pos.y
  {
  }
}
