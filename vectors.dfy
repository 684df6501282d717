/** Two-dimensional vectors over exact reals, standing in for pygame's Vector2. */
module Vectors {
  datatype Vec2 = Vec2(x: real, y: real) {
    function Plus(other: Vec2): Vec2 {
      Vec2(x + other.x, y + other.y)
    }

    function Scale(k: real): Vec2 {
      Vec2(k * x, k * y)
    }

    /** The squared length; comparisons of lengths are done on squares, so no square root is needed. */
    function Norm2(): real {
      x * x + y * y
    }
  }

  const ZERO := Vec2(0.0, 0.0)

  /** The squared Euclidean distance between two points. */
  function Dist2(a: Vec2, b: Vec2): (d: real)
    ensures d >= 0.0
    ensures a == b ==> d == 0.0
  {
    var dx := a.x - b.x;
    var dy := a.y - b.y;
    assert dx * dx >= 0.0 && dy * dy >= 0.0;
    dx * dx + dy * dy
  }
}
