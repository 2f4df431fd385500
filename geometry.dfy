/** Plane geometry over the reals, standing in for the p5.Vector operations
    the sketch uses (copy/add/sub/mult/div and distances). */
module Geometry {

  /** A 2D point or displacement. */
  datatype Vec = Vec(x: real, y: real)

  const ZERO: Vec := Vec(0.0, 0.0)

  function Add(u: Vec, v: Vec): Vec {
    Vec(u.x + v.x, u.y + v.y)
  }

  function Sub(u: Vec, v: Vec): Vec {
    Vec(u.x - v.x, u.y - v.y)
  }

  function Scale(u: Vec, s: real): Vec {
    Vec(u.x * s, u.y * s)
  }

  /** Squared Euclidean distance; comparing it with a squared radius decides
      the same questions as comparing `Math.hypot`/`dist` with the radius. */
  function DistSq(u: Vec, v: Vec): (d: real)
    ensures d >= 0.0
    ensures u == v ==> d == 0.0
  {
    (u.x - v.x) * (u.x - v.x) + (u.y - v.y) * (u.y - v.y)
  }

  /** The midpoint of a segment (`getMiddlePoint`): the point that is as far
      from one end as the other end is from it. */
  function Midpoint(u: Vec, v: Vec): (m: Vec)
    ensures Sub(m, u) == Sub(v, m)
    ensures Add(m, m) == Add(u, v)
  {
    Vec((u.x + v.x) / 2.0, (u.y + v.y) / 2.0)
  }

  /** `dist(u, v) <= r`, decided without a square root: the distance is never
      negative, so it is at most `r` exactly when `r` is not negative and the
      squared distance is at most `r * r`. */
  predicate WithinRadius(u: Vec, v: Vec, r: real) {
    0.0 <= r && DistSq(u, v) <= r * r
  }
}
