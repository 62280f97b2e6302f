/**
 * The few GLSL built-ins the card's fragment shader uses, over exact reals:
 * vec2/vec3/vec4 values, the `.rgb` swizzle, component-wise `*`, `dot`
 * and `mix`. GLSL evaluates these in single-precision floating point; here
 * every operation is exact.
 */
module Glsl {

  /** A GLSL vec2: texture coordinates and the pointer position. */
  datatype Vec2 = Vec2(x: real, y: real)

  /** A GLSL vec3 used as an RGB colour. */
  datatype Vec3 = Vec3(r: real, g: real, b: real)

  /** A GLSL vec4 used as an RGBA colour (a texture sample or gl_FragColor). */
  datatype Vec4 = Vec4(r: real, g: real, b: real, a: real) {
    /** The `.rgb` swizzle. */
    function Rgb(): Vec3 {
      Vec3(r, g, b)
    }
  }

  predicate InUnit(x: real) {
    0.0 <= x <= 1.0
  }

  /** Every channel of an RGB colour lies in [0,1]. */
  predicate UnitRgb(c: Vec3) {
    InUnit(c.r) && InUnit(c.g) && InUnit(c.b)
  }

  /** Every channel of an RGBA colour lies in [0,1]. */
  predicate UnitRgba(c: Vec4) {
    UnitRgb(c.Rgb()) && InUnit(c.a)
  }

  function Min(a: real, b: real): real {
    if a <= b then a else b
  }

  function Max(a: real, b: real): real {
    if a <= b then b else a
  }

  function Abs(x: real): real {
    if x < 0.0 then -x else x
  }

  /** GLSL `mix(x, y, a)`: linear interpolation x*(1-a) + y*a. */
  function Mix(x: real, y: real, a: real): (r: real)
    ensures a == 0.0 ==> r == x
    ensures a == 1.0 ==> r == y
    ensures x == y ==> r == x
  {
    x * (1.0 - a) + y * a
  }

  /** GLSL `mix` on vec3, applied channel by channel with one weight. */
  function Mix3(x: Vec3, y: Vec3, a: real): (v: Vec3)
    ensures a == 0.0 ==> v == x
    ensures a == 1.0 ==> v == y
  {
    Vec3(Mix(x.r, y.r, a), Mix(x.g, y.g, a), Mix(x.b, y.b, a))
  }

  /** GLSL `*` on two vec3 values: the component-wise product. */
  function Mul3(v: Vec3, w: Vec3): (p: Vec3)
    ensures w == Vec3(1.0, 1.0, 1.0) ==> p == v
    ensures w.r == 0.0 ==> p.r == 0.0
    ensures w.g == 0.0 ==> p.g == 0.0
    ensures w.b == 0.0 ==> p.b == 0.0
  {
    Vec3(v.r * w.r, v.g * w.g, v.b * w.b)
  }

  /** GLSL `dot` on vec3; a zero vector on either side gives 0. */
  function Dot(v: Vec3, w: Vec3): (d: real)
    ensures v == Vec3(0.0, 0.0, 0.0) ==> d == 0.0
    ensures w == Vec3(0.0, 0.0, 0.0) ==> d == 0.0
  {
    v.r * w.r + v.g * w.g + v.b * w.b
  }

  /** The interpolant moves from x by the fraction a of the way to y. */
  lemma MixOffset(x: real, y: real, a: real)
    ensures Mix(x, y, a) - x == a * (y - x)
    ensures Mix(x, y, a) - y == (1.0 - a) * (x - y)
  {
  }

  /** With a weight in [0,1] the interpolant lies between its two ends. */
  lemma MixBetween(x: real, y: real, a: real)
    requires InUnit(a)
    ensures Min(x, y) <= Mix(x, y, a) <= Max(x, y)
  {
    MixOffset(x, y, a);
    if x <= y {
      ScaleBetween(a, y - x);
    } else {
      ScaleBetween(a, x - y);
    }
  }

  /** Scaling a non-negative amount by a weight in [0,1] does not enlarge it. */
  lemma ScaleBetween(a: real, d: real)
    requires InUnit(a) && 0.0 <= d
    ensures 0.0 <= a * d <= d
  {
    assert (1.0 - a) * d >= 0.0;
  }

  /** The product of two non-negative numbers is non-negative. */
  lemma MulNonNegative(a: real, b: real)
    requires 0.0 <= a && 0.0 <= b
    ensures 0.0 <= a * b
  {
  }

  /** Mixing two values of [0,1] with a weight in [0,1] stays in [0,1]. */
  lemma MixInUnit(x: real, y: real, a: real)
    requires InUnit(x) && InUnit(y) && InUnit(a)
    ensures InUnit(Mix(x, y, a))
  {
    MixBetween(x, y, a);
  }

  /** Channel-wise form of MixInUnit. */
  lemma Mix3InUnit(x: Vec3, y: Vec3, a: real)
    requires UnitRgb(x) && UnitRgb(y) && InUnit(a)
    ensures UnitRgb(Mix3(x, y, a))
  {
    MixInUnit(x.r, y.r, a);
    MixInUnit(x.g, y.g, a);
    MixInUnit(x.b, y.b, a);
  }
}
