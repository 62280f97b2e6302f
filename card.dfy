/**
 * The card's per-frame callback: it forwards the pointer and rarity to the
 * material's uniforms and eases the mesh's rotation toward a target that
 * follows the pointer while the card is hovered and is neutral otherwise.
 * The step is the literal `angle += (target - angle) * (delta * 5)`, with
 * no clamp on the factor and no guard on `delta`.
 */
module CardMotion {
  import opened Glsl

  /** Rate constant: the damping factor of a frame is `delta * DampRate`. */
  const DampRate: real := 5.0

  /** A delta of at most 0.2 seconds gives a factor that is a fraction of [0,1]. */
  function DampFactor(delta: real): (k: real)
    ensures 0.0 <= delta <= 0.2 ==> InUnit(k)
  {
    delta * DampRate
  }

  /**
   * The rotation the mesh eases toward: pitch follows the pointer's y
   * (inverted) and yaw its x, both at half scale; neutral when not hovered.
   * While hovered the pointer can be read back from the target.
   */
  function TargetRotation(hovered: bool, pointer: Vec2): (t: Vec2)
    ensures !hovered ==> t == Vec2(0.0, 0.0)
    ensures hovered ==> pointer == Vec2(2.0 * t.y, -2.0 * t.x)
  {
    if hovered then Vec2(pointer.y * -0.5, pointer.x * 0.5) else Vec2(0.0, 0.0)
  }

  /**
   * One frame's update of one rotation angle: an angle at its target stays
   * there, and a zero delta moves nothing.
   */
  function Step(angle: real, target: real, delta: real): (r: real)
    ensures angle == target ==> r == target
    ensures delta == 0.0 ==> r == angle
  {
    angle + (target - angle) * DampFactor(delta)
  }

  /**
   * The angle after n frames toward a fixed target with a fixed delta. An
   * angle that starts at the target never leaves it, and with a zero delta
   * the angle never moves.
   */
  function Iterate(angle: real, target: real, delta: real, n: nat): (r: real)
    ensures angle == target ==> r == target
    ensures delta == 0.0 ==> r == angle
  {
    if n == 0 then angle else Step(Iterate(angle, target, delta, n - 1), target, delta)
  }

  /** A frame count as a real number. */
  function Frames(n: nat): (r: real)
    ensures r == n as real
  {
    if n == 0 then 0.0 else Frames(n - 1) + 1.0
  }

  function Pow(x: real, n: nat): real {
    if n == 0 then 1.0 else x * Pow(x, n - 1)
  }

  /** A pointer in [-1,1]^2 gives target angles in [-0.5, 0.5]. */
  lemma TargetBounds(hovered: bool, pointer: Vec2)
    requires -1.0 <= pointer.x <= 1.0 && -1.0 <= pointer.y <= 1.0
    ensures Abs(TargetRotation(hovered, pointer).x) <= 0.5
    ensures Abs(TargetRotation(hovered, pointer).y) <= 0.5
  {
  }

  /** The remaining distance to the target shrinks by the factor 1 - 5*delta. */
  lemma StepRemaining(angle: real, target: real, delta: real)
    ensures Step(angle, target, delta) - target == (1.0 - DampFactor(delta)) * (angle - target)
    ensures Step(angle, target, delta) - angle == DampFactor(delta) * (target - angle)
  {
  }

  /**
   * An angle stays where it is exactly when it is already at the target or
   * the frame's delta is zero.
   */
  lemma StepFixedPoint(angle: real, target: real, delta: real)
    ensures Step(angle, target, delta) == angle <==> (angle == target || delta == 0.0)
  {
    StepRemaining(angle, target, delta);
    if Step(angle, target, delta) == angle && angle != target {
      assert DampFactor(delta) * (target - angle) == 0.0;
    }
  }

  /**
   * With 0 <= 5*delta <= 1 the new angle lies between the old angle and
   * the target (no overshoot, no jump past the target), and its distance to
   * the target is exactly (1 - 5*delta) times the old distance.
   */
  lemma StepNoOvershoot(angle: real, target: real, delta: real)
    requires InUnit(DampFactor(delta))
    ensures Min(angle, target) <= Step(angle, target, delta) <= Max(angle, target)
    ensures Abs(Step(angle, target, delta) - target) == (1.0 - DampFactor(delta)) * Abs(angle - target)
    ensures Abs(Step(angle, target, delta) - angle) <= Abs(target - angle)
  {
    var k := DampFactor(delta);
    assert Step(angle, target, delta) == Mix(angle, target, k);
    MixBetween(angle, target, k);
    StepRemaining(angle, target, delta);
    if angle < target {
      assert (1.0 - k) * (angle - target) <= 0.0 by { ScaleBetween(1.0 - k, target - angle); }
    } else {
      assert (1.0 - k) * (angle - target) >= 0.0 by { ScaleBetween(1.0 - k, angle - target); }
    }
  }

  /**
   * With 5*delta > 1 the literal step carries the angle past its target,
   * from either side.
   */
  lemma StepOvershootsWhenFactorAboveOne(angle: real, target: real, delta: real)
    requires DampFactor(delta) > 1.0 && angle != target
    ensures angle < target ==> Step(angle, target, delta) > target
    ensures angle > target ==> Step(angle, target, delta) < target
  {
    StepRemaining(angle, target, delta);
    var e := DampFactor(delta) - 1.0;
    if angle < target {
      assert e * (target - angle) > 0.0;
    } else {
      assert e * (angle - target) > 0.0;
    }
  }

  /**
   * With 0 < 5*delta <= 1 an angle off its target gets strictly closer to
   * it every frame.
   */
  lemma StepStrictlyApproaches(angle: real, target: real, delta: real)
    requires 0.0 < DampFactor(delta) <= 1.0 && angle != target
    ensures Abs(Step(angle, target, delta) - target) < Abs(angle - target)
  {
    StepNoOvershoot(angle, target, delta);
    var k, d := DampFactor(delta), Abs(angle - target);
    assert k * d > 0.0;
    assert (1.0 - k) * d == d - k * d;
  }

  /**
   * delta = 0.1 while hovered with the pointer at (1,-1), starting from
   * (0,0): the target is (0.5, 0.5), the factor 0.5, the rotation (0.25, 0.25).
   */
  lemma WorkedStep()
    ensures TargetRotation(true, Vec2(1.0, -1.0)) == Vec2(0.5, 0.5)
    ensures DampFactor(0.1) == 0.5
    ensures Step(0.0, TargetRotation(true, Vec2(1.0, -1.0)).x, 0.1) == 0.25
    ensures Step(0.0, TargetRotation(true, Vec2(1.0, -1.0)).y, 0.1) == 0.25
  {
  }

  /** Without hover, an angle relaxes toward 0 and never grows in size. */
  lemma RelaxTowardNeutral(angle: real, pointer: Vec2, delta: real)
    requires InUnit(DampFactor(delta))
    ensures Abs(Step(angle, TargetRotation(false, pointer).x, delta)) <= Abs(angle)
    ensures Abs(Step(angle, TargetRotation(false, pointer).y, delta)) <= Abs(angle)
  {
    StepNoOvershoot(angle, 0.0, delta);
  }

  /**
   * With 0 <= 5*delta <= 1, over any number of frames an angle starting
   * below (above) the target stays between its start and the target and
   * moves monotonically toward it.
   */
  lemma {:induction false} IterateApproaches(angle: real, target: real, delta: real, n: nat)
    requires InUnit(DampFactor(delta))
    ensures Min(angle, target) <= Iterate(angle, target, delta, n) <= Max(angle, target)
    ensures Abs(Iterate(angle, target, delta, n + 1) - target)
         <= Abs(Iterate(angle, target, delta, n) - target)
  {
    if n > 0 {
      IterateApproaches(angle, target, delta, n - 1);
      StepNoOvershoot(Iterate(angle, target, delta, n - 1), target, delta);
    }
    var cur := Iterate(angle, target, delta, n);
    StepNoOvershoot(cur, target, delta);
    ScaleBetween(1.0 - DampFactor(delta), Abs(cur - target));
  }

  /** A distance e scaled by q on each of n frames. */
  function Decay(e: real, q: real, n: nat): real {
    if n == 0 then e else q * Decay(e, q, n - 1)
  }

  /** After n frames the signed distance to the target is the first one scaled n times by 1 - 5*delta. */
  lemma {:induction false} IterateRemaining(angle: real, target: real, delta: real, n: nat)
    ensures Iterate(angle, target, delta, n) - target
         == Decay(angle - target, 1.0 - DampFactor(delta), n)
  {
    if n > 0 {
      IterateRemaining(angle, target, delta, n - 1);
      StepRemaining(Iterate(angle, target, delta, n - 1), target, delta);
    }
  }

  /** Scaling n times by q is scaling once by q^n. */
  lemma {:induction false} DecayClosedForm(e: real, q: real, n: nat)
    ensures Decay(e, q, n) == Pow(q, n) * e
  {
    if n > 0 {
      DecayClosedForm(e, q, n - 1);
      assert q * (Pow(q, n - 1) * e) == (q * Pow(q, n - 1)) * e;
    }
  }

  /** After n frames the distance to the target is (1 - 5*delta)^n times the first. */
  lemma IterateClosedForm(angle: real, target: real, delta: real, n: nat)
    ensures Iterate(angle, target, delta, n) - target
         == Pow(1.0 - DampFactor(delta), n) * (angle - target)
  {
    IterateRemaining(angle, target, delta, n);
    DecayClosedForm(angle - target, 1.0 - DampFactor(delta), n);
  }

  /** Powers of a fraction of [0,1] stay in [0,1]. */
  lemma {:induction false} PowInUnit(q: real, n: nat)
    requires InUnit(q)
    ensures InUnit(Pow(q, n))
  {
    if n > 0 {
      PowInUnit(q, n - 1);
      ScaleBetween(q, Pow(q, n - 1));
    }
  }

  /**
   * The induction step of PowDecay, on plain numbers: the product grows by
   * (1-k)(1+(m+1)k) / (1+mk), and the excess is -k^2 p (m+1) <= 0.
   */
  lemma DecayStep(k: real, p: real, m: real)
    requires InUnit(k) && 0.0 <= p && 0.0 <= m && p * (1.0 + m * k) <= 1.0
    ensures (1.0 - k) * p * (1.0 + (m + 1.0) * k) <= 1.0
  {
    MulNonNegative(k * k, p * (m + 1.0));
  }

  /** For k in [0,1], (1-k)^n (1 + n k) <= 1: the n-th power falls like 1/(1 + n k). */
  lemma {:induction false} PowDecay(k: real, n: nat)
    requires InUnit(k)
    ensures Pow(1.0 - k, n) * (1.0 + Frames(n) * k) <= 1.0
  {
    if n > 0 {
      PowDecay(k, n - 1);
      PowInUnit(1.0 - k, n - 1);
      DecayStep(k, Pow(1.0 - k, n - 1), Frames(n - 1));
    }
  }

  /** The facts about (1-k)^n that DecayBound uses. */
  lemma PowBound(k: real, n: nat)
    requires InUnit(k)
    ensures 0.0 <= Pow(1.0 - k, n) && 0.0 <= 1.0 + Frames(n) * k
    ensures Pow(1.0 - k, n) * (1.0 + Frames(n) * k) <= 1.0
  {
    PowInUnit(1.0 - k, n);
    PowDecay(k, n);
    MulNonNegative(Frames(n), k);
  }

  /** A distance scaled by p, with p m <= 1, times m is at most the original, on plain numbers. */
  lemma ScaledBelow(x: real, p: real, e: real, m: real)
    requires x == p * e && 0.0 <= p && 0.0 <= m && p * m <= 1.0
    ensures Abs(x) * m <= Abs(e)
  {
    if e < 0.0 {
      MulNonNegative(p, -e);
      MulNonNegative(-e, 1.0 - p * m);
    } else {
      MulNonNegative(p, e);
      MulNonNegative(e, 1.0 - p * m);
    }
  }

  /** A distance decayed n times by 1 - k is at most the first over 1 + n k. */
  lemma DecayBound(e: real, k: real, n: nat)
    requires InUnit(k)
    ensures Abs(Decay(e, 1.0 - k, n)) * (1.0 + Frames(n) * k) <= Abs(e)
  {
    DecayClosedForm(e, 1.0 - k, n);
    PowBound(k, n);
    ScaledBelow(Decay(e, 1.0 - k, n), Pow(1.0 - k, n), e, 1.0 + Frames(n) * k);
  }

  /** DecayBound for any value x equal to the decayed distance. */
  lemma DecayBoundAt(x: real, e: real, k: real, n: nat)
    requires InUnit(k) && x == Decay(e, 1.0 - k, n)
    ensures Abs(x) * (1.0 + Frames(n) * k) <= Abs(e)
  {
    DecayBound(e, k, n);
  }

  /**
   * With 0 <= 5*delta <= 1, after n frames the distance to the target is at
   * most the first distance divided by 1 + 5*delta*n.
   */
  lemma IterateDecay(angle: real, target: real, delta: real, n: nat)
    requires InUnit(DampFactor(delta))
    ensures Abs(Iterate(angle, target, delta, n) - target) * (1.0 + Frames(n) * DampFactor(delta))
         <= Abs(angle - target)
  {
    IterateRemaining(angle, target, delta, n);
    DecayBoundAt(Iterate(angle, target, delta, n) - target, angle - target, DampFactor(delta), n);
  }

  /** A distance r with r (1 + f k) <= d < f k eps is below eps, on plain numbers. */
  lemma BelowEps(r: real, f: real, k: real, d: real, eps: real)
    requires 0.0 <= r && 0.0 <= f && 0.0 < k && 0.0 < eps
    requires r * (1.0 + f * k) <= d && d < f * k * eps
    ensures r < eps
  {
    if r >= eps {
      MulNonNegative(f, k);
      MulNonNegative(1.0 + f * k, r - eps);
    }
  }

  /** Once n k eps exceeds the first distance, a decayed distance is below eps. */
  lemma DecaySmall(e: real, k: real, eps: real, n: nat)
    requires 0.0 < k <= 1.0 && 0.0 < eps
    requires Abs(e) < Frames(n) * k * eps
    ensures Abs(Decay(e, 1.0 - k, n)) < eps
  {
    DecayBound(e, k, n);
    BelowEps(Abs(Decay(e, 1.0 - k, n)), Frames(n), k, Abs(e), eps);
  }

  /**
   * With 0 < 5*delta <= 1, once n * 5*delta * eps exceeds the first distance
   * the angle is within eps of its target.
   */
  lemma ConvergedAfter(angle: real, target: real, delta: real, eps: real, n: nat)
    requires 0.0 < DampFactor(delta) <= 1.0 && 0.0 < eps
    requires Abs(angle - target) < Frames(n) * DampFactor(delta) * eps
    ensures Abs(Iterate(angle, target, delta, n) - target) < eps
  {
    IterateRemaining(angle, target, delta, n);
    DecaySmall(angle - target, DampFactor(delta), eps, n);
  }

  /** Products of positive numbers are positive; used by Archimedes and IterateConverges. */
  lemma MulPositive(a: real, b: real)
    requires 0.0 < a && 0.0 < b
    ensures 0.0 < a * b
  {
  }

  /** The sign of d / c, on plain numbers: the frame bound in IterateConverges is a nat. */
  lemma DivNonNegative(d: real, c: real)
    requires 0.0 <= d && 0.0 < c
    ensures 0.0 <= d / c
  {
  }

  /** Any n past the floor of d / c has n c > d, on plain numbers. */
  lemma Archimedes(d: real, c: real, n: nat)
    requires 0.0 < c && (d / c).Floor < n
    ensures d < n as real * c
  {
    var x := d / c;
    assert x * c == d;
    MulPositive(n as real - x, c);
  }

  /**
   * With 0 < 5*delta <= 1 the angle converges to the target: for every
   * eps > 0 there is a frame count N after which it stays within eps.
   */
  lemma IterateConverges(angle: real, target: real, delta: real, eps: real) returns (N: nat)
    requires 0.0 < DampFactor(delta) <= 1.0 && 0.0 < eps
    ensures forall n: nat :: N <= n ==> Abs(Iterate(angle, target, delta, n) - target) < eps
  {
    var c := DampFactor(delta) * eps;
    MulPositive(DampFactor(delta), eps);
    DivNonNegative(Abs(angle - target), c);
    N := (Abs(angle - target) / c).Floor + 1;
    forall n: nat | N <= n
      ensures Abs(Iterate(angle, target, delta, n) - target) < eps
    {
      Archimedes(Abs(angle - target), c, n);
      ConvergedAfter(angle, target, delta, eps, n);
    }
  }

  /** The mesh whose rotation the callback eases; three.js starts it at (0,0). */
  class Mesh {
    var rotX: real
    var rotY: real

    constructor ()
      ensures rotX == 0.0 && rotY == 0.0
    {
      rotX, rotY := 0.0, 0.0;
    }
  }

  /** The card material's per-frame uniforms. */
  class Material {
    var uMouse: Vec2
    var uRarity: real

    /** Mounted with the pointer uniform at (0,0) and the rarity prop. */
    constructor (rarity: real)
      ensures uMouse == Vec2(0.0, 0.0) && uRarity == rarity
    {
      uMouse, uRarity := Vec2(0.0, 0.0), rarity;
    }
  }

  /**
   * The card component: its hover state and the references to its mesh
   * and material, either of which may not be mounted yet (null).
   */
  class Card {
    var hovered: bool
    const mesh: Mesh?
    const material: Material?

    constructor (mesh: Mesh?, material: Material?)
      ensures this.mesh == mesh && this.material == material && !hovered
    {
      this.mesh, this.material := mesh, material;
      hovered := false;
    }

    /** The pointer enters the mesh. */
    method PointerOver()
      modifies this
      ensures hovered
    {
      hovered := true;
    }

    /** The pointer leaves the mesh. */
    method PointerOut()
      modifies this
      ensures !hovered
    {
      hovered := false;
    }

    /**
     * One frame: forward the pointer and rarity to a mounted material, and
     * step a mounted mesh's rotation toward the target on both axes.
     */
    method Frame(delta: real, pointer: Vec2, rarity: real)
      modifies material, mesh
      ensures material != null ==> material.uMouse == pointer && material.uRarity == rarity
      ensures mesh != null ==>
                var target := TargetRotation(hovered, pointer);
                && mesh.rotX == Step(old(mesh.rotX), target.x, delta)
                && mesh.rotY == Step(old(mesh.rotY), target.y, delta)
    {
      if material != null {
        material.uMouse := pointer;
        material.uRarity := rarity;
      }
      if mesh != null {
        var targetRotationX := 0.0;
        var targetRotationY := 0.0;
        if hovered {
          targetRotationX := pointer.y * -0.5;
          targetRotationY := pointer.x * 0.5;
        }
        var damp := delta * 5.0;
        mesh.rotX := mesh.rotX + (targetRotationX - mesh.rotX) * damp;
        mesh.rotY := mesh.rotY + (targetRotationY - mesh.rotY) * damp;
      }
    }
  }

  /** The worked frame of WorkedStep, driven through the card's methods. */
  method WorkedFrame() returns (rotation: Vec2)
    ensures rotation == Vec2(0.25, 0.25)
  {
    var mesh := new Mesh();
    var card := new Card(mesh, null);
    card.PointerOver();
    card.Frame(0.1, Vec2(1.0, -1.0), 2.0);
    rotation := Vec2(mesh.rotX, mesh.rotY);
  }
}
