/**
 * The per-particle physics of one animation frame: a repulsion from the pointer that fades out
 * at the repel radius, a spring back to the particle's origin, velocity damping and an explicit
 * Euler position update. Numbers are idealised as mathematical reals.
 */
module Physics {
  import opened Particles

  /** The tuning of the frame loop: repel radius, spring strength and damping factor. */
  datatype Config = Config(repelRadius: real, returnForce: real, damping: real)

  /** The pointer coordinate used while no pointer is over the canvas. */
  const Sentinel: real := -9999.0

  /** The repulsion at factor 1 moves a particle by one twentieth of its offset from the pointer. */
  const PushDivisor: real := 20.0

  /**
   * The strength of the repulsion at squared distance dist2 inside a squared radius r2: it
   * falls linearly from 1 at the pointer to 0 at the radius, and never reaches 0 inside it.
   */
  function Falloff(dist2: real, r2: real): (f: real)
    requires 0.0 <= dist2 < r2
    ensures 0.0 < f <= 1.0
    ensures f == 1.0 <==> dist2 == 0.0
  {
    (r2 - dist2) / r2
  }

  /** The falloff decreases strictly as the particle moves away from the pointer. */
  lemma FalloffDecreasing(d1: real, d2: real, r2: real)
    requires 0.0 <= d1 < d2 < r2
    ensures Falloff(d2, r2) < Falloff(d1, r2)
  {
    assert Falloff(d1, r2) - Falloff(d2, r2) == (d2 - d1) / r2;
  }

  /** The square of a: never negative, and zero for zero. */
  function Sq(a: real): (r: real)
    ensures r >= 0.0
    ensures a == 0.0 ==> r == 0.0
  {
    SquareSign(a);
    a * a
  }

  lemma SquareSign(a: real)
    ensures a * a >= 0.0
    ensures a == 0.0 ==> a * a == 0.0
  {
    if a < 0.0 {
      assert a * a == (-a) * (-a);
    }
  }

  /** The squared distance from the pointer (mx, my) to the point (px, py): zero on the pointer. */
  function Dist2(px: real, py: real, mx: real, my: real): (d: real)
    ensures d >= 0.0
    ensures px == mx && py == my ==> d == 0.0
  {
    Sq(px - mx) + Sq(py - my)
  }

  /**
   * The velocity change the pointer at (mx, my) gives a particle at (px, py): its offset from
   * the pointer scaled by Falloff / 20 when strictly inside the repel radius, and nothing at
   * or beyond the radius.
   */
  function Repulsion(px: real, py: real, mx: real, my: real, repelRadius: real): (push: (real, real))
    ensures Dist2(px, py, mx, my) >= Sq(repelRadius) ==> push == (0.0, 0.0)
  {
    var dx := px - mx;
    var dy := py - my;
    var dist2 := Dist2(px, py, mx, my);
    var r2 := Sq(repelRadius);
    if dist2 < r2 then
      var force := Falloff(dist2, r2);
      ((dx / PushDivisor) * force, (dy / PushDivisor) * force)
    else
      (0.0, 0.0)
  }

  /**
   * Inside the radius the push points straight away from the pointer (it is a non-negative
   * multiple of the offset), is no longer than a twentieth of the distance, and is non-zero
   * unless the particle sits exactly on the pointer.
   */
  lemma RepulsionInside(px: real, py: real, mx: real, my: real, repelRadius: real)
    requires Dist2(px, py, mx, my) < Sq(repelRadius)
    ensures var push := Repulsion(px, py, mx, my, repelRadius);
            push.0 * (py - my) == push.1 * (px - mx)
    ensures var push := Repulsion(px, py, mx, my, repelRadius);
            push.0 * (px - mx) >= 0.0 && push.1 * (py - my) >= 0.0
    ensures var push := Repulsion(px, py, mx, my, repelRadius);
            Sq(push.0) + Sq(push.1) <= Dist2(px, py, mx, my) / 400.0
    ensures Repulsion(px, py, mx, my, repelRadius) == (0.0, 0.0) <==> px == mx && py == my
  {
    var f := Falloff(Dist2(px, py, mx, my), Sq(repelRadius));
    var dx, dy := px - mx, py - my;
    assert Repulsion(px, py, mx, my, repelRadius).0 == (dx / PushDivisor) * f;
    assert Repulsion(px, py, mx, my, repelRadius).1 == (dy / PushDivisor) * f;
    PushAlong(f, dx);
    PushAlong(f, dy);
    PushCollinear(f, dx, dy);
    assert Dist2(px, py, mx, my) / 400.0 == Sq(dx) / 400.0 + Sq(dy) / 400.0;
  }

  /** Along one axis, a push (a / 20)·f with 0 < f <= 1 has the sign of a, is zero only for zero a, and has at most a twentieth of a's size. */
  lemma PushAlong(f: real, a: real)
    requires 0.0 < f <= 1.0
    ensures ((a / PushDivisor) * f) * a >= 0.0
    ensures (a / PushDivisor) * f == 0.0 <==> a == 0.0
    ensures Sq((a / PushDivisor) * f) <= Sq(a) / 400.0
  {
    var p := (a / PushDivisor) * f;
    assert p * a == (f / 20.0) * Sq(a);
    MulMonotone(Sq(a), 0.0, f / 20.0);
    if p == 0.0 {
      assert a == p * 20.0 / f;
    }
    assert Sq(p) == Sq(a) * Sq(f) / 400.0;
    assert Sq(f) <= 1.0 by {
      MulMonotone(f, f, 1.0);
    }
    MulMonotone(Sq(a), Sq(f), 1.0);
  }

  /** The two components of a push are in the ratio of the offset's components. */
  lemma PushCollinear(f: real, dx: real, dy: real)
    ensures ((dx / PushDivisor) * f) * dy == ((dy / PushDivisor) * f) * dx
  {
    assert ((dx / PushDivisor) * f) * dy == (f / 20.0) * (dx * dy);
    assert ((dy / PushDivisor) * f) * dx == (f / 20.0) * (dx * dy);
  }

  lemma MulMonotone(c: real, a: real, b: real)
    requires c >= 0.0 && a <= b
    ensures a * c <= b * c
  {
    assert b * c - a * c == (b - a) * c;
  }

  /**
   * On the pointer itself the falloff is at its maximum of 1, yet the push is zero, because the
   * push is proportional to the offset from the pointer.
   */
  lemma RepulsionAtPointer(x: real, y: real, repelRadius: real)
    requires Dist2(x, y, x, y) < Sq(repelRadius)
    ensures Falloff(Dist2(x, y, x, y), Sq(repelRadius)) == 1.0
    ensures Repulsion(x, y, x, y, repelRadius) == (0.0, 0.0)
  {
  }

  lemma SquareMonotone(a: real, b: real)
    requires 0.0 <= a <= b
    ensures a * a <= b * b
  {
    assert a * a <= a * b;
    assert a * b <= b * b;
  }

  /**
   * While the pointer is away (at the sentinel), a particle anywhere on the canvas, that is at
   * non-negative coordinates, is not pushed, provided the repel radius is below 9999·√2.
   */
  lemma SentinelNoPush(px: real, py: real, repelRadius: real)
    requires px >= 0.0 && py >= 0.0
    requires Sq(repelRadius) <= 2.0 * 9999.0 * 9999.0
    ensures Dist2(px, py, Sentinel, Sentinel) >= Sq(repelRadius)
    ensures Repulsion(px, py, Sentinel, Sentinel, repelRadius) == (0.0, 0.0)
  {
    SquareMonotone(9999.0, px - Sentinel);
    SquareMonotone(9999.0, py - Sentinel);
  }

  /**
   * The sentinel is a finite position: with a repel radius of 15000 a particle at the canvas
   * origin is pushed although no pointer is over the canvas.
   */
  lemma SentinelReachable()
    ensures Repulsion(0.0, 0.0, Sentinel, Sentinel, 15000.0).0 > 0.0
  {
    var d := Dist2(0.0, 0.0, Sentinel, Sentinel);
    assert d == 199960002.0;
    assert d < 15000.0 * 15000.0;
  }

  /**
   * One frame for one particle with the pointer at (mx, my): the new velocity is the damped sum
   * of the old velocity, the pointer's push and the spring pull towards the origin, and the
   * particle then moves by its new velocity. Origin and colour never change.
   */
  function Advance(p: Particle, mx: real, my: real, c: Config): (q: Particle)
    ensures SameSeed(q, p)
    ensures q.x == p.x + q.vx && q.y == p.y + q.vy
  {
    var push := Repulsion(p.x, p.y, mx, my, c.repelRadius);
    var vx := (p.vx + push.0 + (p.ox - p.x) * c.returnForce) * c.damping;
    var vy := (p.vy + push.1 + (p.oy - p.y) * c.returnForce) * c.damping;
    p.(x := p.x + vx, y := p.y + vy, vx := vx, vy := vy)
  }

  /**
   * The body of the frame loop for one particle, step by step: the push from the pointer when
   * strictly inside the repel radius, the spring towards the origin, the damping and the move.
   */
  method Update(p: Particle, mx: real, my: real, c: Config) returns (q: Particle)
    ensures q == Advance(p, mx, my, c)
  {
    ghost var push := Repulsion(p.x, p.y, mx, my, c.repelRadius);
    var dx := p.x - mx;
    var dy := p.y - my;
    var dist2 := Sq(dx) + Sq(dy);
    var vx, vy := p.vx, p.vy;
    if dist2 < Sq(c.repelRadius) {
      var force := (Sq(c.repelRadius) - dist2) / Sq(c.repelRadius);
      vx := vx + (dx / PushDivisor) * force;
      vy := vy + (dy / PushDivisor) * force;
    }
    assert vx == p.vx + push.0 && vy == p.vy + push.1;
    vx := vx + (p.ox - p.x) * c.returnForce;
    vy := vy + (p.oy - p.y) * c.returnForce;
    vx := vx * c.damping;
    vy := vy * c.damping;
    q := p.(x := p.x + vx, y := p.y + vy, vx := vx, vy := vy);
  }

  /**
   * A particle resting on its origin stays exactly there when the pointer does not push it:
   * when the pointer is at or beyond the repel radius, or exactly on the particle.
   */
  lemma AdvanceAtRest(p: Particle, mx: real, my: real, c: Config)
    requires AtRest(p)
    requires Dist2(p.x, p.y, mx, my) >= Sq(c.repelRadius) || (p.x == mx && p.y == my)
    ensures Advance(p, mx, my, c) == p
  {
    if Dist2(p.x, p.y, mx, my) < Sq(c.repelRadius) {
      RepulsionInside(p.x, p.y, mx, my, c.repelRadius);
    }
  }

  /** The pointer's push and the spring only change velocities; without both, damping alone acts. */
  lemma AdvanceFreeDamping(p: Particle, mx: real, my: real, c: Config)
    requires Dist2(p.x, p.y, mx, my) >= Sq(c.repelRadius)
    requires p.x == p.ox && p.y == p.oy
    ensures Advance(p, mx, my, c).vx == c.damping * p.vx
    ensures Advance(p, mx, my, c).vy == c.damping * p.vy
  {
  }

  /** The particle after n frames with the pointer held at (mx, my). */
  function Run(p: Particle, mx: real, my: real, c: Config, n: nat): (q: Particle)
    ensures SameSeed(q, p)
    decreases n
  {
    if n == 0 then p else Run(Advance(p, mx, my, c), mx, my, c, n - 1)
  }

  /**
   * One more frame is one more step at the end: n + 1 frames are n frames followed by Advance,
   * so each call of the canvas's Frame with the pointer held still extends Run by one.
   */
  lemma {:induction false} RunSucc(p: Particle, mx: real, my: real, c: Config, n: nat)
    ensures Run(p, mx, my, c, n + 1) == Advance(Run(p, mx, my, c, n), mx, my, c)
    decreases n
  {
    if n > 0 {
      RunSucc(Advance(p, mx, my, c), mx, my, c, n - 1);
    }
  }

  /** A resting particle the pointer does not reach stays at rest for any number of frames. */
  lemma {:induction false} RunAtRest(p: Particle, mx: real, my: real, c: Config, n: nat)
    requires AtRest(p)
    requires Dist2(p.x, p.y, mx, my) >= Sq(c.repelRadius)
    ensures Run(p, mx, my, c, n) == p
  {
    if n > 0 {
      AdvanceAtRest(p, mx, my, c);
      RunAtRest(p, mx, my, c, n - 1);
    }
  }

  /**
   * With the pointer away and a repel radius below 9999·√2, every resting particle of the canvas
   * stays at rest forever: the image is still until the pointer enters.
   */
  lemma StillWhilePointerAway(p: Particle, c: Config, n: nat)
    requires AtRest(p) && p.x >= 0.0 && p.y >= 0.0
    requires Sq(c.repelRadius) <= 2.0 * 9999.0 * 9999.0
    ensures Run(p, Sentinel, Sentinel, c, n) == p
  {
    SentinelNoPush(p.x, p.y, c.repelRadius);
    RunAtRest(p, Sentinel, Sentinel, c, n);
  }
}
