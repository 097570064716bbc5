/** The particle record shared by the image sampler and the physics step. */
module Particles {

  /** One channel of a canvas pixel buffer (a Uint8ClampedArray element). */
  newtype byte = b: int | 0 <= b < 256

  /** A particle colour: the sampled pixel's red, green and blue bytes and its alpha scaled to [0, 1]. */
  datatype Rgba = Rgba(r: byte, g: byte, b: byte, alpha: real)

  /**
   * A particle: its current position (x, y), its rest position (ox, oy), its velocity (vx, vy)
   * and its colour. Only x, y, vx and vy change once the particle exists.
   */
  datatype Particle = Particle(x: real, y: real, ox: real, oy: real, vx: real, vy: real, color: Rgba)

  /** The particle sits on its origin and does not move. */
  predicate AtRest(p: Particle)
  {
    p.x == p.ox && p.y == p.oy && p.vx == 0.0 && p.vy == 0.0
  }

  /** The two particles have the same origin and colour (they may differ in position and velocity). */
  predicate SameSeed(p: Particle, q: Particle)
  {
    p.ox == q.ox && p.oy == q.oy && p.color == q.color
  }
}
