/**
 * The state the particle-image component keeps between events: the particle list filled once
 * the image has loaded, and the pointer position that the pointer handlers overwrite and every
 * animation frame reads.
 */
module ParticleImage {
  import opened Particles
  import Sampler
  import opened Physics

  class ParticleCanvas {
    /** The particles, in the order the sampler emitted them. */
    var particles: seq<Particle>
    /** The pointer position relative to the canvas, or the sentinel while the pointer is away. */
    var mouseX: real
    var mouseY: real
    /** The lattice stride and alpha threshold of the sampler. */
    const spacing: nat
    const minAlpha: int
    /** The repel radius, spring strength and damping of the frame loop. */
    const config: Config

    predicate Valid()
    {
      spacing > 0
    }

    /** A fresh component: no particles yet and the pointer away. */
    constructor(spacing: nat, minAlpha: int, config: Config)
      requires spacing > 0
      ensures Valid()
      ensures this.spacing == spacing && this.minAlpha == minAlpha && this.config == config
      ensures particles == [] && mouseX == Sentinel && mouseY == Sentinel
    {
      this.spacing := spacing;
      this.minAlpha := minAlpha;
      this.config := config;
      particles := [];
      mouseX, mouseY := Sentinel, Sentinel;
    }

    /**
     * The pointer moved: its client coordinates are made relative to the canvas's top-left
     * corner (rectLeft, rectTop) on the page.
     */
    method MouseMove(clientX: real, clientY: real, rectLeft: real, rectTop: real)
      modifies this
      ensures mouseX == clientX - rectLeft && mouseY == clientY - rectTop
      ensures particles == old(particles)
    {
      mouseX := clientX - rectLeft;
      mouseY := clientY - rectTop;
    }

    /** The pointer left the canvas: it is parked at the sentinel. */
    method MouseLeave()
      modifies this
      ensures mouseX == Sentinel && mouseY == Sentinel
      ensures particles == old(particles)
    {
      mouseX := Sentinel;
      mouseY := Sentinel;
    }

    /**
     * The image finished loading and was drawn into a w×h canvas, w and h being the image size
     * times the display scale, whose RGBA bytes are data: the sampled particles are appended
     * to the list.
     */
    method Load(data: seq<byte>, w: nat, h: nat)
      requires Valid()
      modifies this
      ensures particles == old(particles) + Sampler.Sampled(data, w, h, spacing, minAlpha)
      ensures mouseX == old(mouseX) && mouseY == old(mouseY)
    {
      var sampled := Sampler.Sample(data, w, h, spacing, minAlpha);
      particles := particles + sampled;
    }

    /**
     * One animation frame: every particle, in order, is pushed by the pointer, pulled towards its
     * origin, damped and moved. The pointer does not move during a frame, so n frames with the
     * pointer held still take each particle p to Physics.Run(p, mouseX, mouseY, config, n)
     * (Physics.RunSucc).
     */
    method Frame()
      modifies this
      ensures |particles| == |old(particles)|
      ensures forall i :: 0 <= i < |particles| ==> particles[i] == Advance(old(particles)[i], mouseX, mouseY, config)
      ensures mouseX == old(mouseX) && mouseY == old(mouseY)
    {
      var i := 0;
      while i < |particles|
        invariant 0 <= i <= |particles| == |old(particles)|
        invariant mouseX == old(mouseX) && mouseY == old(mouseY)
        invariant forall k :: 0 <= k < i ==> particles[k] == Advance(old(particles)[k], mouseX, mouseY, config)
        invariant forall k :: i <= k < |particles| ==> particles[k] == old(particles)[k]
      {
        var q := Update(particles[i], mouseX, mouseY, config);
        particles := particles[i := q];
        i := i + 1;
      }
    }
  }
}
