/**
 * The image sampler run when the image has loaded: it walks the display-sized RGBA buffer
 * on a lattice of stride `spacing`, rows (y) outside and columns (x) inside, and emits a
 * particle resting on every sample point whose alpha byte exceeds `minAlpha`.
 */
module Sampler {
  import opened Particles

  /** A sample point (x, y) of the pixel buffer. */
  type Point = (nat, nat)

  /** The number of multiples of s in [0, n), that is the ceiling of n / s. */
  function CeilDiv(n: nat, s: nat): nat
    requires s > 0
  {
    (n + s - 1) / s
  }

  /** The distance from x to the end n of an axis, 0 once x is past it. */
  function Gap(n: nat, x: nat): nat
  {
    if x < n then n - x else 0
  }

  // ---------------------------------------------------------------------------
  // Integer division facts (Euclidean, positive divisor)
  // ---------------------------------------------------------------------------

  lemma MulAtLeast(k: int, s: int)
    requires s > 0 && k >= 1
    ensures k * s >= s
  {
    assert k * s == (k - 1) * s + s;
  }

  /** Quotient and remainder are determined by a == q * s + r with 0 <= r < s. */
  lemma DivModUnique(a: int, s: int, q: int, r: int)
    requires s > 0 && 0 <= r < s && a == q * s + r
    ensures a / s == q && a % s == r
  {
    var q0, r0 := a / s, a % s;
    assert (q - q0) * s == r0 - r;
    if q - q0 >= 1 {
      MulAtLeast(q - q0, s);
    } else if q0 - q >= 1 {
      MulAtLeast(q0 - q, s);
    }
  }

  lemma ModShift(d: int, s: int)
    requires s > 0
    ensures (d + s) % s == d % s
  {
    DivModUnique(d + s, s, d / s + 1, d % s);
  }

  lemma ModPositive(d: int, s: int)
    requires s > 0 && d > 0 && d % s == 0
    ensures d >= s
  {
    if d < s {
      DivModUnique(d, s, 0, d);
    }
  }

  lemma CeilZero(s: nat)
    requires s > 0
    ensures CeilDiv(0, s) == 0
  {
    DivModUnique(s - 1, s, 0, s - 1);
  }

  lemma MulSucc(c: int, k: int)
    ensures c * (1 + k) == c + c * k
  {
  }

  /** One more stride step fits in [x, n) exactly when x < n. */
  lemma CeilStep(n: nat, x: nat, s: nat)
    requires s > 0 && x < n
    ensures CeilDiv(Gap(n, x), s) == 1 + CeilDiv(Gap(n, x + s), s)
  {
    if x + s < n {
      DivModUnique(n - x - 1 + s, s, (n - x - 1) / s + 1, (n - x - 1) % s);
    } else {
      DivModUnique(n - x + s - 1, s, 1, n - x - 1);
      DivModUnique(s - 1, s, 0, s - 1);
    }
  }

  // ---------------------------------------------------------------------------
  // The pixel buffer
  // ---------------------------------------------------------------------------

  /** Index of the first pixel of row y in a row-major image of width w, that is y·w. */
  function RowStart(w: nat, y: nat): nat
  {
    if y == 0 then 0 else RowStart(w, y - 1) + w
  }

  lemma {:induction false} RowStartIsProduct(w: nat, y: nat)
    ensures RowStart(w, y) == y * w
  {
    if y > 0 {
      RowStartIsProduct(w, y - 1);
      assert (y - 1) * w + w == y * w;
    }
  }

  lemma {:induction false} RowStartMonotone(w: nat, y: nat, y': nat)
    requires y <= y'
    ensures RowStart(w, y) <= RowStart(w, y')
    decreases y' - y
  {
    if y < y' {
      RowStartMonotone(w, y, y' - 1);
    }
  }

  /** Byte offset of the red channel of pixel (x, y) in a row-major RGBA buffer of width w. */
  function PixelOffset(w: nat, x: nat, y: nat): nat
  {
    (RowStart(w, y) + x) * 4
  }

  /** The offset is the sampler's `(y * w + x) * 4`. */
  lemma PixelOffsetFormula(w: nat, x: nat, y: nat)
    ensures PixelOffset(w, x, y) == (y * w + x) * 4
  {
    RowStartIsProduct(w, y);
  }

  /** For a pixel of the w×h image all four channels lie inside the 4·w·h-byte buffer. */
  lemma PixelInBuffer(w: nat, h: nat, x: nat, y: nat)
    requires x < w && y < h
    ensures PixelOffset(w, x, y) + 3 < 4 * w * h
  {
    RowStartMonotone(w, y + 1, h);
    RowStartIsProduct(w, h);
    assert 4 * w * h == 4 * (h * w);
  }

  /** Distinct pixels have distinct offsets, so no two sample points read the same bytes. */
  lemma PixelOffsetInjective(w: nat, x: nat, y: nat, x': nat, y': nat)
    requires x < w && x' < w
    requires PixelOffset(w, x, y) == PixelOffset(w, x', y')
    ensures x == x' && y == y'
  {
    RowStartIsProduct(w, y);
    RowStartIsProduct(w, y');
    DivModUnique(y * w + x, w, y, x);
    DivModUnique(y' * w + x', w, y', x');
  }

  /** The alpha byte of pixel q lies inside the buffer. */
  predicate Readable(data: seq<byte>, w: nat, q: Point)
  {
    PixelOffset(w, q.0, q.1) + 3 < |data|
  }

  /** The alpha byte of pixel q. */
  function Alpha(data: seq<byte>, w: nat, q: Point): byte
    requires Readable(data, w, q)
  {
    data[PixelOffset(w, q.0, q.1) + 3]
  }

  /**
   * The sampler's test `data[i + 3] > minAlpha` at pixel q. A read past the end of the buffer
   * yields `undefined`, which compares false, so such a pixel never passes.
   */
  predicate Passes(data: seq<byte>, w: nat, minAlpha: int, q: Point)
  {
    Readable(data, w, q) && Alpha(data, w, q) as int > minAlpha
  }

  /** The particle seeded at pixel q: resting on q, coloured by q's pixel, alpha scaled by 1/255. */
  function Seed(data: seq<byte>, w: nat, q: Point): Particle
    requires Readable(data, w, q)
  {
    var i := PixelOffset(w, q.0, q.1);
    Particle(q.0 as real, q.1 as real, q.0 as real, q.1 as real, 0.0, 0.0,
             Rgba(data[i], data[i + 1], data[i + 2], data[i + 3] as real / 255.0))
  }

  // ---------------------------------------------------------------------------
  // The sampling lattice
  // ---------------------------------------------------------------------------

  /** The points of row y visited by the inner loop from column x on: x, x + s, ... below w. */
  function RowFrom(w: nat, s: nat, y: nat, x: nat): (row: seq<Point>)
    requires s > 0
    ensures forall q :: q in row ==> q.1 == y && x <= q.0 < w
    decreases w - x
  {
    if x >= w then [] else [(x, y)] + RowFrom(w, s, y, x + s)
  }

  /** The points visited by the outer loop from row y on: rows y, y + s, ... below h. */
  function GridFrom(w: nat, h: nat, s: nat, y: nat): (grid: seq<Point>)
    requires s > 0
    ensures forall q :: q in grid ==> q.0 < w && y <= q.1 < h
    decreases h - y
  {
    if y >= h then [] else RowFrom(w, s, y, 0) + GridFrom(w, h, s, y + s)
  }

  /** Every point the sampler visits, in visiting order. */
  function Grid(w: nat, h: nat, s: nat): seq<Point>
    requires s > 0
  {
    GridFrom(w, h, s, 0)
  }

  /** q is a lattice point of stride s inside the w×h buffer. */
  predicate IsSamplePoint(w: nat, h: nat, s: nat, q: Point)
    requires s > 0
  {
    q.0 < w && q.1 < h && q.0 % s == 0 && q.1 % s == 0
  }

  /** p comes before q in row-major order: an earlier row, or the same row and an earlier column. */
  predicate Before(p: Point, q: Point)
  {
    p.1 < q.1 || (p.1 == q.1 && p.0 < q.0)
  }

  /** The points are strictly increasing in row-major order. */
  predicate RowMajor(pts: seq<Point>)
  {
    forall i, j :: 0 <= i < j < |pts| ==> Before(pts[i], pts[j])
  }

  lemma RowMajorAppend(a: seq<Point>, b: seq<Point>)
    requires RowMajor(a) && RowMajor(b)
    requires forall p, q :: p in a && q in b ==> Before(p, q)
    ensures RowMajor(a + b)
  {
    forall i, j | 0 <= i < j < |a + b|
      ensures Before((a + b)[i], (a + b)[j])
    {
      if j < |a| {
        assert (a + b)[i] == a[i] && (a + b)[j] == a[j];
      } else if i < |a| {
        assert (a + b)[i] == a[i] && (a + b)[j] == b[j - |a|];
        assert a[i] in a && b[j - |a|] in b;
      } else {
        assert (a + b)[i] == b[i - |a|] && (a + b)[j] == b[j - |a|];
      }
    }
  }

  /** Row y from column x holds exactly the columns of [x, w) that are x plus a multiple of s. */
  lemma {:induction false} RowMembers(w: nat, s: nat, y: nat, x: nat, q: Point)
    requires s > 0
    ensures q in RowFrom(w, s, y, x) <==> q.1 == y && x <= q.0 < w && (q.0 - x) % s == 0
    decreases w - x
  {
    if x < w {
      RowMembers(w, s, y, x + s, q);
      LatticeStep(q.0, x, s);
    }
  }

  /** Row y from column x has one point per stride step left in [x, w). */
  lemma {:induction false} RowLength(w: nat, s: nat, y: nat, x: nat)
    requires s > 0
    ensures |RowFrom(w, s, y, x)| == CeilDiv(Gap(w, x), s)
    decreases w - x
  {
    if x < w {
      RowLength(w, s, y, x + s);
      CeilStep(w, x, s);
    } else {
      CeilZero(s);
    }
  }

  lemma {:induction false} RowOrdered(w: nat, s: nat, y: nat, x: nat)
    requires s > 0
    ensures RowMajor(RowFrom(w, s, y, x))
    decreases w - x
  {
    if x < w {
      RowOrdered(w, s, y, x + s);
      RowMajorAppend([(x, y)], RowFrom(w, s, y, x + s));
    }
  }

  /**
   * The grid from row y holds exactly the points of [0, w) × [y, h) whose column is a
   * multiple of s and whose row is y plus a multiple of s.
   */
  lemma {:induction false} GridMembers(w: nat, h: nat, s: nat, y: nat, q: Point)
    requires s > 0
    ensures q in GridFrom(w, h, s, y) <==>
              q.0 < w && q.0 % s == 0 && y <= q.1 < h && (q.1 - y) % s == 0
    decreases h - y
  {
    if y < h {
      var row, below := RowFrom(w, s, y, 0), GridFrom(w, h, s, y + s);
      assert GridFrom(w, h, s, y) == row + below;
      RowMembers(w, s, y, 0, q);
      GridMembers(w, h, s, y + s, q);
      LatticeStep(q.1, y, s);
    }
  }

  /** The lattice holds exactly the sample points: in-bounds pixels whose coordinates are multiples of s. */
  lemma GridPoints(w: nat, h: nat, s: nat, q: Point)
    requires s > 0
    ensures q in Grid(w, h, s) <==> IsSamplePoint(w, h, s, q)
  {
    GridMembers(w, h, s, 0, q);
    assert q.1 - 0 == q.1;
  }

  /** A value at or past y is on y's lattice exactly when it is y itself or on y + s's lattice. */
  lemma LatticeStep(v: int, y: int, s: int)
    requires s > 0
    ensures (y <= v && (v - y) % s == 0) <==> (v == y || (y + s <= v && (v - y - s) % s == 0))
  {
    ModShift(v - y - s, s);
    if y < v && (v - y) % s == 0 {
      ModPositive(v - y, s);
    }
  }

  lemma {:induction false} GridLength(w: nat, h: nat, s: nat, y: nat)
    requires s > 0
    ensures |GridFrom(w, h, s, y)| == CeilDiv(w, s) * CeilDiv(Gap(h, y), s)
    decreases h - y
  {
    if y < h {
      var c, k := CeilDiv(w, s), CeilDiv(Gap(h, y + s), s);
      GridLength(w, h, s, y + s);
      RowLength(w, s, y, 0);
      CeilStep(h, y, s);
      MulSucc(c, k);
    } else {
      CeilZero(s);
    }
  }

  lemma {:induction false} GridOrdered(w: nat, h: nat, s: nat, y: nat)
    requires s > 0
    ensures RowMajor(GridFrom(w, h, s, y))
    decreases h - y
  {
    if y < h {
      RowOrdered(w, s, y, 0);
      GridOrdered(w, h, s, y + s);
      RowMajorAppend(RowFrom(w, s, y, 0), GridFrom(w, h, s, y + s));
    }
  }

  // ---------------------------------------------------------------------------
  // Alpha filtering and seeding
  // ---------------------------------------------------------------------------

  /**
   * The points that pass the alpha test, in their original order: a point is kept exactly
   * when it is one of the points and passes.
   */
  function Kept(data: seq<byte>, w: nat, minAlpha: int, pts: seq<Point>): (kept: seq<Point>)
    ensures forall q :: q in kept <==> q in pts && Passes(data, w, minAlpha, q)
  {
    if pts == [] then []
    else
      var rest := Kept(data, w, minAlpha, pts[1..]);
      if Passes(data, w, minAlpha, pts[0]) then [pts[0]] + rest else rest
  }

  /** Filtering never reorders: a row-major sequence of points stays row-major. */
  lemma {:induction false} KeptOrdered(data: seq<byte>, w: nat, minAlpha: int, pts: seq<Point>)
    requires RowMajor(pts)
    ensures RowMajor(Kept(data, w, minAlpha, pts))
  {
    if pts != [] {
      var tail := pts[1..];
      KeptOrdered(data, w, minAlpha, tail);
      forall q | q in tail
        ensures Before(pts[0], q)
      {
        var j :| 0 <= j < |tail| && tail[j] == q;
        assert pts[j + 1] == q;
      }
      RowMajorAppend([pts[0]], Kept(data, w, minAlpha, tail));
    }
  }

  /** Filtering keeps at most every point, and keeps all of them exactly when every point passes. */
  lemma {:induction false} KeptLength(data: seq<byte>, w: nat, minAlpha: int, pts: seq<Point>)
    ensures |Kept(data, w, minAlpha, pts)| <= |pts|
    ensures |Kept(data, w, minAlpha, pts)| == |pts| <==> forall q :: q in pts ==> Passes(data, w, minAlpha, q)
  {
    if pts != [] {
      KeptLength(data, w, minAlpha, pts[1..]);
      assert forall q :: q in pts <==> q == pts[0] || q in pts[1..];
    }
  }

  /** Every point's pixel can be read. */
  predicate AllReadable(data: seq<byte>, w: nat, pts: seq<Point>)
  {
    forall q :: q in pts ==> Readable(data, w, q)
  }

  /** The particles seeded at the points, one per point, in the same order. */
  function Seeds(data: seq<byte>, w: nat, pts: seq<Point>): (ps: seq<Particle>)
    requires AllReadable(data, w, pts)
    ensures |ps| == |pts|
    ensures forall j :: 0 <= j < |pts| ==> ps[j] == Seed(data, w, pts[j])
  {
    if pts == [] then [] else [Seed(data, w, pts[0])] + Seeds(data, w, pts[1..])
  }

  lemma SeedsCons(data: seq<byte>, w: nat, q: Point, pts: seq<Point>)
    requires Readable(data, w, q) && AllReadable(data, w, pts)
    ensures Seeds(data, w, [q] + pts) == [Seed(data, w, q)] + Seeds(data, w, pts)
  {
    assert ([q] + pts)[0] == q && ([q] + pts)[1..] == pts;
  }

  // ---------------------------------------------------------------------------
  // The sampler
  // ---------------------------------------------------------------------------

  /** The particles the sampler emits: the seed of every lattice point that passes, in visiting order. */
  function Sampled(data: seq<byte>, w: nat, h: nat, spacing: nat, minAlpha: int): seq<Particle>
    requires spacing > 0
  {
    Seeds(data, w, Kept(data, w, minAlpha, Grid(w, h, spacing)))
  }

  lemma AppendAssoc<T>(a: seq<T>, b: seq<T>, c: seq<T>)
    ensures (a + b) + c == a + (b + c)
  {
  }

  /** The inline test and particle of the sampling loop at pixel (x, y) are Passes and Seed. */
  lemma VisitPixel(data: seq<byte>, w: nat, minAlpha: int, x: nat, y: nat, i: nat)
    requires i == PixelOffset(w, x, y)
    ensures Passes(data, w, minAlpha, (x, y)) <==> i + 3 < |data| && data[i + 3] as int > minAlpha
    ensures Passes(data, w, minAlpha, (x, y)) ==>
              Seed(data, w, (x, y)) ==
              Particle(x as real, y as real, x as real, y as real, 0.0, 0.0,
                       Rgba(data[i], data[i + 1], data[i + 2], data[i + 3] as real / 255.0))
  {
  }

  /**
   * The particles the sampling loop emits while visiting the points in order: the seed of each
   * point that passes the alpha test. It is filtering followed by seeding (EmitIsSeedsKept).
   */
  function Emit(data: seq<byte>, w: nat, minAlpha: int, pts: seq<Point>): seq<Particle>
  {
    if pts == [] then []
    else
      (if Passes(data, w, minAlpha, pts[0]) then [Seed(data, w, pts[0])] else [])
      + Emit(data, w, minAlpha, pts[1..])
  }

  lemma {:induction false} EmitIsSeedsKept(data: seq<byte>, w: nat, minAlpha: int, pts: seq<Point>)
    ensures Emit(data, w, minAlpha, pts) == Seeds(data, w, Kept(data, w, minAlpha, pts))
  {
    if pts != [] {
      EmitIsSeedsKept(data, w, minAlpha, pts[1..]);
      if Passes(data, w, minAlpha, pts[0]) {
        SeedsCons(data, w, pts[0], Kept(data, w, minAlpha, pts[1..]));
      }
    }
  }

  lemma {:induction false} EmitAppend(data: seq<byte>, w: nat, minAlpha: int, a: seq<Point>, b: seq<Point>)
    ensures Emit(data, w, minAlpha, a + b) == Emit(data, w, minAlpha, a) + Emit(data, w, minAlpha, b)
  {
    if a == [] {
      assert a + b == b;
    } else {
      assert (a + b)[0] == a[0] && (a + b)[1..] == a[1..] + b;
      EmitAppend(data, w, minAlpha, a[1..], b);
    }
  }

  /** One step of the inner loop: the point (x, y) contributes its seed if it passes. */
  lemma EmitRowStep(data: seq<byte>, w: nat, s: nat, minAlpha: int, y: nat, x: nat)
    requires s > 0 && x < w
    ensures Emit(data, w, minAlpha, RowFrom(w, s, y, x)) ==
              (if Passes(data, w, minAlpha, (x, y)) then [Seed(data, w, (x, y))] else [])
              + Emit(data, w, minAlpha, RowFrom(w, s, y, x + s))
  {
    var row := RowFrom(w, s, y, x);
    assert row[0] == (x, y) && row[1..] == RowFrom(w, s, y, x + s);
  }

  /** The particles the inner loop still emits from row y once it reaches column x. */
  function RowOut(data: seq<byte>, w: nat, s: nat, minAlpha: int, y: nat, x: nat): seq<Particle>
    requires s > 0
    decreases w - x
  {
    if x >= w then []
    else
      (if Passes(data, w, minAlpha, (x, y)) then [Seed(data, w, (x, y))] else [])
      + RowOut(data, w, s, minAlpha, y, x + s)
  }

  /** The particles the outer loop still emits once it reaches row y. */
  function GridOut(data: seq<byte>, w: nat, h: nat, s: nat, minAlpha: int, y: nat): seq<Particle>
    requires s > 0
    decreases h - y
  {
    if y >= h then [] else RowOut(data, w, s, minAlpha, y, 0) + GridOut(data, w, h, s, minAlpha, y + s)
  }

  lemma {:induction false} RowOutEmit(data: seq<byte>, w: nat, s: nat, minAlpha: int, y: nat, x: nat)
    requires s > 0
    ensures RowOut(data, w, s, minAlpha, y, x) == Emit(data, w, minAlpha, RowFrom(w, s, y, x))
    decreases w - x
  {
    if x < w {
      RowOutEmit(data, w, s, minAlpha, y, x + s);
      EmitRowStep(data, w, s, minAlpha, y, x);
    } else {
      assert RowFrom(w, s, y, x) == [];
    }
  }

  lemma {:induction false} GridOutEmit(data: seq<byte>, w: nat, h: nat, s: nat, minAlpha: int, y: nat)
    requires s > 0
    ensures GridOut(data, w, h, s, minAlpha, y) == Emit(data, w, minAlpha, GridFrom(w, h, s, y))
    decreases h - y
  {
    if y < h {
      GridOutEmit(data, w, h, s, minAlpha, y + s);
      RowOutEmit(data, w, s, minAlpha, y, 0);
      EmitAppend(data, w, minAlpha, RowFrom(w, s, y, 0), GridFrom(w, h, s, y + s));
    } else {
      assert GridFrom(w, h, s, y) == [];
    }
  }

  /**
   * The nested sampling loops of the image's load handler over the w×h RGBA buffer of the
   * display-sized canvas: rows y = 0, spacing, ... below h and, within each row, columns
   * x = 0, spacing, ... below w; a pixel whose alpha byte exceeds minAlpha appends a particle
   * resting on (x, y) with the pixel's colour.
   */
  method Sample(data: seq<byte>, w: nat, h: nat, spacing: nat, minAlpha: int) returns (particles: seq<Particle>)
    requires spacing > 0
    ensures particles == Sampled(data, w, h, spacing, minAlpha)
  {
    particles := [];
    var y := 0;
    while y < h
      invariant particles + GridOut(data, w, h, spacing, minAlpha, y) == GridOut(data, w, h, spacing, minAlpha, 0)
      decreases h - y
    {
      ghost var rowStart := particles;
      var x := 0;
      while x < w
        invariant particles + RowOut(data, w, spacing, minAlpha, y, x) == rowStart + RowOut(data, w, spacing, minAlpha, y, 0)
        decreases w - x
      {
        var i := (y * w + x) * 4;
        PixelOffsetFormula(w, x, y);
        VisitPixel(data, w, minAlpha, x, y, i);
        ghost var later := RowOut(data, w, spacing, minAlpha, y, x + spacing);
        // a read past the end yields `undefined`, which is never greater than minAlpha
        if i + 3 < |data| && data[i + 3] as int > minAlpha {
          var a := data[i + 3];
          var color := Rgba(data[i], data[i + 1], data[i + 2], a as real / 255.0);
          AppendAssoc(particles, [Seed(data, w, (x, y))], later);
          particles := particles + [Particle(x as real, y as real, x as real, y as real, 0.0, 0.0, color)];
        }
        x := x + spacing;
      }
      AppendAssoc(rowStart, RowOut(data, w, spacing, minAlpha, y, 0), GridOut(data, w, h, spacing, minAlpha, y + spacing));
      y := y + spacing;
    }
    GridOutEmit(data, w, h, spacing, minAlpha, 0);
    EmitIsSeedsKept(data, w, minAlpha, Grid(w, h, spacing));
  }

  lemma GridReadable(data: seq<byte>, w: nat, h: nat, spacing: nat)
    requires |data| == 4 * w * h && spacing > 0
    ensures AllReadable(data, w, Grid(w, h, spacing))
  {
    forall q | q in Grid(w, h, spacing)
      ensures Readable(data, w, q)
    {
      PixelInBuffer(w, h, q.0, q.1);
    }
  }

  /** Every emitted particle is the seed of a lattice point whose alpha byte exceeds minAlpha. */
  lemma SampledOnlyPassing(data: seq<byte>, w: nat, h: nat, spacing: nat, minAlpha: int)
    requires spacing > 0
    ensures forall p :: p in Sampled(data, w, h, spacing, minAlpha) ==>
              exists q: Point :: IsSamplePoint(w, h, spacing, q) && Passes(data, w, minAlpha, q)
                                 && p == Seed(data, w, q)
  {
    var kept := Kept(data, w, minAlpha, Grid(w, h, spacing));
    var ps := Sampled(data, w, h, spacing, minAlpha);
    forall p | p in ps
      ensures exists q: Point :: IsSamplePoint(w, h, spacing, q) && Passes(data, w, minAlpha, q)
                                 && p == Seed(data, w, q)
    {
      var j :| 0 <= j < |ps| && ps[j] == p;
      var q := kept[j];
      assert q in kept;
      GridPoints(w, h, spacing, q);
      assert IsSamplePoint(w, h, spacing, q) && Passes(data, w, minAlpha, q) && p == Seed(data, w, q);
    }
  }

  /** Every lattice point whose alpha byte exceeds minAlpha has its seed emitted. */
  lemma SampledAllPassing(data: seq<byte>, w: nat, h: nat, spacing: nat, minAlpha: int)
    requires spacing > 0
    ensures forall q: Point :: IsSamplePoint(w, h, spacing, q) && Passes(data, w, minAlpha, q) ==>
              Seed(data, w, q) in Sampled(data, w, h, spacing, minAlpha)
  {
    var kept := Kept(data, w, minAlpha, Grid(w, h, spacing));
    var ps := Sampled(data, w, h, spacing, minAlpha);
    forall q: Point | IsSamplePoint(w, h, spacing, q) && Passes(data, w, minAlpha, q)
      ensures Seed(data, w, q) in ps
    {
      GridPoints(w, h, spacing, q);
      var j :| 0 <= j < |kept| && kept[j] == q;
      assert ps[j] == Seed(data, w, q);
    }
  }

  /**
   * Every emitted particle starts on its origin with zero velocity, at a pixel of the w×h image,
   * with a colour alpha in [0, 1].
   */
  lemma SampledAtRest(data: seq<byte>, w: nat, h: nat, spacing: nat, minAlpha: int)
    requires spacing > 0
    ensures forall p :: p in Sampled(data, w, h, spacing, minAlpha) ==>
              AtRest(p) && 0.0 <= p.ox < w as real && 0.0 <= p.oy < h as real
              && 0.0 <= p.color.alpha <= 1.0
  {
    var kept := Kept(data, w, minAlpha, Grid(w, h, spacing));
    var ps := Sampled(data, w, h, spacing, minAlpha);
    forall p | p in ps
      ensures AtRest(p) && 0.0 <= p.ox < w as real && 0.0 <= p.oy < h as real
      ensures 0.0 <= p.color.alpha <= 1.0
    {
      var j :| 0 <= j < |ps| && ps[j] == p;
      assert kept[j] in kept;
    }
  }

  /** The particles come out in strictly increasing row-major order of their origins. */
  lemma SampledRowMajor(data: seq<byte>, w: nat, h: nat, spacing: nat, minAlpha: int)
    requires spacing > 0
    ensures var ps := Sampled(data, w, h, spacing, minAlpha);
            forall i, j :: 0 <= i < j < |ps| ==>
              ps[i].oy < ps[j].oy || (ps[i].oy == ps[j].oy && ps[i].ox < ps[j].ox)
  {
    GridOrdered(w, h, spacing, 0);
    KeptOrdered(data, w, minAlpha, Grid(w, h, spacing));
  }

  /**
   * At most one particle per lattice point, ⌈w/spacing⌉·⌈h/spacing⌉ in all, and exactly that
   * many when every lattice point passes the alpha test.
   */
  lemma SampledCount(data: seq<byte>, w: nat, h: nat, spacing: nat, minAlpha: int)
    requires spacing > 0
    ensures |Sampled(data, w, h, spacing, minAlpha)| <= CeilDiv(w, spacing) * CeilDiv(h, spacing)
    ensures |Sampled(data, w, h, spacing, minAlpha)| == CeilDiv(w, spacing) * CeilDiv(h, spacing) <==>
              forall q: Point :: IsSamplePoint(w, h, spacing, q) ==> Passes(data, w, minAlpha, q)
  {
    var grid := Grid(w, h, spacing);
    GridLength(w, h, spacing, 0);
    KeptLength(data, w, minAlpha, grid);
    forall q: Point
      ensures q in grid <==> IsSamplePoint(w, h, spacing, q)
    {
      GridPoints(w, h, spacing, q);
    }
  }

  /** A threshold of 255 or more lets no pixel through: the result is empty, not an error. */
  lemma SampledNoneAboveMaxAlpha(data: seq<byte>, w: nat, h: nat, spacing: nat, minAlpha: int)
    requires spacing > 0 && minAlpha >= 255
    ensures Sampled(data, w, h, spacing, minAlpha) == []
  {
  }
}
