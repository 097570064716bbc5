# Particle image: a Dafny model

`ParticleImage` is a React component that draws an image as a cloud of dots. Each dot is drawn
back to its home pixel and pushed away by the mouse pointer. Two pieces of logic sit inside the
component, and this project models both.

- **The grid sampler.** It runs when the image has loaded. It picks a display scale. Then it
  walks the canvas's RGBA byte buffer on a lattice of stride `spacing`, rows outer and columns
  inner. Every lattice pixel whose alpha byte is above `minAlpha` becomes a particle at rest on
  that pixel, in the pixel's colour.
- **The frame loop.** It runs every animation frame and updates each particle in order:
  - repulsion from the pointer, with a quadratic falloff cut off at `repelRadius`;
  - a spring pull towards the particle's origin;
  - damping;
  - one Euler step of the position.

The pointer is two numbers that the mouse handlers overwrite. While the pointer is off the
canvas, both are parked at the sentinel −9999.

The modules follow that structure:

- `Particles` (particles.dfy): the particle record. It holds position, origin, velocity and
  colour. The colour is a record of three bytes and an alpha in [0, 1].
- `Scale` (scale.dfy): the display-scale rule, as pure functions.
- `Sampler` (sampler.dfy): the sampling loops. They are the method `Sample`. It is proved equal
  to a specification built in three steps: the lattice `Grid`, then the points kept by the alpha
  test (`Kept`), then the particles seeded from them (`Seeds`). The sampler's promises are
  lemmas about that specification.
- `Physics` (physics.dfy): one particle's update, over `real`. The method `Update` performs the
  update statement by statement, as the frame loop does. It is proved equal to the function
  `Advance`, and the lemmas about the step are stated on `Advance`.
- `ParticleImage` (particle_image.dfy): the component's mutable state as a class. It holds the
  particle list and the pointer. Its methods are the pointer handlers, the load handler and one
  animation frame.

A pixel read past the end of the buffer is `undefined` in JavaScript, and `undefined > minAlpha`
is false. The model keeps that behaviour: a lattice point whose alpha byte lies outside `data`
is skipped (`Sampler.Passes`). So `Sample` asks nothing of the buffer's length. The lemma
`Sampler.GridReadable` shows that a buffer of exactly `4*w*h` bytes covers every lattice point.

The pointer gives no push to a particle exactly under it. There, the falloff factor is at its
maximum of 1, but the offset it multiplies is zero. The model follows the code; see
`Physics.RepulsionInside` and `Physics.RepulsionAtPointer`.

The sentinel is finite. A large enough `repelRadius` (15000, say) reaches a particle near the
canvas corner even while the pointer is "away". That is shown in `Physics.SentinelReachable`.
For radii up to 9999·√2, particles on the canvas feel nothing from the parked pointer
(`Physics.SentinelNoPush`).

## Model

| member | source | states |
|---|---|---|
| Scale.WidthLimit | src/ParticleImage.jsx:48 | the fitting width is `maxWidth` when it is nonzero; otherwise it is exactly 80% of the viewport width |
| Scale.DisplayScale | src/ParticleImage.jsx:46-50 | scale is 1 when not responsive. It never exceeds 1, so the image is never enlarged. When responsive, the scaled width never exceeds the limit: an image no wider than the limit keeps scale 1, and a wider one is scaled to exactly the limit. The scale is positive when the limit is, and never negative for a nonnegative `maxWidth` |
| Scale.DefaultLimitExamples | src/ParticleImage.jsx:46-50 | with the default limit of 800, a 1600-pixel image is halved to 800 and a 400-pixel image is kept |
| Sampler.PixelOffsetFormula | src/ParticleImage.jsx:63 | the byte offset of pixel (x, y) is `(y*w+x)*4` |
| Sampler.PixelInBuffer | src/ParticleImage.jsx:63-64 | for every pixel inside the w×h canvas, the alpha index `(y*w+x)*4+3` is inside a buffer of `4*w*h` bytes |
| Sampler.PixelOffsetInjective | src/ParticleImage.jsx:63 | two pixels of a row-major buffer with x < w that share an offset are the same pixel |
| Sampler.VisitPixel | src/ParticleImage.jsx:63-67 | the loop's test `data[i+3] > minAlpha`, with a missing byte failing it, is exactly `Passes`. A passing pixel yields the particle `Seed` |
| Sampler.RowFrom | src/ParticleImage.jsx:62 | every point of the row walk from x lies on row y, with x ≤ column < w |
| Sampler.GridFrom | src/ParticleImage.jsx:61-62 | every point of the grid walk from row y has column < w and y ≤ row < h |
| Sampler.RowMembers | src/ParticleImage.jsx:62 | a point is in the row walk from x if and only if it is on row y, x ≤ column < w, and the column is x plus a multiple of the stride |
| Sampler.RowLength | src/ParticleImage.jsx:62 | the row walk from x visits ⌈(w−x)/spacing⌉ columns |
| Sampler.RowOrdered | src/ParticleImage.jsx:62 | the row walk visits columns in ascending order |
| Sampler.GridMembers | src/ParticleImage.jsx:61-62 | a point is in the grid walk from row y if and only if its column is a multiple of the stride below w, and its row is y plus a multiple of the stride below h |
| Sampler.GridPoints | src/ParticleImage.jsx:61-62 | the points visited are exactly the lattice points: both coordinates are multiples of `spacing`, with 0 ≤ x < w and 0 ≤ y < h |
| Sampler.GridLength | src/ParticleImage.jsx:61-62 | the grid walk from row y visits ⌈w/spacing⌉·⌈(h−y)/spacing⌉ points |
| Sampler.GridOrdered | src/ParticleImage.jsx:61-62 | the grid walk is in row-major order: rows ascending, and columns ascending within a row |
| Sampler.Kept | src/ParticleImage.jsx:65 | a point is kept if and only if it was visited and its alpha byte exceeds `minAlpha` |
| Sampler.KeptOrdered | src/ParticleImage.jsx:65 | filtering keeps row-major order |
| Sampler.KeptLength | src/ParticleImage.jsx:65 | filtering never adds points, and it keeps all of them if and only if every point passes |
| Sampler.Seeds | src/ParticleImage.jsx:66-67 | one particle per kept point, in the same order, each seeded from its pixel |
| Sampler.SeedsCons | src/ParticleImage.jsx:67 | seeding a point before a list gives that point's particle before the list's particles |
| Sampler.EmitIsSeedsKept | src/ParticleImage.jsx:64-67 | testing and seeding each point in turn, as the loop body does, gives the seeds of the kept points |
| Sampler.EmitAppend | src/ParticleImage.jsx:61-70 | emission over two consecutive stretches of the walk is the concatenation of their emissions |
| Sampler.EmitRowStep | src/ParticleImage.jsx:62-68 | one inner-loop iteration emits the current pixel's particle if it passes, then continues at x + spacing |
| Sampler.RowOutEmit | src/ParticleImage.jsx:62-69 | what the inner loop appends for row y, from column x on, is the emission over the row walk |
| Sampler.GridOutEmit | src/ParticleImage.jsx:61-70 | what the outer loop appends from row y on is the emission over the grid walk |
| Sampler.Sample | src/ParticleImage.jsx:61-70 | the nested loops build exactly the seeds of the passing lattice points, in row-major order (`Sampled`) |
| Sampler.GridReadable | src/ParticleImage.jsx:59-64 | a buffer of `4*w*h` bytes has the alpha byte of every lattice point |
| Sampler.SampledOnlyPassing | src/ParticleImage.jsx:61-67 | every emitted particle comes from a lattice point whose alpha byte is above `minAlpha` |
| Sampler.SampledAllPassing | src/ParticleImage.jsx:61-67 | every lattice point whose alpha byte is above `minAlpha` yields a particle |
| Sampler.SampledAtRest | src/ParticleImage.jsx:61-67 | every emitted particle starts on its origin with zero velocity, inside the canvas, with a colour alpha in [0, 1] |
| Sampler.SampledRowMajor | src/ParticleImage.jsx:61-67 | particles come out in row-major order of their origins: y ascending, then x ascending |
| Sampler.SampledCount | src/ParticleImage.jsx:61-67 | there are at most ⌈w/spacing⌉·⌈h/spacing⌉ particles, with equality if and only if every lattice pixel passes |
| Sampler.SampledNoneAboveMaxAlpha | src/ParticleImage.jsx:64-65 | with `minAlpha` ≥ 255, no byte passes and nothing is emitted |
| Physics.Falloff | src/ParticleImage.jsx:89-90 | inside the radius, the force factor lies in (0, 1] and equals 1 only at zero distance |
| Physics.FalloffDecreasing | src/ParticleImage.jsx:89-90 | the force factor strictly decreases with distance |
| Physics.Sq | src/ParticleImage.jsx:86 | a square is nonnegative, and zero for zero |
| Physics.Dist2 | src/ParticleImage.jsx:84-86 | the squared distance is nonnegative, and zero when the particle is on the pointer |
| Physics.Repulsion | src/ParticleImage.jsx:84-93 | no push at squared distance ≥ `repelRadius²` |
| Physics.RepulsionInside | src/ParticleImage.jsx:88-93 | inside the radius: the push is collinear with the offset from the pointer and points away from it. Its squared length is at most dist²/400. It is zero if and only if the particle is on the pointer |
| Physics.RepulsionAtPointer | src/ParticleImage.jsx:88-92 | on the pointer, the factor is 1 but the push is zero |
| Physics.SentinelNoPush | src/ParticleImage.jsx:28-29 | with the pointer parked at (−9999, −9999), a particle at nonnegative coordinates is outside any radius with `repelRadius²` ≤ 2·9999², and gets no push |
| Physics.SentinelReachable | src/ParticleImage.jsx:28-29 | a radius of 15000 reaches the parked pointer: the particle at (0, 0) is pushed |
| Physics.Advance | src/ParticleImage.jsx:84-102 | a step keeps origin and colour, and moves the position by exactly the new velocity |
| Physics.Update | src/ParticleImage.jsx:84-102 | the statement-by-statement update gives `Advance`'s particle |
| Physics.AdvanceAtRest | src/ParticleImage.jsx:95-102 | a particle at rest on its origin, with no push (outside the radius, or on the pointer), is a fixed point of the step |
| Physics.AdvanceFreeDamping | src/ParticleImage.jsx:95-99 | with no push and the particle on its origin, the step only damps the velocity |
| Physics.Run | src/ParticleImage.jsx:83-110 | any number of frames with a fixed pointer keeps origin and colour |
| Physics.RunSucc | src/ParticleImage.jsx:83-102 | n + 1 frames with a fixed pointer are n frames followed by one more `Advance`, so each `Frame` call with the pointer held still extends `Run` by one frame |
| Physics.RunAtRest | src/ParticleImage.jsx:83-110 | a particle at rest and outside the radius stays unchanged for any number of frames |
| Physics.StillWhilePointerAway | src/ParticleImage.jsx:83-102 | while the pointer is parked, a resting particle on the canvas never moves, for any realistic radius |
| ParticleImage.ParticleCanvas.constructor | src/ParticleImage.jsx:23-29 | a fresh component has no particles and the pointer parked at the sentinel |
| ParticleImage.ParticleCanvas.MouseMove | src/ParticleImage.jsx:31-35 | the pointer becomes the client position minus the canvas's top-left corner; the particles are untouched |
| ParticleImage.ParticleCanvas.MouseLeave | src/ParticleImage.jsx:37-40 | the pointer is parked at the sentinel; the particles are untouched |
| ParticleImage.ParticleCanvas.Load | src/ParticleImage.jsx:59-70 | the sampled particles are appended to the list; the pointer is untouched |
| ParticleImage.ParticleCanvas.Frame | src/ParticleImage.jsx:83-102 | every particle is replaced by its `Advance` under the current pointer. The count and order are kept, and so is the pointer |

## Left out

- The React lifecycle (`useEffect`, its dependency list, `useRef`) and the cleanup that removes the listeners: framework plumbing with no stateable logic.
- Listener registration and `getBoundingClientRect`: the canvas's page offset is a parameter of `MouseMove`.
- Image loading, `drawImage` and `getImageData`: the pixel buffer and the display width and height are parameters of `Load`.
- `window.innerWidth` is a parameter (`viewportWidth`) of `Scale.WidthLimit` and `Scale.DisplayScale`.
- Scale.DisplayScale: when responsive, excludes a zero-width image together with a negative `maxWidth`, where the code divides by zero.
- ParticleImage.ParticleCanvas.Load: the display size is taken in whole pixels. The code multiplies by a scale that can make `w` fractional. The canvas then truncates its size, while the loop's alpha index `(y*w+x)*4+3` uses the fractional `w`. That combination is browser behaviour and is not modelled.
- Drawing (`fillRect`, `clearRect`, `arc`, `fill`), `size`, `background` and `transparent`: rendering only. The colour string is kept as a record of its three bytes and the alpha divided by 255.
- `requestAnimationFrame` and its missing cancellation: scheduling. `Physics.Run` is repeated frames with the pointer held still; `Physics.RunSucc` ties it to successive `Frame` calls.
- Arithmetic is over `real`, not IEEE-754 doubles. Rounding, convergence speed and divergence when `damping` ≥ 1 are not modelled, and nothing is claimed about them.
- Sampler: `spacing` is a positive whole number and `w`, `h` are whole numbers. A zero or fractional `spacing` (a zero stride never ends the loop) is outside the model.
- Physics.Dist2: the converse (a zero squared distance means the particle is on the pointer) is not stated. `Physics.RepulsionInside` states the consequence for the push.
