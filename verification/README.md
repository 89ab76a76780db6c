# Particle hover effect — Dafny model

The component `ParticleHoverEffect` (src/ParticleHover.jsx) turns an image into a
cloud of coloured particles on a canvas. It draws the image offscreen and reads its
RGBA bytes. It then walks the pixels in steps of 4 (`spacing`) along both axes and
creates a particle for each sampled pixel whose alpha byte is strictly greater than
128. Each particle rests on the pixel's coordinate, stretched onto the visible
canvas. Every animation frame moves each particle by its velocity, damps the velocity
by 0.85 and adds to the velocity 0.04 times the displacement toward the rest position
(the position itself is not moved by that amount).
Every pointer move pushes the particles that lie strictly within 80 canvas pixels of
the pointer.

The model is four modules:

- `Raster` (raster.dfy): the RGBA byte buffer, its `(y * w + x) * 4` byte index, and
  the alpha and colour reads.
- `Sampling` (sampling.dfy): the stride scan as row-major recursion over the sampling
  grid. It yields the kept pixel coordinates, in emission order.
- `FieldBuilder` (field_builder.dfy): particles, the `canvas / image` stretch over
  `real`, the pure field `Extract`, and `BuildParticles`/`SampleRow`, which are the
  nested loops of `extractParticles` as methods proved equal to `Extract`.
- `Animation` (animation.dfy): the per-particle frame update, the pointer push, and any
  interleaving of frames and pointer moves.

Inputs the component gets from the browser are parameters here:
- the pixel buffer that `getImageData` returns (`ImageData`, with exactly
  `width * height * 4` bytes);
- whether the offscreen 2D context could be obtained (`Offscreen`);
- the canvas size (`Canvas`);
- the pointer position in canvas coordinates;
- the trigonometric push law (`PushLaw`).

Coordinates and velocities are exact reals.

The component has a single presentation mode: the image is stretched over the whole
canvas, x by `canvas width / image width` and y by `canvas height / image height`. Its
only prop is `imageUrl`, so the `scale={1.2}` that src/App.jsx:7 passes has no effect,
and there is no aspect-preserving or centred placement to model. The scan starts at 0
and runs while `x < w` and `y < h`, so at most `ceil(w/4) * ceil(h/4)` pixels are
sampled, and the model proves that bound.

## Model

| member | source | states |
|---|---|---|
| Raster.IndexInBounds | src/ParticleHover.jsx:54-66 | for every pixel x < w, y < h, the four bytes `index .. index+3` with `index = (y*w + x)*4` lie inside the `w*h*4`-byte buffer |
| Raster.DistinctPixelsDisjointBytes | src/ParticleHover.jsx:62-66 | two different pixels with x < w own disjoint byte groups `index .. index+3`, so no byte is read as part of two pixels |
| Sampling.ScanRow | src/ParticleHover.jsx:61-79 | a row scan only yields pixels of that row, at or right of the start column and left of the image width |
| Sampling.ScanRows | src/ParticleHover.jsx:60-80 | the scan only yields pixels inside the image, at or below the start row |
| Sampling.ScanRowExactly | src/ParticleHover.jsx:61-68 | a row scan from an aligned column yields exactly the sampled pixels of that row, from that column on, whose alpha exceeds 128 (both directions) |
| Sampling.ScanRowsExactly | src/ParticleHover.jsx:60-68 | a scan from an aligned row yields exactly the sampled pixels, from that row down, whose alpha exceeds 128 (both directions) |
| Sampling.ScanRowOrdered | src/ParticleHover.jsx:61 | a row scan lists its pixels with strictly ascending x |
| Sampling.ScanRowsOrdered | src/ParticleHover.jsx:60-61 | the scan lists its pixels in strictly ascending row-major order |
| Sampling.KeptPixelsExactly | src/ParticleHover.jsx:60-68 | a pixel is kept if and only if both coordinates are multiples of 4 inside the image and its alpha is strictly above 128; alpha 128 is rejected |
| Sampling.KeptPixelsRowMajor | src/ParticleHover.jsx:60-69 | kept pixels come out with y as the outer and x as the inner ascending order |
| Sampling.ScanRowCount | src/ParticleHover.jsx:61 | a row yields at most one pixel per sampled column, and exactly one per column when all its sampled pixels are opaque enough |
| Sampling.ScanRowsCount | src/ParticleHover.jsx:60-61 | the scan from row y yields at most (sampled rows left) * (sampled columns) pixels, with equality when all are opaque enough |
| Sampling.KeptPixelsCount | src/ParticleHover.jsx:60-68 | at most `ceil(w/4) * ceil(h/4)` pixels are kept; exactly that many when every sampled alpha exceeds 128; none when no alpha exceeds 128 |
| FieldBuilder.ScaleInsideCanvas | src/ParticleHover.jsx:57-58 | an image coordinate `v < n` stretched by `c / n` lies in `[0, c]`, and in `[0, c)` when `c > 0` |
| FieldBuilder.ScaleStrictlyMonotone | src/ParticleHover.jsx:70-73 | on a non-empty canvas the stretch keeps the strict order of image coordinates |
| FieldBuilder.BuildParticles | src/ParticleHover.jsx:43-81 | the builder discards the previous list; an unavailable offscreen context gives the empty list; otherwise the nested loops produce exactly `Extract` of the current image and canvas |
| FieldBuilder.SampleRow | src/ParticleHover.jsx:61-79 | the inner loop over one row produces exactly the particles of that row's kept pixels, in column order |
| FieldBuilder.ExtractExactly | src/ParticleHover.jsx:66-77 | every sampled pixel with alpha above 128 has its particle in the field, and every particle of the field comes from such a pixel |
| FieldBuilder.ExtractInitialState | src/ParticleHover.jsx:63-76 | every new particle has `x == originalX`, `y == originalY`, `vx == vy == 0`, and its colour is the bytes at `index`, `index+1`, `index+2` of its source pixel |
| FieldBuilder.ExtractCount | src/ParticleHover.jsx:60-68 | the field has at most `ceil(w/4) * ceil(h/4)` particles, exactly that many when all sampled pixels are opaque enough, and is empty when no alpha exceeds 128 |
| FieldBuilder.ExtractInsideCanvas | src/ParticleHover.jsx:57-73 | every particle lies within `0 <= x <= canvas.width` and `0 <= y <= canvas.height`, strictly below the far edge on an axis of non-zero extent |
| FieldBuilder.ExtractRowMajor | src/ParticleHover.jsx:60-73 | on a non-empty canvas the particles are in strictly ascending row-major order of their rest positions |
| FieldBuilder.SinglePixelSample | src/ParticleHover.jsx:60-77 | an image of at most 4 x 4 pixels gives one particle at the canvas origin with the top-left pixel's colour when that pixel's alpha exceeds 128, and none otherwise |
| Animation.Advance | src/ParticleHover.jsx:91-101 | a frame never changes a particle's rest position or colour |
| Animation.AdvanceIsTranslationInvariant | src/ParticleHover.jsx:92-100 | a frame depends on position only through the displacement from the rest position: shifting a particle and its rest position by the same offset shifts its next position by that offset and leaves its next velocity unchanged |
| Animation.AdvanceFixedExactlyAtRest | src/ParticleHover.jsx:92-100 | a frame leaves a particle unchanged if and only if it sits still on its rest position |
| Animation.StepKeepsAnchors | src/ParticleHover.jsx:91-101 | a frame keeps the list length, every `originalX`/`originalY` and every colour |
| Animation.StepIsLocal | src/ParticleHover.jsx:91-101 | a particle's state after a frame depends only on its own previous state |
| Animation.Repel | src/ParticleHover.jsx:117-128 | the pointer never changes `x, y, originalX, originalY` or colour, and leaves a particle unchanged when `dx^2 + dy^2 >= 80^2` |
| Animation.ImpulseKeepsAnchors | src/ParticleHover.jsx:117-128 | the pointer handler keeps length, positions, rest positions and colours; out-of-reach particles are unchanged; in-reach particles gain exactly the push for their offset |
| Animation.WithinReachIffDistance | src/ParticleHover.jsx:120-122 | for `d >= 0` with `d^2 = dx^2 + dy^2`, the test `d < 80` agrees with `dx^2 + dy^2 < 6400` |
| Animation.RunKeepsAnchors | src/ParticleHover.jsx:91-128 | any interleaving of frames and pointer moves keeps the list length, every rest position and every colour |
| Animation.FramesKeepRestingField | src/ParticleHover.jsx:91-101 | with no pointer input, a field whose particles are all at rest stays unchanged frame after frame |
| Animation.BuiltFieldIsSettled | src/ParticleHover.jsx:69-101 | a freshly built field is unchanged by any number of frames without pointer input |

## Left out

- React lifecycle and DOM (src/ParticleHover.jsx:14-31): `useEffect`, `useRef`, the resize listener and its removal, and the parent-size read. This is UI plumbing. A resize reloads the image, and its `onload` builds the field again (the result does not depend on the previous list, see `BuildParticles`) and calls `animate()` again, which starts one more `requestAnimationFrame` loop. A change of `imageUrl` does the same, because the effect runs again (src/ParticleHover.jsx:31) and the earlier loop is not stopped. The only thing that ends a loop is unmounting: `animate` returns before rescheduling itself when `canvasRef.current` is null (src/ParticleHover.jsx:84-85, :106), so every loop stops at its first tick after unmount. Until then, after k resizes or `imageUrl` changes every display refresh runs k + 1 frames. Within one render those frames act on the same `particles` list, and one refresh is several consecutive `Frame` events, which `Run` covers. A loop started in an earlier render keeps animating that render's own `particles` binding (src/ParticleHover.jsx:5), a separate list that the model does not track. The scheduler itself is not modelled.
- Image loading and the `onload` callback (src/ParticleHover.jsx:33-41). This is asynchronous browser I/O. The model starts from the decoded pixel buffer.
- Canvas calls. `drawImage` and `getImageData` are replaced by the `ImageData` input. `clearRect`, `fillRect` and `particleSize` only draw. `getContext` for the visible canvas is browser API.
- A zero-width or zero-height image. The model's loops do not run and the field is empty. In the browser, `getImageData` would throw after the list was reset, so the list is empty there too.
- `getBoundingClientRect` and `clientX - rect.left` (src/ParticleHover.jsx:113-115). The model takes the pointer in canvas coordinates.
- `requestAnimationFrame` rescheduling and the `canvasRef.current` guards in `animate` and `handleMouseMove`. This is scheduling, not logic. A frame is the `Frame` event.
- Floating point. Positions, scales and velocities are exact reals, so rounding in `x * scaleX`, in the spring update and in the `sqrt` comparison is not modelled. The long-run settling of the spring is not proved, for the same reason.
- Repel: the push magnitude and direction `cos/sin(atan2(dy, dx)) * (80 - d) / 80 * 6` is the caller-supplied `PushLaw`. The model does not prove that a push increases the particle's speed, or what happens at distance 0. Only which fields change, and for which particles, is stated.
- The colour string `rgb(r,g,b)`. The colour is modelled as an RGB triple.
- src/App.jsx. It only mounts the component with an imported asset.
