# alphafix-upscale: a Dafny model of the per-pixel alpha repair

alphafix-upscale restores the transparency of images that went through an AI
upscaler that lost their alpha channel. It walks a tree of original images.
For each one it finds the upscaled copy and an output path in two parallel trees.
If the original is fully opaque, the upscaled file is copied to the output unchanged.
Otherwise an alpha mask is rebuilt from the original at the upscaled size:
Lanczos3 resampling, a blur with σ 6.0, contrast 2.0, a threshold at 128 and a blur with σ 0.5.
That mask's alpha then replaces the upscaled image's alpha, pixel by pixel.

This project models the logic of that per-image step:

- `raster.dfy` (module `Raster`): 8-bit channels, RGBA8 pixels and `Image` buffers
  of `width * height` pixels in row-major order.
- `opacity.dfy` (module `Opacity`): the short-circuit scan for a pixel whose
  alpha is not 255, and the fully-opaque test built on it.
- `threshold.dfy` (module `Threshold`): the threshold rule, its value-level
  specification over a buffer, and the in-place loop over an `array<Pixel>`
  proved equal to it.
- `composite.dfy` (module `Composite`): the zip loop that copies the mask's
  alpha into the upscaled buffer. It has a value-level specification with zip
  semantics (it stops at the shorter buffer) and an in-place loop proved equal to it.
- `paths.dfy` (module `Paths`): re-rooting an original path under the upscaled
  and output roots. Paths are sequences of components, and a failed prefix strip
  (a panic in the tool) is `None`.
- `pipeline.dfy` (module `Pipeline`): mask reconstruction, the copy-vs-composite
  decision as a function, and the same step as a method that works in place on
  the upscaled pixel buffer.

The resampling, blur and contrast stages belong to the imaging library. They are
function values in a `Stages` record. The model assumes only `SizePreserving`
of them: resampling returns a well-formed buffer of the requested width and
height, and blur and contrast keep the size of a well-formed buffer.

`src/main.rs` has a single compositing rule: the mask's alpha unconditionally
overwrites the upscaled alpha, and there is no edge-guarded or conditional blend.
The program never checks that the mask and the upscaled image have the same size.
It zips the two pixel iterators, so the model gives compositing zip semantics: the
walk stops at the shorter buffer. `CompositeTakesMaskAlpha` proves that the mask
is built at the upscaled size, so the zip covers every pixel.

## Model

| member | source | states |
|---|---|---|
| `Opacity.AnyTranslucent` | src/main.rs:68 | true exactly when some pixel has alpha other than 255 |
| `Opacity.IsFullyOpaque` | src/main.rs:68-71 | true exactly when every pixel has alpha 255; a pixel-less image is fully opaque |
| `Opacity.OneTranslucentPixel` | src/main.rs:68 | one pixel with alpha other than 255 makes the image not fully opaque |
| `Threshold.Binarize` | src/main.rs:85-89 | the thresholded alpha is always 0 or 255 |
| `Threshold.BinarizeMonotone` | src/main.rs:85-89 | the threshold is monotone: a ≤ b implies thresh(a) ≤ thresh(b) |
| `Threshold.BinarizePixel` | src/main.rs:85-89 | the thresholded pixel keeps its R, G and B, and its alpha is 0 or 255 |
| `Threshold.BinarizeAll` | src/main.rs:84-90 | the whole pass keeps the number of pixels; its content per index is given by `BinarizeAllAt` |
| `Threshold.BinarizeAllAt` | src/main.rs:84-90 | each pixel keeps R, G, B, and its alpha becomes 0 if it was below 128, else 255 |
| `Threshold.BinarizeAllIsBinary` | src/main.rs:84-90 | after the pass every pixel's alpha is 0 or 255 |
| `Threshold.BinarizeAllIdempotent` | src/main.rs:84-90 | running the pass twice gives the same buffer as running it once |
| `Threshold.BinarizeInPlace` | src/main.rs:84-90 | the in-place loop leaves the buffer equal to the thresholded old contents |
| `Composite.OverwriteAlpha` | src/main.rs:95-101 | the zip walk keeps the number of upscaled pixels; it stops at the shorter buffer, and its content per index is given by `OverwriteAlphaAt` |
| `Composite.OverwriteAlphaAt` | src/main.rs:95-101 | below the shorter length each pixel keeps its colour and takes the mask's alpha; beyond it the pixel is untouched |
| `Composite.OverwriteAlphaCoversAll` | src/main.rs:95-101 | with equally long buffers, every output alpha is the mask's and every output colour the upscaled one |
| `Composite.OverwriteAlphaInPlace` | src/main.rs:94-101 | the in-place zip loop leaves the upscaled buffer equal to the composite of its old contents with the mask |
| `Paths.StripPrefix` | src/main.rs:44 | succeeds exactly when the root is a leading part of the path, and then root + remainder is the path |
| `Paths.Join` | src/main.rs:47-48 | stripping the root from the joined path gives the relative path back |
| `Paths.DeriveTask` | src/main.rs:44-49 | a triple exists exactly when the file lies under the original root, and its first path is the file itself |
| `Paths.DeriveTaskOfJoined` | src/main.rs:44-49 | for originalRoot + rel the triple is (originalRoot + rel, upscaledRoot + rel, alphafixedRoot + rel) |
| `Paths.DeriveTaskInjective` | src/main.rs:44-49 | distinct files under the original root get distinct upscaled and output paths |
| `Pipeline.BinarizeImage` | src/main.rs:84-90 | thresholding the mask image keeps its width, height and well-formedness |
| `Pipeline.ReconstructMask` | src/main.rs:74-91 | the reconstructed mask has exactly the target width and height and is well-formed |
| `Pipeline.FixImage` | src/main.rs:66-104 | the copy path is taken exactly when every original pixel has alpha 255; otherwise the output has the upscaled image's size |
| `Pipeline.OneTranslucentPixelForcesReconstruction` | src/main.rs:68-71 | a single original pixel with alpha other than 255 forces reconstruction |
| `Pipeline.CompositeTakesMaskAlpha` | src/main.rs:74-101 | on the reconstruction path the output alpha equals the mask alpha at every pixel and the colour equals the upscaled colour |
| `Pipeline.ProcessPair` | src/main.rs:52-106 | the in-place step reports the copy path exactly as `FixImage` decides, leaves the buffer alone on it, and otherwise leaves it equal to `FixImage`'s output |

## Left out

- Directory walking (src/main.rs:24-39): filesystem I/O. The tool enumerates only files under the original root, so `DeriveTask` never yields `None` in practice.
- Parallel dispatch with rayon and the first-error short-circuit (src/main.rs:41-43, 51, 108): concurrency; each pair is modelled alone.
- Opening, decoding, copying and saving files and creating the output directory (src/main.rs:53-63, 69, 104): I/O and image codecs. The upscaled file's format is guessed from the original's path (line 63). That is I/O-layer behaviour and not modelled.
- Lanczos3 resampling, gaussian blur and contrast (src/main.rs:76-83, 91): floating-point numerics in the imaging library. They are function values whose only assumed property is `SizePreserving`, so nothing is proved about the mask's values beyond what thresholding and compositing do with them.
- The RGBA8 unwraps (src/main.rs:66, 94): both images are RGBA8 by type in the model; the panic on another pixel format is not modelled.
- Command-line parsing and error printing (src/main.rs:6-18): user interface.
- Path components are taken as given: the normalisation of `.` and repeated separators by the path library is not modelled.
