# Brush stroke on a segmentation labelmap

This project models `drawBrushPixels` from `src/util/brush/drawBrush.js`, the
operation of the segmentation brush that commits one stroke to a labelmap.

A labelmap volume (`Labelmap3D`) keeps one `Labelmap2D` per image, in the
table `labelmaps2D` keyed by image index. A `Labelmap2D` holds `pixelData`, a
flat row-major buffer with one segment label per pixel (0 means "no
segment"), and the flag `invalidated`, which tells the renderer to redraw the
slice. A stroke is an ordered list of pixel positions `(x, y)`. Each position
is mapped to the buffer index `y * columns + x`. In paint mode the pixel
receives `segmentIndex`. In erase mode the pixel is cleared to 0 only if it
holds `segmentIndex`. The slice is then always marked invalidated. After an
erase that leaves the buffer all 0, the slice is removed from the table.

Everything is in `draw_brush.dfy`, module `DrawBrush`:

- `Labelmap2D` and `Labelmap3D` are classes, because the source updates their
  fields in place. `DrawBrushPixels` is a method with a loop over the points
  that writes into the `pixelData` array, sets `invalidated` and removes the
  table entry.
- `Stroke` is the same pass written as a function on sequences, applying the
  points in input order. `Painted` and `Erased` are independent pixel-wise
  reference definitions of a whole stroke. The lemmas connect the two and
  prove the properties a caller relies on.
- `AnyNonZero` is the scan `pixelData.some(element => element !== 0)` that
  decides reclamation.
- `FourColumnScenario` is a client of `DrawBrushPixels` that follows a worked
  example: on a 4-column slice, paint `(1,1)` and `(2,1)` with segment 5, then
  erase `(1,1)`. Indices 5 and 6 become 5, index 5 returns to 0, and the slice
  stays in the table.

The doc comment at `src/util/brush/drawBrush.js:10-12` names a `labelMap2D`
parameter and says painted pixels are set to 1. The code takes `labelmap3D`
and `imageIdIndex` and writes `segmentIndex`. The model follows the code.

The preconditions of `DrawBrushPixels` are the ones the code silently relies
on: the entry `imageIdIndex` exists, and every point has `0 <= x < columns`,
`0 <= y` and `y * columns + x < pixelData.Length`.

## Model

| member | source | states |
|---|---|---|
| `DrawBrush.DrawBrushPixels` | src/util/brush/drawBrush.js:15-45 | The slice's buffer becomes the in-order stroke of its old contents and, equivalently, the pixel-wise paint or erase result. The slice is marked invalidated on every call. The table loses exactly the entry `imageIdIndex`, and only when the call is an erase that leaves the buffer all 0; otherwise the table is unchanged. Only that slice's flag and buffer and the table are in the frame. |
| `DrawBrush.PixelIndexRoundTrip` | src/util/brush/drawBrush.js:23 | For a point inside its row, the flat index is non-negative and dividing it by `columns` gives back `y`, with remainder `x`. |
| `DrawBrush.PixelIndexInjective` | src/util/brush/drawBrush.js:23-28 | Two points inside their rows hit the same buffer index if and only if they are the same point. |
| `DrawBrush.Stroke` | src/util/brush/drawBrush.js:27-37 | Applying the points one by one keeps the buffer's length. |
| `DrawBrush.PaintAt` | src/util/brush/drawBrush.js:23-35 | After a paint, a pixel holds `segmentIndex` if some point hit it and keeps its old label otherwise. |
| `DrawBrush.EraseAt` | src/util/brush/drawBrush.js:27-33 | After an erase, a pixel is 0 if some point hit it and it held `segmentIndex`. Every other pixel keeps its label, including every hit pixel of another segment. |
| `DrawBrush.StrokeMatchesReference` | src/util/brush/drawBrush.js:27-37 | The in-order pass equals the pixel-wise reference result `Painted` or `Erased` for every input. |
| `DrawBrush.StrokeOrderIndependent` | src/util/brush/drawBrush.js:27-37 | Any permutation of the points is also in bounds and gives the same buffer, in both modes. |
| `DrawBrush.StrokeIdempotent` | src/util/brush/drawBrush.js:27-37 | Applying the same stroke twice gives the same buffer as applying it once, in both modes. |
| `DrawBrush.PaintThenErase` | src/util/brush/drawBrush.js:30-35 | Painting a stroke and then erasing it with the same segment leaves 0 on every pointed pixel and the original label on every other pixel. |
| `DrawBrush.EraseEmptiesIff` | src/util/brush/drawBrush.js:30-33 | An erase leaves the buffer all 0 if and only if every pixel was 0 before, or held `segmentIndex` and was pointed at. |
| `DrawBrush.PaintLeavesLabel` | src/util/brush/drawBrush.js:34-35 | A non-empty paint stroke with a non-zero segment never leaves the buffer all 0. |
| `DrawBrush.AnyNonZero` | src/util/brush/drawBrush.js:42 | The scan reports true if and only if some element of the buffer is non-zero. |

## Left out

- `drawBrushOnCanvas` (src/util/brush/drawBrush.js:57-85) is not part of this model. It is canvas rendering through a pixel-to-canvas transform of an external imaging library, with floating-point box sizes and drawing wrappers that are not available.
- The imports at src/util/brush/drawBrush.js:1-2 are library plumbing.
- Out-of-range or fractional coordinates and a missing `imageIdIndex` entry are excluded by preconditions. In JavaScript, a typed-array write at an invalid index is silently dropped, and a missing entry throws on `.pixelData`.
- DrawBrushPixels: pixel labels and `segmentIndex` are unbounded integers. The storage width of the buffer is not in this file, so the truncation a typed array applies to a stored label is not modelled.
- DrawBrushPixels: the frame guarantees that no other slice's `invalidated` flag changes. It does not exclude two slices that share one `pixelData` array; the code does not exclude that either.
- The table `labelmaps2D` is modelled as a map. `delete` on a JavaScript array leaves a hole, which is the same as a missing key here.
