# GPU colour-ID picking for a point cloud, modelled in Dafny

The `InteractivePoints` component of this repository draws a cloud of points
and finds the point under the cursor without any CPU hit-testing. Each point
is drawn a second time into an offscreen picking target, in a colour that
encodes its index. Each frame the component reads back the one pixel under
the cursor and decodes that pixel into a point index.

The model has three modules, one per part of the algorithm:

- `ColorId` (`color_id.dfy`) is the colour-ID codec.
  - Point `i` gets id `i + 1`. Id 0 is kept for the cleared background.
  - The id is split into three byte channels. JavaScript computes them as
    `id & 0xff`, `(id >> 8) & 0xff` and `(id >> 16) & 0xff`, on the id taken
    to 32 bits. This is written out as `% 2^32` followed by base-256 digits.
  - A read-back pixel `(r, g, b, a)` is decoded to the id
    `r + (g << 8) + (b << 16) - 1`. The result is kept only when the alpha
    byte is non-zero and the id is in `[0, n)`.
  - Channels are bytes (0 to 255). The source's `/ 255` float normalisation
    is not modelled.
- `PickingBuffers` (`picking_buffers.dfy`) is the one-pass fill of the
  three flat attribute arrays: positions, picking colours and visible
  colours.
  - It is a method over fresh arrays, with a loop invariant.
  - It is proved against a flattening function. Lemmas give each entry
    `i * 3 + k` of each array.
- `Hover` (`hover.dfy`) is the per-frame `useFrame` step.
  - It is the class `InteractivePoints`, whose fields are the hovered point
    and the four-byte read-back buffer.
  - Its method `Step` is proved against the function `NextHover`.
  - `Run` applies that function to each frame of a sequence in turn, and
    `ReadCount` counts the frames of a sequence that read a pixel. Lemmas
    about them state what holds across many frames.

The pixel the GPU returns is a parameter of `Step`. It stands for the
foreign `readRenderTargetPixels` call. The cursor position is given as
integer pixel coordinates.

## Model

| member | source | states |
|---|---|---|
| ColorId.IdOf | src/points.tsx:51 | the id of point i is positive, and one less than it is i, so id 0 is never a point's id |
| ColorId.Encode | src/points.tsx:50-54 | the three channels of point i, each a byte, pack back to (i + 1) mod 2^24 |
| ColorId.PixelId | src/points.tsx:93-94 | the id a pixel carries lies in [-1, 2^24 - 2]; the shifts of bytes cannot overflow |
| ColorId.Decode | src/points.tsx:91-104 | a transparent pixel names no point; a named point is below n and has an id that fits in 24 bits; and its picking colour is exactly the pixel's colour (on the pixels it accepts, encode undoes decode; the converse is RoundTrip) |
| ColorId.RoundTrip | src/points.tsx:51-54 | decoding point i's picking colour, drawn with any non-zero alpha, gives i when i < n and i + 1 < 2^24 |
| ColorId.DecodeExactly | src/points.tsx:92-95 | decode yields point i if and only if the alpha is non-zero, i < n, i + 1 < 2^24 and the pixel has i's picking colour |
| ColorId.EncodeInjective | src/points.tsx:51-58 | two indices whose ids fit in 24 bits and that get the same picking colour are equal |
| ColorId.EncodeNotBackground | src/points.tsx:51-54 | no point whose id fits in 24 bits is coloured like the cleared background (0, 0, 0) |
| ColorId.OutOfRangeMisses | src/points.tsx:93-100 | a pixel whose id is negative (the all-zero colour) or at least n names no point |
| ColorId.EncodeWraps | src/points.tsx:51-54 | the point count is not bounded, so ids wrap: point 2^24 - 1 gets the background colour and the all-zero pixel never names a point, and point i + 2^24 - 1 shares point i - 1's colour |
| ColorId.DigitsDetermine | src/points.tsx:93-94 | three bytes are fixed by the number r + 256 g + 65536 b they pack to |
| PickingBuffers.Flatten | src/points.tsx:37-39 | the flat layout of n triples has 3 n entries |
| PickingBuffers.FlattenAt | src/points.tsx:46-63 | entry p of the flat layout is component p mod 3 of triple p div 3 |
| PickingBuffers.BuildBuffers | src/points.tsx:36-67 | the three arrays are new; positions, picking colours and visible colours are the flat layouts of the point list, of the points' picking colours and of n copies of the base colour; nothing that existed before is written |
| PickingBuffers.PositionsAt | src/points.tsx:46-48 | positions[i * 3 + k] is coordinate k of point i |
| PickingBuffers.PickingColorsAt | src/points.tsx:51-58 | pickingColors[i * 3 + k] is channel k of point i's id |
| PickingBuffers.VisibleColorsAt | src/points.tsx:60-63 | every visible-colour triple is the base colour #800080 |
| PickingBuffers.PickingBufferDecodes | src/points.tsx:56-58 | for fewer than 2^24 points, reading back the picking buffer's colour of point i with non-zero alpha names point i |
| PickingBuffers.PickingBufferDistinct | src/points.tsx:56-58 | for fewer than 2^24 points, different points have different picking colours in the buffer |
| Hover.NextHover | src/points.tsx:73-105 | the hover state changes only in a frame that reads a pixel, and when it changes to a point, that point is below the current point count |
| Hover.ReadCount | src/points.tsx:73-89 | the number of frames that read is at most the number of frames, and it is zero exactly when no frame is both undragged and inside the viewport |
| Hover.ReadCountAppend | src/points.tsx:73-89 | the reads of two runs played one after the other add up |
| Hover.RunAppend | src/points.tsx:72-110 | playing two runs of frames one after the other is playing the second from the hover state the first ends in |
| Hover.InteractivePoints.constructor | src/points.tsx:19-70 | nothing is hovered at first and the four-byte read-back buffer is zero |
| Hover.InteractivePoints.Step | src/points.tsx:72-110 | the picking scene is rendered exactly when the camera is not dragged; a pixel is read exactly when, in addition, (x, y) lies in the viewport, and then the buffer holds that pixel; the new hover state is NextHover of the old one, so it is kept when no pixel is read |
| Hover.NextHoverCases | src/points.tsx:88-104 | a reading frame hovers point i if and only if the pixel is drawn in i's colour and i is current, and hovers nothing if and only if the alpha is zero or the id is out of range; a frame that reads nothing keeps the state |
| Hover.DraggingKeeps | src/points.tsx:73 | any number of dragging frames read no pixel and leave the hover state unchanged |
| Hover.OutOfBoundsKeeps | src/points.tsx:88 | any number of frames with the cursor outside the viewport read no pixel and leave the hover state unchanged |
| Hover.RunKeepsInRange | src/points.tsx:95-98 | while the point count stays n, a hover state that names a current point or nothing keeps doing so |
| Hover.StaleAfterShrink | src/points.tsx:72-105 | the hover state is not reset when the point list changes: after it shrinks, frames that read nothing keep an index that is no longer a point |
| Hover.HoverFindsDrawnPoint | src/points.tsx:88-98 | a reading frame whose pixel shows the picking-buffer colour of point i, for fewer than 2^24 points, hovers i |

## Left out

- WebGL and three.js resources are not modelled: creating the
  `WebGLRenderTarget`, `setRenderTarget`, `clear`, `render` and
  `readRenderTargetPixels` (src/points.tsx:28-33, 77-81, 89, 108) are
  foreign GPU calls. `Step` reports whether the picking scene was rendered.
  The pixel the GPU would return is the `pixel` parameter.
- The picking target's size follows the viewport through `useMemo`
  (src/points.tsx:28-33). It is not modelled; `Step` gets the viewport size
  as `width` and `height`.
- React machinery is not modelled: `useState`, `useMemo`, `useRef`,
  `createPortal`, the JSX scene and the yellow hover sphere
  (src/points.tsx:19-25, 118-182). The state update `setHoveredPoint` is a
  plain field assignment. Re-render scheduling is not modelled.
- The `/ 255` normalisation of the picking colours is not modelled
  (src/points.tsx:52-54); channels are bytes.
- The visible colour is not the linear float triple that three.js derives
  from `Color("#800080")` (src/points.tsx:42). The model uses the hex bytes
  `0x80, 0x00, 0x80` as an opaque base colour.
- Positions are real numbers copied exactly. The rounding to 32-bit floats
  done by `Float32Array` is not modelled.
- The mouse normalisation (src/points.tsx:114-115) is not modelled. The
  cursor-to-pixel mapping (src/points.tsx:84-85) is left out too: `x` and
  `y` are given integer pixel coordinates.
- The `console.log` of the hovered id (src/points.tsx:96) is I/O.
- src/App.tsx is not part of this model: the orbit controls, the random
  point generation and the page layout are glue, randomness and floats.
- ColorId.Channel: it models JavaScript's `ToInt32` as `% 2^32` on a
  non-negative id and does not model the sign of ids of 2^31 and above.
  The sign cannot change bits 0 to 23, so no channel differs.

## What the component does not do

- The hover state is not reset when the point list is replaced
  (`StaleAfterShrink`).
- The point count is not bounded, so ids wrap around (`EncodeWraps`).
- Hover is not written into the visible colour buffer. That buffer only
  ever holds the base colour (`VisibleColorsAt`).
- No buffer is marked dirty.
- The picking target is not explicitly disposed.
- Ids of 0 and ids above the point count are rejected, because the check is
  `0 <= id < n` on `r + 256 g + 65536 b - 1` (`DecodeExactly`).
