/** The per-frame picking step of the point-cloud component: unless the
    camera is being dragged, render the picking scene, read the one pixel
    under the cursor when it lies inside the viewport, and set the hovered
    point from what that pixel decodes to. */
module Hover {
  import opened ColorId
  import opened PickingBuffers

  /** Whether pixel (x, y) lies inside a viewport of width by height pixels. */
  predicate InBounds(x: int, y: int, width: int, height: int)
  {
    x >= 0 && x < width && y >= 0 && y < height
  }

  /** What one frame supplies: the drag flag of the camera controls, the
      cursor's pixel coordinates, the viewport size, and the pixel the GPU
      would return at those coordinates. */
  datatype Frame = Frame(dragging: bool, x: int, y: int, width: int, height: int, pixel: Pixel)

  /** Whether a frame reads a pixel back: not dragging and inside the viewport. */
  predicate Reads(f: Frame)
  {
    !f.dragging && InBounds(f.x, f.y, f.width, f.height)
  }

  /** The hovered point after one frame of a picture of n points. */
  function NextHover(hovered: Option<nat>, f: Frame, n: nat): (h: Option<nat>)
    ensures h != hovered ==> Reads(f)
    ensures h != hovered && h.Some? ==> h.value < n
  {
    if Reads(f) then Decode(f.pixel, n) else hovered
  }

  /** The hovered point after a run of frames, all over n points. */
  function Run(hovered: Option<nat>, frames: seq<Frame>, n: nat): Option<nat>
    decreases |frames|
  {
    if frames == [] then hovered else Run(NextHover(hovered, frames[0], n), frames[1..], n)
  }

  /** How many frames of a run read a pixel back: none exactly when no frame
      of the run reads. */
  function ReadCount(frames: seq<Frame>): (c: nat)
    ensures c <= |frames|
    ensures c == 0 <==> forall k :: 0 <= k < |frames| ==> !Reads(frames[k])
  {
    if frames == [] then 0 else (if Reads(frames[0]) then 1 else 0) + ReadCount(frames[1..])
  }

  /** The hovered point is an index of the current picture, or nothing. */
  predicate InRange(hovered: Option<nat>, n: nat)
  {
    hovered.Some? ==> hovered.value < n
  }

  /** The component's picking state: the hovered point and the four-byte
      buffer the read-back writes into. */
  class InteractivePoints {
    var hoveredPoint: Option<nat>
    const pixelBuffer: array<Byte>

    ghost predicate Valid()
      reads this
    {
      pixelBuffer.Length == 4
    }

    /** Nothing is hovered at first, and the read-back buffer is zero. */
    constructor ()
      ensures Valid() && fresh(pixelBuffer)
      ensures hoveredPoint == None && pixelBuffer[..] == [0, 0, 0, 0]
    {
      hoveredPoint := None;
      var buffer := new Byte[4];
      buffer[0], buffer[1], buffer[2], buffer[3] := 0, 0, 0, 0;
      pixelBuffer := buffer;
    }

    /** One frame over a picture of n points. `pixel` is what the GPU returns
        for (x, y); `rendered` says whether the picking scene was cleared and
        drawn, `read` whether the pixel was read back. */
    method Step(dragging: bool, x: int, y: int, width: int, height: int, pixel: Pixel, n: nat)
      returns (rendered: bool, read: bool)
      requires Valid()
      modifies this`hoveredPoint, pixelBuffer
      ensures Valid()
      ensures rendered == !dragging
      ensures read == (!dragging && InBounds(x, y, width, height))
      ensures hoveredPoint == NextHover(old(hoveredPoint), Frame(dragging, x, y, width, height, pixel), n)
      ensures read ==> pixelBuffer[..] == [pixel.r, pixel.g, pixel.b, pixel.a]
      ensures !read ==> pixelBuffer[..] == old(pixelBuffer[..])
    {
      rendered, read := false, false;
      if !dragging {
        rendered := true;
        if x >= 0 && x < width && y >= 0 && y < height {
          pixelBuffer[0], pixelBuffer[1], pixelBuffer[2], pixelBuffer[3] := pixel.r, pixel.g, pixel.b, pixel.a;
          read := true;
          if pixelBuffer[3] > 0 {
            var id: int := pixelBuffer[0] as int + (pixelBuffer[1] as int) * 256 + (pixelBuffer[2] as int) * 65536 - 1;
            if id >= 0 && id < n {
              hoveredPoint := Some(id);
            } else {
              hoveredPoint := None;
            }
          } else {
            hoveredPoint := None;
          }
        }
      }
    }
  }

  // ---- properties of the hover step ----

  /** A frame that reads a pixel hovers point i exactly when the pixel is
      drawn in i's picking colour and i is a current point, and hovers nothing
      exactly when the pixel is transparent or its id is not a current point;
      a frame that reads nothing keeps the state. */
  lemma {:induction false} NextHoverCases(hovered: Option<nat>, f: Frame, n: nat, i: nat)
    ensures NextHover(hovered, f, n) == Some(i) <==>
      if Reads(f) then f.pixel.a > 0 && i < n && i + 1 < Two24 && Encode(i) == f.pixel.Color()
      else hovered == Some(i)
    ensures NextHover(hovered, f, n) == None <==>
      if Reads(f) then f.pixel.a == 0 || PixelId(f.pixel) < 0 || PixelId(f.pixel) >= n
      else hovered == None
  {
    DecodeExactly(f.pixel, n, i);
  }

  /** The reads of two runs played one after the other add up. */
  lemma {:induction false} ReadCountAppend(a: seq<Frame>, b: seq<Frame>)
    ensures ReadCount(a + b) == ReadCount(a) + ReadCount(b)
  {
    if a != [] {
      assert (a + b)[0] == a[0] && (a + b)[1..] == a[1..] + b;
      ReadCountAppend(a[1..], b);
    } else {
      assert a + b == b;
    }
  }

  /** Playing two runs one after the other is playing the second from the
      state the first ends in. */
  lemma {:induction false} RunAppend(hovered: Option<nat>, a: seq<Frame>, b: seq<Frame>, n: nat)
    ensures Run(hovered, a + b, n) == Run(Run(hovered, a, n), b, n)
    decreases |a|
  {
    if a != [] {
      assert (a + b)[0] == a[0] && (a + b)[1..] == a[1..] + b;
      RunAppend(NextHover(hovered, a[0], n), a[1..], b, n);
    } else {
      assert a + b == b;
    }
  }

  /** Frames spent dragging the camera read nothing and keep the hover state,
      however many there are and whatever the point count. */
  lemma {:induction false} DraggingKeeps(hovered: Option<nat>, frames: seq<Frame>, n: nat)
    requires forall k :: 0 <= k < |frames| ==> frames[k].dragging
    ensures Run(hovered, frames, n) == hovered
    ensures ReadCount(frames) == 0
  {
    if frames != [] {
      DraggingKeeps(hovered, frames[1..], n);
    }
  }

  /** Frames whose cursor lies outside the viewport read nothing and keep the
      hover state. */
  lemma {:induction false} OutOfBoundsKeeps(hovered: Option<nat>, frames: seq<Frame>, n: nat)
    requires forall k :: 0 <= k < |frames| ==>
      !InBounds(frames[k].x, frames[k].y, frames[k].width, frames[k].height)
    ensures Run(hovered, frames, n) == hovered
    ensures ReadCount(frames) == 0
  {
    if frames != [] {
      OutOfBoundsKeeps(hovered, frames[1..], n);
    }
  }

  /** While the point count stays n, a hover state naming a current point (or
      nothing) keeps naming a current point (or nothing). */
  lemma {:induction false} RunKeepsInRange(hovered: Option<nat>, frames: seq<Frame>, n: nat)
    requires InRange(hovered, n)
    ensures InRange(Run(hovered, frames, n), n)
    decreases |frames|
  {
    if frames != [] {
      RunKeepsInRange(NextHover(hovered, frames[0], n), frames[1..], n);
    }
  }

  /** The hover state is not cleared when the picture changes: after the
      point list shrinks to m points, frames that read nothing leave an index
      that is no longer a point. */
  lemma {:induction false} StaleAfterShrink(v: nat, frames: seq<Frame>, m: nat)
    requires m <= v
    requires forall k :: 0 <= k < |frames| ==> !Reads(frames[k])
    ensures Run(Some(v), frames, m) == Some(v) && !InRange(Run(Some(v), frames, m), m)
  {
    if frames != [] {
      StaleAfterShrink(v, frames[1..], m);
    }
  }

  /** A frame whose pixel shows the picking colour of point i from the buffer
      built for `data` hovers point i, if the ids of `data` fit in 24 bits. */
  lemma HoverFindsDrawnPoint(hovered: Option<nat>, data: seq<Point>, i: nat, f: Frame)
    requires |data| < Two24 && i < |data| && Reads(f) && f.pixel.a > 0
    requires var cs := Flatten(PickingColors(|data|));
      f.pixel.Color() == Triple(cs[3 * i], cs[3 * i + 1], cs[3 * i + 2])
    ensures NextHover(hovered, f, |data|) == Some(i)
  {
    PickingBufferDecodes(|data|, i, f.pixel.a);
  }
}
