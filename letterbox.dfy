/** The geometry of `MobileRetinaface::postprocess` in mobile_retinaface.cc:
    undo the letterbox of the model input (the image was scaled so its long
    side fills the square input and the short side was padded equally on both
    ends) and clamp box corners to the input image. */
module Letterboxing {
  import opened Types
  import opened CInt

  /** Long side, padding and padded axis, as `postprocess` computes them from
      the `size_t` input dimensions with `int` arithmetic. `widthPad` means
      the long side is the height, so the padding lies along x. */
  datatype Letterbox = Letterbox(longSide: int, pad: int, widthPad: bool)

  function LetterboxOf(h: nat, w: nat): (g: Letterbox)
    ensures IsI32(h) && IsI32(w) ==>
              && g.longSide == (if h > w then h else w)
              && g.pad == ((if h > w then h - w else w - h) / 2)
              && (g.widthPad <==> h >= w)
  {
    var longSide := ToI32(if h > w then h else w);
    var shortSide := ToI32(if h < w then h else w);
    Letterbox(longSide, DivTrunc(longSide - shortSide, 2), ToSize(longSide) == h)
  }

  /** A normalised coordinate times the long side: input-image pixels. */
  function Pixels(v: real, g: Letterbox): real
  {
    v * g.longSide as real
  }

  /** Corners of a decoded box in input-image pixels, before clamping: both
      edges of an axis move by the same padding, so a box of non-negative
      size keeps its left edge at or before its right edge. */
  function RawCorners(b: Box, g: Letterbox): (r: FaceCoordinate)
    ensures b.w >= 0.0 && g.longSide >= 0 ==> r.x1 <= r.x2
    ensures b.h >= 0.0 && g.longSide >= 0 ==> r.y1 <= r.y2
  {
    var x1 := Trunc(Pixels(b.x, g) - Pixels(b.w, g) / 2.0);
    var y1 := Trunc(Pixels(b.y, g) - Pixels(b.h, g) / 2.0);
    var x2 := Trunc(Pixels(b.x, g) + Pixels(b.w, g) / 2.0);
    var y2 := Trunc(Pixels(b.y, g) + Pixels(b.h, g) / 2.0);
    TruncMonotone(Pixels(b.x, g) - Pixels(b.w, g) / 2.0, Pixels(b.x, g) + Pixels(b.w, g) / 2.0);
    TruncMonotone(Pixels(b.y, g) - Pixels(b.h, g) / 2.0, Pixels(b.y, g) + Pixels(b.h, g) / 2.0);
    if g.widthPad then FaceCoordinate(x1 - g.pad, y1, x2 - g.pad, y2)
    else FaceCoordinate(x1, y1 - g.pad, x2, y2 - g.pad)
  }

  /** The clamping of lines 129-132. A negative left or top edge becomes 1
      (0 is left as it is); the right and bottom edges are compared with the
      `size_t` dimensions, so a negative one becomes the image bound. */
  function Clamp(c: FaceCoordinate, h: nat, w: nat): (r: FaceCoordinate)
    ensures r.x1 >= 0 && r.y1 >= 0
    ensures c.x1 < 0 ==> r.x1 == 1
    ensures c.y1 < 0 ==> r.y1 == 1
    ensures IsI32(c.x2) && w <= I32Max ==> 0 <= r.x2 <= w && (c.x2 < 0 ==> r.x2 == w)
    ensures IsI32(c.y2) && h <= I32Max ==> 0 <= r.y2 <= h && (c.y2 < 0 ==> r.y2 == h)
  {
    FaceCoordinate(
      if c.x1 < 0 then 1 else c.x1,
      if c.y1 < 0 then 1 else c.y1,
      if ToSize(c.x2) > w then ToI32(w) else c.x2,
      if ToSize(c.y2) > h then ToI32(h) else c.y2)
  }

  /** The input-image box `postprocess` reports for decoded box `b`: its
      left and top edges are never negative, an edge already inside the image
      is kept, and the right and bottom edges lie within the image whenever
      they fit an `int`. */
  function RemapBox(b: Box, h: nat, w: nat): (r: FaceCoordinate)
    ensures r.x1 >= 0 && r.y1 >= 0
    ensures var c := RawCorners(b, LetterboxOf(h, w)); c.x1 >= 0 ==> r.x1 == c.x1
    ensures var c := RawCorners(b, LetterboxOf(h, w)); c.y1 >= 0 ==> r.y1 == c.y1
    ensures IsI32(RawCorners(b, LetterboxOf(h, w)).x2) && w <= I32Max ==> 0 <= r.x2 <= w
    ensures IsI32(RawCorners(b, LetterboxOf(h, w)).y2) && h <= I32Max ==> 0 <= r.y2 <= h
  {
    Clamp(RawCorners(b, LetterboxOf(h, w)), h, w)
  }

  /** Landmark points in input-image pixels: the same shift as the box, no
      clamping; the `int` results are stored back as floats, so every point
      is a whole number of pixels. */
  function RemapLandmarks(l: Landmarks, g: Letterbox): (r: Landmarks)
    requires |l.points| == LandSize
    ensures |r.points| == LandSize
    ensures forall k :: 0 <= k < LandSize ==> r.points[k] == r.points[k].Floor as real
    ensures forall k :: 0 <= k < LandSize ==>
              Pixels(l.points[k], g) - 1.0 < r.points[k] + PointShift(g, k) as real < Pixels(l.points[k], g) + 1.0
  {
    Landmarks(seq(LandSize, k requires 0 <= k < LandSize => RemapPoint(l.points[k], g, k)))
  }

  /** Coordinate `k` of a landmark set (even: x, odd: y) in pixels. */
  function RemapPoint(v: real, g: Letterbox, k: nat): (r: real)
    ensures r == r.Floor as real
    ensures Pixels(v, g) - 1.0 < r + PointShift(g, k) as real < Pixels(v, g) + 1.0
  {
    TruncBounds(Pixels(v, g));
    (Trunc(Pixels(v, g)) - PointShift(g, k)) as real
  }

  // ---------------------------------------------------------------------
  // Properties of the clamp

  /** Clamping twice is clamping once. */
  lemma ClampIdempotent(c: FaceCoordinate, h: nat, w: nat)
    requires IsI32(c.x2) && IsI32(c.y2) && h <= I32Max && w <= I32Max
    ensures Clamp(Clamp(c, h, w), h, w) == Clamp(c, h, w)
  {
  }

  /** A box already inside the image is left alone. */
  lemma ClampKeepsInside(c: FaceCoordinate, h: nat, w: nat)
    requires 0 <= c.x1 && 0 <= c.y1 && 0 <= c.x2 <= w && 0 <= c.y2 <= h
    ensures Clamp(c, h, w) == c
  {
  }

  /** The clamp does not keep corners ordered: a box lying entirely left of
      and above the image comes out with its left edge past its right edge. */
  lemma ClampMayInvert()
    ensures var r := Clamp(FaceCoordinate(-5, -5, 0, 0), 720, 1280);
            r.x1 == 1 && r.x2 == 0 && r.x1 > r.x2
  {
  }

  // ---------------------------------------------------------------------
  // Round trip with the letterbox

  /** A letterbox of a non-empty image that fits in an `int`. */
  predicate Proper(g: Letterbox)
  {
    g.longSide > 0 && g.pad >= 0
  }

  /** Normalised model coordinates of a pixel box once the image is
      letterboxed by `g`. */
  function ToModelBox(c: FaceCoordinate, g: Letterbox): (b: Box)
    requires Proper(g)
    ensures b.w >= 0.0 <==> c.x2 >= c.x1
    ensures b.h >= 0.0 <==> c.y2 >= c.y1
  {
    var l := g.longSide as real;
    var px := if g.widthPad then g.pad else 0;
    var py := if g.widthPad then 0 else g.pad;
    Box(((c.x1 + c.x2) as real / 2.0 + px as real) / l, ((c.y1 + c.y2) as real / 2.0 + py as real) / l,
        (c.x2 - c.x1) as real / l, (c.y2 - c.y1) as real / l)
  }

  /** Centre-and-size back to the two edges, shifted by `p`. */
  lemma {:induction false} EdgesExact(a1: int, a2: int, p: int, g: Letterbox, x: real, width: real)
    requires Proper(g)
    requires x == ((a1 + a2) as real / 2.0 + p as real) / g.longSide as real
    requires width == (a2 - a1) as real / g.longSide as real
    ensures Pixels(x, g) - Pixels(width, g) / 2.0 == (a1 + p) as real
    ensures Pixels(x, g) + Pixels(width, g) / 2.0 == (a2 + p) as real
  {
    assert Pixels(x, g) == (a1 + a2) as real / 2.0 + p as real;
    assert Pixels(width, g) == (a2 - a1) as real;
  }

  /** Corners that scale to whole numbers are read back exactly. */
  lemma {:induction false} RawCornersExact(b: Box, g: Letterbox, x1: int, y1: int, x2: int, y2: int)
    requires Pixels(b.x, g) - Pixels(b.w, g) / 2.0 == x1 as real
    requires Pixels(b.x, g) + Pixels(b.w, g) / 2.0 == x2 as real
    requires Pixels(b.y, g) - Pixels(b.h, g) / 2.0 == y1 as real
    requires Pixels(b.y, g) + Pixels(b.h, g) / 2.0 == y2 as real
    ensures RawCorners(b, g) == if g.widthPad then FaceCoordinate(x1 - g.pad, y1, x2 - g.pad, y2)
                                else FaceCoordinate(x1, y1 - g.pad, x2, y2 - g.pad)
  {
    TruncOfInt(x1);
    TruncOfInt(x2);
    TruncOfInt(y1);
    TruncOfInt(y2);
  }

  /** Before the clamp, `postprocess` undoes the letterbox exactly. */
  lemma {:induction false} RawCornersOfModelBox(c: FaceCoordinate, g: Letterbox)
    requires Proper(g)
    ensures RawCorners(ToModelBox(c, g), g) == c
  {
    var b := ToModelBox(c, g);
    var px := if g.widthPad then g.pad else 0;
    var py := if g.widthPad then 0 else g.pad;
    EdgesExact(c.x1, c.x2, px, g, b.x, b.w);
    EdgesExact(c.y1, c.y2, py, g, b.y, b.h);
    RawCornersExact(b, g, c.x1 + px, c.y1 + py, c.x2 + px, c.y2 + py);
  }

  /** `postprocess` recovers every in-image pixel box from its letterboxed
      model coordinates. */
  lemma {:induction false} RemapBoxRoundTrip(c: FaceCoordinate, h: nat, w: nat)
    requires 0 < h <= I32Max && 0 < w <= I32Max
    requires 0 <= c.x1 && 0 <= c.y1 && 0 <= c.x2 <= w && 0 <= c.y2 <= h
    ensures RemapBox(ToModelBox(c, LetterboxOf(h, w)), h, w) == c
  {
    RawCornersOfModelBox(c, LetterboxOf(h, w));
    ClampKeepsInside(c, h, w);
  }

  /** The shift `postprocess` takes off landmark coordinate `k`. */
  function PointShift(g: Letterbox, k: nat): int
  {
    if (k % 2 == 0) == g.widthPad then g.pad else 0
  }

  /** Normalised model coordinates of five pixel points. */
  function ToModelLandmarks(pts: seq<int>, g: Letterbox): (l: Landmarks)
    requires |pts| == LandSize && Proper(g)
    ensures |l.points| == LandSize
  {
    Landmarks(seq(LandSize, k requires 0 <= k < LandSize =>
      (pts[k] + PointShift(g, k)) as real / g.longSide as real))
  }

  /** A coordinate that scales to a whole number is read back exactly. */
  lemma {:induction false} RemapPointAt(v: real, g: Letterbox, k: nat, m: int)
    requires Pixels(v, g) == m as real
    ensures RemapPoint(v, g, k) == (m - PointShift(g, k)) as real
  {
    TruncOfInt(m);
  }

  /** Scaling down and back up again is exact. */
  lemma {:induction false} ScaleBack(m: int, g: Letterbox)
    requires Proper(g)
    ensures Pixels(m as real / g.longSide as real, g) == m as real
  {
  }

  /** One coordinate, shifted and scaled down, comes back. */
  lemma {:induction false} RemapPointExact(n: int, g: Letterbox, k: nat)
    requires Proper(g)
    ensures RemapPoint((n + PointShift(g, k)) as real / g.longSide as real, g, k) == n as real
  {
    var m := n + PointShift(g, k);
    ScaleBack(m, g);
    RemapPointAt(m as real / g.longSide as real, g, k, m);
  }

  /** Landmarks are not clamped, so every integer point comes back, inside
      the image or not. */
  lemma {:induction false} RemapLandmarksRoundTrip(pts: seq<int>, g: Letterbox)
    requires |pts| == LandSize && Proper(g)
    ensures RemapLandmarks(ToModelLandmarks(pts, g), g).points
            == seq(LandSize, k requires 0 <= k < LandSize => pts[k] as real)
  {
    var l := ToModelLandmarks(pts, g);
    forall k | 0 <= k < LandSize
      ensures RemapLandmarks(l, g).points[k] == pts[k] as real
    {
      RemapPointExact(pts[k], g, k);
    }
  }

}
