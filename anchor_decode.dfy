/** SSD-style anchor decoding of mobile_retinaface.cc (`get_box_opt`,
    `get_landmark_opt`), with its inverse, the encoding used to produce the
    regression targets. `exp` (the device's `k230_expf`) and `log` are
    parameters: they are foreign code. */
module AnchorDecode {
  import opened Types

  const VarianceCenter: real := 0.1
  const VarianceSize: real := 0.2

  /** `get_box_opt`: the four regression values of candidate `objIndex` sit at
      `boxes[objIndex * 4 ..]`; they shift the anchor's centre and scale its size. */
  function GetBox(boxes: seq<real>, objIndex: nat, a: Anchor, exp: real -> real): (r: Box)
    requires objIndex * LocSize + LocSize <= |boxes|
    ensures a.w > 0.0 && exp(boxes[objIndex * LocSize + 2] * VarianceSize) > 0.0 ==> r.w > 0.0
    ensures a.h > 0.0 && exp(boxes[objIndex * LocSize + 3] * VarianceSize) > 0.0 ==> r.h > 0.0
  {
    var o := objIndex * LocSize;
    Box(a.cx + boxes[o] * VarianceCenter * a.w,
        a.cy + boxes[o + 1] * VarianceCenter * a.h,
        a.w * exp(boxes[o + 2] * VarianceSize),
        a.h * exp(boxes[o + 3] * VarianceSize))
  }

  /** `get_landmark_opt`: the ten regression values of candidate `objIndex`
      sit at `landmarks[objIndex * 10 ..]`; each point is an affine offset from
      the anchor centre, x scaled by the anchor width and y by its height.
      Zero regression puts a point on the anchor centre. */
  function GetLandmark(landmarks: seq<real>, objIndex: nat, a: Anchor): (r: Landmarks)
    requires objIndex * LandSize + LandSize <= |landmarks|
    ensures |r.points| == LandSize
    ensures forall k :: 0 <= k < LandSize && landmarks[objIndex * LandSize + k] == 0.0 ==>
              r.points[k] == if k % 2 == 0 then a.cx else a.cy
  {
    var o := objIndex * LandSize;
    Landmarks(seq(LandSize, k requires 0 <= k < LandSize =>
      if k % 2 == 0 then a.cx + landmarks[o + k] * VarianceCenter * a.w
      else a.cy + landmarks[o + k] * VarianceCenter * a.h))
  }

  /** The inverse of `GetBox`: the regression values that decode to `b`. */
  function EncodeBox(b: Box, a: Anchor, log: real -> real): (d: seq<real>)
    requires a.w != 0.0 && a.h != 0.0
    ensures |d| == LocSize
  {
    [(b.x - a.cx) / (VarianceCenter * a.w),
     (b.y - a.cy) / (VarianceCenter * a.h),
     log(b.w / a.w) / VarianceSize,
     log(b.h / a.h) / VarianceSize]
  }

  /** The inverse of `GetLandmark`. */
  function EncodeLandmarks(l: Landmarks, a: Anchor): (d: seq<real>)
    requires a.w != 0.0 && a.h != 0.0 && |l.points| == LandSize
    ensures |d| == LandSize
  {
    seq(LandSize, k requires 0 <= k < LandSize =>
      if k % 2 == 0 then (l.points[k] - a.cx) / (VarianceCenter * a.w)
      else (l.points[k] - a.cy) / (VarianceCenter * a.h))
  }

  /** All-zero regression decodes to the anchor itself (when exp(0) = 1). */
  lemma DecodeZeroIsAnchor(boxes: seq<real>, objIndex: nat, a: Anchor, exp: real -> real)
    requires objIndex * LocSize + LocSize <= |boxes|
    requires boxes[objIndex * LocSize .. objIndex * LocSize + LocSize] == [0.0, 0.0, 0.0, 0.0]
    requires exp(0.0) == 1.0
    ensures GetBox(boxes, objIndex, a, exp) == Box(a.cx, a.cy, a.w, a.h)
  {
    var o := objIndex * LocSize;
    var d := boxes[o .. o + LocSize];
    assert boxes[o] == d[0] && boxes[o + 1] == d[1] && boxes[o + 2] == d[2] && boxes[o + 3] == d[3];
  }

  /** The concrete decoding scenario: anchor (0.5, 0.5, 0.1, 0.1) with zero
      regression gives exactly (0.5, 0.5, 0.1, 0.1). */
  lemma DecodeZeroExample(exp: real -> real)
    requires exp(0.0) == 1.0
    ensures GetBox([0.0, 0.0, 0.0, 0.0], 0, Anchor(0.5, 0.5, 0.1, 0.1), exp)
         == Box(0.5, 0.5, 0.1, 0.1)
  {
    DecodeZeroIsAnchor([0.0, 0.0, 0.0, 0.0], 0, Anchor(0.5, 0.5, 0.1, 0.1), exp);
  }

  /** Decoding the encoding of a box gives the box back. */
  lemma DecodeEncodeBox(b: Box, a: Anchor, exp: real -> real, log: real -> real)
    requires a.w > 0.0 && a.h > 0.0 && b.w > 0.0 && b.h > 0.0
    requires forall y :: y > 0.0 ==> exp(log(y)) == y
    ensures GetBox(EncodeBox(b, a, log), 0, a, exp) == b
  {
    var d := EncodeBox(b, a, log);
    assert d[2] * VarianceSize == log(b.w / a.w);
    assert d[3] * VarianceSize == log(b.h / a.h);
    assert exp(log(b.w / a.w)) == b.w / a.w;
    assert exp(log(b.h / a.h)) == b.h / a.h;
  }

  /** Encoding a decoded box gives the regression values back. */
  lemma EncodeDecodeBox(boxes: seq<real>, objIndex: nat, a: Anchor, exp: real -> real, log: real -> real)
    requires objIndex * LocSize + LocSize <= |boxes|
    requires a.w > 0.0 && a.h > 0.0
    requires forall v :: exp(v) > 0.0
    requires forall v :: log(exp(v)) == v
    ensures EncodeBox(GetBox(boxes, objIndex, a, exp), a, log)
         == boxes[objIndex * LocSize .. objIndex * LocSize + LocSize]
  {
    var o := objIndex * LocSize;
    var b := GetBox(boxes, objIndex, a, exp);
    var ew := exp(boxes[o + 2] * VarianceSize);
    var eh := exp(boxes[o + 3] * VarianceSize);
    assert b.w / a.w == ew;
    assert b.h / a.h == eh;
    assert log(ew) == boxes[o + 2] * VarianceSize;
    assert log(eh) == boxes[o + 3] * VarianceSize;
    OffsetCancels(a.cx, boxes[o], VarianceCenter * a.w);
    OffsetCancels(a.cy, boxes[o + 1], VarianceCenter * a.h);
    var e := EncodeBox(b, a, log);
    assert e[0] == boxes[o] && e[1] == boxes[o + 1] && e[2] == boxes[o + 2] && e[3] == boxes[o + 3];
  }

  /** Dividing an offset `d * s` from `c` by `s` recovers `d`. */
  lemma OffsetCancels(c: real, d: real, s: real)
    requires s != 0.0
    ensures (c + d * s - c) / s == d
  {
    assert c + d * s - c == d * s;
  }

  /** Decoding the encoding of landmarks gives the landmarks back. */
  lemma DecodeEncodeLandmarks(l: Landmarks, a: Anchor)
    requires a.w != 0.0 && a.h != 0.0 && |l.points| == LandSize
    ensures GetLandmark(EncodeLandmarks(l, a), 0, a) == l
  {
    var d := EncodeLandmarks(l, a);
    var r := GetLandmark(d, 0, a);
    forall k | 0 <= k < LandSize
      ensures r.points[k] == l.points[k]
    {
      if k % 2 == 0 {
        OffsetRestores(a.cx, l.points[k], a.w);
      } else {
        OffsetRestores(a.cy, l.points[k], a.h);
      }
    }
    assert r.points == l.points;
  }

  /** Scaling the encoded offset of `p` from `c` back by `s` recovers `p`. */
  lemma OffsetRestores(c: real, p: real, s: real)
    requires s != 0.0
    ensures c + (p - c) / (VarianceCenter * s) * VarianceCenter * s == p
  {
    var q := (p - c) / (VarianceCenter * s);
    assert q * (VarianceCenter * s) == p - c;
    assert q * VarianceCenter * s == q * (VarianceCenter * s);
  }

  /** One coordinate: encoding the decoded point gives its value back. */
  lemma EncodeDecodePoint(c: real, d: real, s: real, p: real, e: real)
    requires s != 0.0
    requires p == c + d * VarianceCenter * s && e == (p - c) / (VarianceCenter * s)
    ensures e == d
  {
    assert p - c == d * (VarianceCenter * s);
    OffsetCancels(c, d, VarianceCenter * s);
  }

  /** Encoding decoded landmarks gives the regression values back. */
  lemma EncodeDecodeLandmarks(landmarks: seq<real>, objIndex: nat, a: Anchor)
    requires objIndex * LandSize + LandSize <= |landmarks|
    requires a.w != 0.0 && a.h != 0.0
    ensures EncodeLandmarks(GetLandmark(landmarks, objIndex, a), a)
         == landmarks[objIndex * LandSize .. objIndex * LandSize + LandSize]
  {
    var o := objIndex * LandSize;
    var l := GetLandmark(landmarks, objIndex, a);
    var e := EncodeLandmarks(l, a);
    forall k | 0 <= k < LandSize
      ensures e[k] == landmarks[o + k]
    {
      if k % 2 == 0 {
        EncodeDecodePoint(a.cx, landmarks[o + k], a.w, l.points[k], e[k]);
      } else {
        EncodeDecodePoint(a.cy, landmarks[o + k], a.h, l.points[k], e[k]);
      }
    }
  }

  /** For an anchor of positive size, a landmark point lies right of (below)
      the anchor centre exactly when its regression value is positive. */
  lemma LandmarkSide(landmarks: seq<real>, objIndex: nat, a: Anchor, k: nat)
    requires objIndex * LandSize + LandSize <= |landmarks| && k < LandSize
    requires a.w > 0.0 && a.h > 0.0
    ensures GetLandmark(landmarks, objIndex, a).points[k] > (if k % 2 == 0 then a.cx else a.cy)
            <==> landmarks[objIndex * LandSize + k] > 0.0
  {
    var d := landmarks[objIndex * LandSize + k];
    var s := if k % 2 == 0 then a.w else a.h;
    assert GetLandmark(landmarks, objIndex, a).points[k] == (if k % 2 == 0 then a.cx else a.cy) + d * VarianceCenter * s;
    if d > 0.0 {
      MulPositive(d * VarianceCenter, s);
    } else {
      MulNonPositive(d * VarianceCenter, s);
    }
  }

  lemma MulPositive(p: real, q: real)
    requires p > 0.0 && q > 0.0
    ensures p * q > 0.0
  { }

  lemma MulNonPositive(p: real, q: real)
    requires p <= 0.0 && q > 0.0
    ensures p * q <= 0.0
  { }
}
