/** `MobileRetinaface` of mobile_retinaface.cc: `postprocess` runs `decode`
    and maps its boxes and landmarks back to the input image. */
module Retinaface {
  import opened Types
  import opened CInt
  import opened Nms
  import opened Decode
  import opened Letterboxing

  /** The detection result `GetResult` hands out. */
  datatype DetectResult = DetectResult(boxes: seq<FaceCoordinate>, landmarks: seq<Landmarks>)

  /** Boxes and landmarks of one run: `decode`'s output mapped back to the
      input image. */
  function Detections(o: NetOutputs, anchors: seq<Anchor>, softmaxFace: (real, real) -> real,
                      exp: real -> real, order: seq<int>, h: nat, w: nat): (r: DetectResult)
    requires o.WellShaped() && |anchors| == AnchorCount && QsortOrder(o, softmaxFace, order)
    ensures |r.boxes| == |r.landmarks| == |Kept(o, anchors, softmaxFace, exp, order)|
    ensures forall i :: 0 <= i < |r.boxes| ==> r.boxes[i].x1 >= 0 && r.boxes[i].y1 >= 0
    ensures forall i :: 0 <= i < |r.landmarks| ==> |r.landmarks[i].points| == LandSize
  {
    var kept := Kept(o, anchors, softmaxFace, exp, order);
    var boxes := Pick(SortedBoxes(o, anchors, softmaxFace, exp, order), kept);
    var lands := Pick(SortedLandmarks(o, anchors, softmaxFace, order), kept);
    LandmarksShape(o, anchors, softmaxFace, exp, order);
    DetectResult(seq(|boxes|, i requires 0 <= i < |boxes| => RemapBox(boxes[i], h, w)),
                 seq(|lands|, i requires 0 <= i < |lands| => RemapLandmarks(lands[i], LetterboxOf(h, w))))
  }

  /** Every decoded landmark set has the ten coordinates `postprocess` reads. */
  lemma LandmarksShape(o: NetOutputs, anchors: seq<Anchor>, softmaxFace: (real, real) -> real, exp: real -> real,
                       order: seq<int>)
    requires o.WellShaped() && |anchors| == AnchorCount && QsortOrder(o, softmaxFace, order)
    ensures var lands := Pick(SortedLandmarks(o, anchors, softmaxFace, order), Kept(o, anchors, softmaxFace, exp, order));
            forall i :: 0 <= i < |lands| ==> |lands[i].points| == LandSize
  {
  }

  /** `Detections` in terms of `decode`'s two output vectors. */
  lemma DetectionsOfDecoded(o: NetOutputs, anchors: seq<Anchor>, softmaxFace: (real, real) -> real,
                            exp: real -> real, order: seq<int>, h: nat, w: nat,
                            boxes: seq<Box>, lands: seq<Landmarks>)
    requires o.WellShaped() && |anchors| == AnchorCount && QsortOrder(o, softmaxFace, order)
    requires boxes == Pick(SortedBoxes(o, anchors, softmaxFace, exp, order), Kept(o, anchors, softmaxFace, exp, order))
    requires lands == Pick(SortedLandmarks(o, anchors, softmaxFace, order), Kept(o, anchors, softmaxFace, exp, order))
    ensures forall i :: 0 <= i < |lands| ==> |lands[i].points| == LandSize
    ensures Detections(o, anchors, softmaxFace, exp, order, h, w)
            == DetectResult(seq(|boxes|, i requires 0 <= i < |boxes| => RemapBox(boxes[i], h, w)),
                            seq(|lands|, i requires 0 <= i < |lands| => RemapLandmarks(lands[i], LetterboxOf(h, w))))
  {
    LandmarksShape(o, anchors, softmaxFace, exp, order);
  }

  // ---------------------------------------------------------------------
  // The class

  class MobileRetinaface {
    /** `ai2d_input_c_`, `ai2d_input_h_`, `ai2d_input_w_`: the input image
        shape, `size_t` values. */
    const inputC: nat
    const inputH: nat
    const inputW: nat
    var resultBoxes: seq<FaceCoordinate>
    var resultLandmarks: seq<Landmarks>

    /** The constructor records the input shape; the result is empty. */
    constructor (channel: nat, height: nat, width: nat)
      requires channel < SizeModulus && height < SizeModulus && width < SizeModulus
      ensures inputC == channel && inputH == height && inputW == width
      ensures resultBoxes == [] && resultLandmarks == []
    {
      inputC, inputH, inputW := channel, height, width;
      resultBoxes, resultLandmarks := [], [];
    }

    /** `GetResult`: a copy of the last result. */
    function GetResult(): (r: DetectResult)
      reads this
      ensures r.boxes == resultBoxes && r.landmarks == resultLandmarks
    {
      DetectResult(resultBoxes, resultLandmarks)
    }

    /** Lines 109-134: one decoded box in input-image pixels. */
    method CornersToImage(b: Box, g: Letterbox) returns (c: FaceCoordinate)
      requires g == LetterboxOf(inputH, inputW)
      ensures c.x1 >= 0 && c.y1 >= 0
      ensures IsI32(RawCorners(b, g).x2) && inputW <= I32Max ==> 0 <= c.x2 <= inputW
      ensures IsI32(RawCorners(b, g).y2) && inputH <= I32Max ==> 0 <= c.y2 <= inputH
      ensures c == RemapBox(b, inputH, inputW)
    {
      var x1, y1, x2, y2;
      if g.widthPad {
        x1 := Trunc(Pixels(b.x, g) - Pixels(b.w, g) / 2.0) - g.pad;
        y1 := Trunc(Pixels(b.y, g) - Pixels(b.h, g) / 2.0);
        x2 := Trunc(Pixels(b.x, g) + Pixels(b.w, g) / 2.0) - g.pad;
        y2 := Trunc(Pixels(b.y, g) + Pixels(b.h, g) / 2.0);
      } else {
        x1 := Trunc(Pixels(b.x, g) - Pixels(b.w, g) / 2.0);
        y1 := Trunc(Pixels(b.y, g) - Pixels(b.h, g) / 2.0) - g.pad;
        x2 := Trunc(Pixels(b.x, g) + Pixels(b.w, g) / 2.0);
        y2 := Trunc(Pixels(b.y, g) + Pixels(b.h, g) / 2.0) - g.pad;
      }
      ghost var raw := FaceCoordinate(x1, y1, x2, y2);
      assert raw == RawCorners(b, g);
      x1 := if x1 < 0 then 1 else x1;
      y1 := if y1 < 0 then 1 else y1;
      x2 := if ToSize(x2) > inputW then ToI32(inputW) else x2;
      y2 := if ToSize(y2) > inputH then ToI32(inputH) else y2;
      c := FaceCoordinate(x1, y1, x2, y2);
      assert c == Clamp(raw, inputH, inputW);
    }

    /** Lines 141-153: the five points of one landmark set in pixels. */
    method PointsToImage(l: Landmarks, g: Letterbox) returns (r: Landmarks)
      requires |l.points| == LandSize
      ensures r == RemapLandmarks(l, g)
    {
      var points := l.points;
      var j := 0;
      while j < PointCount
        invariant j <= PointCount && |points| == LandSize
        invariant forall k :: 0 <= k < LandSize ==>
                    points[k] == if k < 2 * j then RemapPoint(l.points[k], g, k) else l.points[k]
      {
        var x, y;
        if g.widthPad {
          x := Trunc(Pixels(points[2 * j], g)) - g.pad;
          y := Trunc(Pixels(points[2 * j + 1], g));
        } else {
          x := Trunc(Pixels(points[2 * j], g));
          y := Trunc(Pixels(points[2 * j + 1], g)) - g.pad;
        }
        points := points[2 * j := x as real][2 * j + 1 := y as real];
        j := j + 1;
      }
      r := Landmarks(points);
    }

    /** Lines 86-156: decode, then map every box and landmark set back to
        the input image, replacing the previous result. `order` is the
        permutation `qsort` produces inside `decode`. */
    method Postprocess(o: NetOutputs, anchors: seq<Anchor>, softmaxFace: (real, real) -> real,
                       exp: real -> real, sInit: seq<int>, order: seq<int>)
      requires o.WellShaped() && |anchors| == AnchorCount && |sInit| == AnchorCount
      requires QsortOrder(o, softmaxFace, order)
      modifies this
      ensures GetResult() == Detections(o, anchors, softmaxFace, exp, order, inputH, inputW)
    {
      var predBox, landmarks := Decode.Decode(o, anchors, softmaxFace, exp, sInit, order, [], []);
      assert predBox == Pick(SortedBoxes(o, anchors, softmaxFace, exp, order), Kept(o, anchors, softmaxFace, exp, order));
      assert landmarks == Pick(SortedLandmarks(o, anchors, softmaxFace, order), Kept(o, anchors, softmaxFace, exp, order));
      DetectionsOfDecoded(o, anchors, softmaxFace, exp, order, inputH, inputW, predBox, landmarks);
      var g := LetterboxOf(inputH, inputW);

      StoreBoxes(predBox, g);
      StoreLandmarks(landmarks, g);
    }

    /** Lines 104-135: clear the result boxes, then push every decoded box
        mapped to the input image. */
    method StoreBoxes(predBox: seq<Box>, g: Letterbox)
      requires g == LetterboxOf(inputH, inputW)
      modifies this
      ensures resultBoxes == seq(|predBox|, k requires 0 <= k < |predBox| => RemapBox(predBox[k], inputH, inputW))
      ensures resultLandmarks == old(resultLandmarks)
    {
      resultBoxes := [];
      var i := 0;
      while i < |predBox|
        invariant i <= |predBox|
        invariant resultBoxes == seq(i, k requires 0 <= k < i => RemapBox(predBox[k], inputH, inputW))
        invariant resultLandmarks == old(resultLandmarks)
      {
        var box := CornersToImage(predBox[i], g);
        resultBoxes := resultBoxes + [box];
        i := i + 1;
      }
    }

    /** Lines 137-155: clear the result landmarks, then push every decoded
        landmark set mapped to the input image. */
    method StoreLandmarks(landmarks: seq<Landmarks>, g: Letterbox)
      requires forall k :: 0 <= k < |landmarks| ==> |landmarks[k].points| == LandSize
      modifies this
      ensures resultLandmarks == seq(|landmarks|, k requires 0 <= k < |landmarks| => RemapLandmarks(landmarks[k], g))
      ensures resultBoxes == old(resultBoxes)
    {
      resultLandmarks := [];
      var i := 0;
      while i < |landmarks|
        invariant i <= |landmarks|
        invariant resultLandmarks == seq(i, k requires 0 <= k < i => RemapLandmarks(landmarks[k], g))
        invariant resultBoxes == old(resultBoxes)
      {
        var landmark := PointsToImage(landmarks[i], g);
        resultLandmarks := resultLandmarks + [landmark];
        i := i + 1;
      }
    }
  }
}
