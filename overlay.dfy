/** The face markers of the frame loops in both applications' `main`: each
    box of a frame is drawn on the display as a rectangle numbered from 1,
    markers left over from a frame with more faces are switched off, and on
    exit the last frame's markers are switched off. Both `main.cc` files run
    the same code. */
module Overlay {
  import opened CInt
  import opened Types

  /** `k_vo_draw_frame`: enable flag, the two corners on the display, and
      the marker number. */
  datatype DrawFrame = DrawFrame(drawEn: nat, xStart: nat, yStart: nat, xEnd: nat, yEnd: nat, frameNum: nat)

  /** The initial value `{1, 16, 16, 128, 128, 1}` of the global
      `vo_frame`. */
  const InitialFrame: DrawFrame := DrawFrame(1, 16, 16, 128, 128, 1)

  /** `ISP_CHN1_WIDTH`/`ISP_CHN1_HEIGHT` (the model channel) and
      `ISP_CHN0_WIDTH`/`ISP_CHN0_HEIGHT` (the display channel). */
  const ModelW: nat := 1280
  const ModelH: nat := 720
  const DisplayW: nat := 1920
  const DisplayH: nat := 1080

  /** `(uint32_t)x * ISP_CHN0_WIDTH / ISP_CHN1_WIDTH` on `uint32_t`: a
      `uint32_t` result, and on the model channel the exact scaled
      coordinate, which lies on the display. */
  function DisplayX(x: int): (r: nat)
    ensures IsU32(r)
    ensures 0 <= x <= ModelW ==> r == x * DisplayW / ModelW && r <= DisplayW
  {
    MulU32(ToU32(x), DisplayW) / ModelW
  }

  /** `(uint32_t)y * ISP_CHN0_HEIGHT / ISP_CHN1_HEIGHT` on `uint32_t`, with
      the same guarantees as `DisplayX`. */
  function DisplayY(y: int): (r: nat)
    ensures IsU32(r)
    ensures 0 <= y <= ModelH ==> r == y * DisplayH / ModelH && r <= DisplayH
  {
    MulU32(ToU32(y), DisplayH) / ModelH
  }

  /** A coordinate on the model channel scales to the display without
      wrapping, stays on the display, and keeps its order. */
  lemma DisplayScale(x: int, x': int)
    requires 0 <= x <= x' <= ModelW
    ensures DisplayX(x) == x * DisplayW / ModelW <= DisplayX(x') <= DisplayW
  { }

  lemma DisplayScaleY(y: int, y': int)
    requires 0 <= y <= y' <= ModelH
    ensures DisplayY(y) == y * DisplayH / ModelH <= DisplayY(y') <= DisplayH
  { }

  /** A negative coordinate wraps in the `uint32_t` cast and lands far off
      the display. */
  lemma NegativeCoordinateWraps()
    ensures DisplayX(-1) == 3355441
  {
    assert ToU32(-1) == U32Modulus - 1;
    assert MulU32(U32Modulus - 1, DisplayW) == U32Modulus - DisplayW;
  }

  /** The draw of box `i`: enabled, its corners on the display, number
      `i + 1`. */
  function BoxMarker(b: FaceCoordinate, i: nat): DrawFrame
  {
    DrawFrame(1, DisplayX(b.x1), DisplayY(b.y1), DisplayX(b.x2), DisplayY(b.y2), i + 1)
  }

  /** The draws of a frame's boxes, in order. */
  function BoxMarkers(boxes: seq<FaceCoordinate>): (r: seq<DrawFrame>)
    ensures |r| == |boxes|
  {
    seq(|boxes|, i requires 0 <= i < |boxes| => BoxMarker(boxes[i], i))
  }

  /** The draws that switch off markers `from + 1 .. to`; apart from the
      flag and the number they repeat `frame`, the value `vo_frame` held. */
  function Disables(frame: DrawFrame, from: nat, to: nat): (r: seq<DrawFrame>)
    ensures |r| == if from < to then to - from else 0
  {
    seq(if from < to then to - from else 0, k requires 0 <= k => frame.(drawEn := 0, frameNum := from + k + 1))
  }

  lemma BoxMarkersSnoc(boxes: seq<FaceCoordinate>, i: nat)
    requires i < |boxes|
    ensures BoxMarkers(boxes[..i + 1]) == BoxMarkers(boxes[..i]) + [BoxMarker(boxes[i], i)]
  { }

  /** Whether marker `m` is on the display after the draws in `log`: the
      last draw with that number decides, and a marker never drawn is off. */
  function Shown(log: seq<DrawFrame>, m: nat): bool
  {
    if |log| == 0 then false
    else if log[|log| - 1].frameNum == m then log[|log| - 1].drawEn != 0
    else Shown(log[..|log| - 1], m)
  }

  /** A run of draws numbering markers `base + 1 .. base + |run|`, all with
      the same flag, decides exactly those markers and leaves the rest as
      they were. */
  lemma {:induction false} ShownAfterRun(log: seq<DrawFrame>, run: seq<DrawFrame>, base: nat, on: bool, m: nat)
    requires forall k :: 0 <= k < |run| ==> run[k].frameNum == base + k + 1 && (run[k].drawEn != 0) == on
    ensures Shown(log + run, m) == if base < m <= base + |run| then on else Shown(log, m)
    decreases |run|
  {
    if |run| == 0 {
      assert log + run == log;
    } else {
      var init := run[..|run| - 1];
      assert (log + run)[..|log + run| - 1] == log + init;
      ShownAfterRun(log, init, base, on, m);
    }
  }

  /** A frame: when at most `count` markers were on, switching off
      `|boxes| + 1 .. count` and drawing the boxes leaves exactly markers
      `1 .. |boxes|` on. */
  lemma FrameShowsBoxes(log: seq<DrawFrame>, count: nat, frame: DrawFrame, boxes: seq<FaceCoordinate>)
    requires forall m: nat :: Shown(log, m) ==> 1 <= m <= count
    ensures forall m: nat :: Shown(log + Disables(frame, |boxes|, count) + BoxMarkers(boxes), m) <==> 1 <= m <= |boxes|
  {
    var off := Disables(frame, |boxes|, count);
    forall m: nat
      ensures Shown(log + off + BoxMarkers(boxes), m) <==> 1 <= m <= |boxes|
    {
      ShownAfterRun(log, off, |boxes|, false, m);
      ShownAfterRun(log + off, BoxMarkers(boxes), 0, true, m);
    }
  }

  /** Exit: when only markers `1 .. n` were on, switching those off leaves
      none on. */
  lemma ExitHidesAll(log: seq<DrawFrame>, n: nat, frame: DrawFrame)
    requires forall m: nat :: Shown(log, m) ==> 1 <= m <= n
    ensures forall m: nat :: !Shown(log + Disables(frame, 0, n), m)
  {
    forall m: nat
      ensures !Shown(log + Disables(frame, 0, n), m)
    {
      ShownAfterRun(log, Disables(frame, 0, n), 0, false, m);
    }
  }

  /** What the frame loop keeps across frames: the global `vo_frame`,
      `face_count`, the `boxes` vector of the last frame, and every
      `vo_frame` value passed to `kd_mpi_vo_draw_frame`, in order. */
  class Markers {
    var voFrame: DrawFrame
    var faceCount: nat
    var boxes: seq<FaceCoordinate>
    var drawn: seq<DrawFrame>

    /** Only the last frame's markers are on, and `face_count` covers
        them. */
    ghost predicate Valid()
      reads this
    {
      |boxes| <= faceCount && forall m: nat :: Shown(drawn, m) ==> 1 <= m <= |boxes|
    }

    /** Before the first frame: `face_count = 1`, no boxes, nothing drawn. */
    constructor ()
      ensures Valid()
      ensures voFrame == InitialFrame && faceCount == 1 && boxes == [] && drawn == []
    {
      voFrame := InitialFrame;
      faceCount := 1;
      boxes := [];
      drawn := [];
    }

    /** The draws that switch off markers `from + 1 .. to`, one call per
        marker, changing only the flag and the number of `vo_frame`. */
    method SwitchOff(from: nat, to: nat)
      requires from <= to
      modifies this
      ensures drawn == old(drawn) + Disables(old(voFrame), from, to)
      ensures voFrame == if from < to then old(voFrame).(drawEn := 0, frameNum := to) else old(voFrame)
      ensures faceCount == old(faceCount) && boxes == old(boxes)
    {
      ghost var start := drawn;
      ghost var frame := voFrame;
      var i := from;
      while i < to
        invariant from <= i <= to
        invariant drawn == start + Disables(frame, from, i)
        invariant voFrame == if i == from then frame else frame.(drawEn := 0, frameNum := i)
        invariant faceCount == old(faceCount) && boxes == old(boxes)
      {
        voFrame := voFrame.(drawEn := 0, frameNum := i + 1);
        assert Disables(frame, from, i + 1) == Disables(frame, from, i) + [voFrame];
        drawn := drawn + [voFrame];
        i := i + 1;
      }
    }

    /** The draws of the boxes of a frame, numbered from 1. */
    method DrawBoxes(detected: seq<FaceCoordinate>)
      modifies this
      ensures drawn == old(drawn) + BoxMarkers(detected)
      ensures voFrame == if 0 < |detected| then BoxMarker(detected[|detected| - 1], |detected| - 1) else old(voFrame)
      ensures faceCount == old(faceCount) && boxes == old(boxes)
    {
      ghost var start := drawn;
      var i, j := 0, 0;
      while i < |detected|
        invariant 0 <= i <= |detected| && j == i
        invariant drawn == start + BoxMarkers(detected[..i])
        invariant voFrame == if 0 < i then BoxMarker(detected[i - 1], i - 1) else old(voFrame)
        invariant faceCount == old(faceCount) && boxes == old(boxes)
      {
        var b := detected[i];
        voFrame := voFrame.(drawEn := 1, xStart := DisplayX(b.x1), yStart := DisplayY(b.y1),
                            xEnd := DisplayX(b.x2), yEnd := DisplayY(b.y2));
        j := j + 1;
        voFrame := voFrame.(frameNum := j);
        BoxMarkersSnoc(detected, i);
        drawn := drawn + [voFrame];
        i := i + 1;
      }
      assert detected[..i] == detected;
    }

    /** One frame with the boxes `detected`: stale markers switched off,
        the boxes drawn as markers `1 .. |detected|`, then `face_count`
        set to their number. */
    method Frame(detected: seq<FaceCoordinate>)
      requires Valid()
      modifies this
      ensures Valid()
      ensures boxes == detected && faceCount == |detected|
      ensures drawn == old(drawn) + Disables(old(voFrame), |detected|, old(faceCount)) + BoxMarkers(detected)
      ensures voFrame == if 0 < |detected| then BoxMarker(detected[|detected| - 1], |detected| - 1)
                         else if |detected| < old(faceCount) then old(voFrame).(drawEn := 0, frameNum := old(faceCount))
                         else old(voFrame)
      ensures forall m: nat :: Shown(drawn, m) <==> 1 <= m <= |detected|
    {
      ghost var shown := drawn + Disables(voFrame, |detected|, faceCount) + BoxMarkers(detected);
      FrameShowsBoxes(drawn, faceCount, voFrame, detected);
      if |detected| < faceCount {
        SwitchOff(|detected|, faceCount);
      } else {
        assert Disables(voFrame, |detected|, faceCount) == [];
      }
      DrawBoxes(detected);
      faceCount := |detected|;
      boxes := detected;
      assert drawn == shown;
    }

    /** Leaving the loop: the last frame's markers `1 .. |boxes|` switched
        off, then `boxes` cleared. */
    method Exit()
      requires Valid()
      modifies this
      ensures Valid()
      ensures drawn == old(drawn) + Disables(old(voFrame), 0, |old(boxes)|)
      ensures voFrame == if 0 < |old(boxes)| then old(voFrame).(drawEn := 0, frameNum := |old(boxes)|) else old(voFrame)
      ensures boxes == [] && faceCount == old(faceCount)
      ensures forall m: nat :: !Shown(drawn, m)
    {
      ExitHidesAll(drawn, |boxes|, voFrame);
      SwitchOff(0, |boxes|);
      boxes := [];
    }
  }
}
