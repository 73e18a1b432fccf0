/** `face_location_convert_roi` of the sample application: the same
    boxes-to-ROI conversion as `FaceAeRoi::Update`, written through a
    caller's `k_isp_ae_roi` pointer, with a function-static `area` buffer,
    an offset added after scaling and the `CHECK_BOUNDARY` macro in place of
    `std::min`. */
module SampleAe {
  import opened CInt
  import opened Types
  import opened AeRoi

  /** The arguments of `face_location_convert_roi` after the boxes and the
      pointer (`h_offset`, `v_offset`, `scale_h`, `scale_v`, `width`,
      `height`), and the sensor size it reads from the global
      `sensor_info`. */
  datatype Geometry = Geometry(hOffset: nat, vOffset: nat, scaleH: nat, scaleV: nat,
                               width: nat, height: nat, sensorW: nat, sensorH: nat)

  /** `k_u32` arguments, and no division by zero. */
  predicate ValidGeometry(g: Geometry)
  {
    IsU32(g.hOffset) && IsU32(g.vOffset) && 0 < g.scaleH && 0 < g.scaleV
    && IsU32(g.width) && IsU32(g.height) && IsU32(g.sensorW) && IsU32(g.sensorH)
  }

  /** The geometry `main` passes: no offsets, the 1280x720 model channel
      scaled to 1920x1080, and the sensor size. */
  function CallSiteGeometry(sensorW: nat, sensorH: nat): Geometry
  {
    Geometry(0, 0, 1280, 720, 1920, 1080, sensorW, sensorH)
  }

  /** `CHECK_BOUNDARY(s, o, e)`: `s = (o + s) > e ? (e - o) : s`, every
      operand `k_u32`, so both the sum and the difference can wrap. A size
      that fits is left as it is; a cut one ends exactly at the edge when
      the offset is on the sensor and the sum does not wrap. */
  function CheckBoundary(s: nat, o: nat, e: nat): (r: nat)
    requires IsU32(s) && IsU32(o) && IsU32(e)
    ensures IsU32(r)
    ensures o + s <= e ==> r == s
    ensures o <= e && o + s < U32Modulus ==> o + r <= e
    ensures o <= e && e < o + s < U32Modulus ==> o + r == e
  {
    if AddU32(o, s) > e then SubU32(e, o) else s
  }

  /** An offset past the edge gets the wrapped difference `e - o`, a size of
      nearly 2^32. */
  lemma CheckBoundaryPastEdge()
    ensures CheckBoundary(10, 2000, 1920) == U32Modulus - 80
  { }

  /** When `o + s` wraps, the size is kept even though it runs past the
      edge. */
  lemma CheckBoundaryWrappedSum()
    ensures CheckBoundary(U32Modulus - 5, 10, 1920) == U32Modulus - 5
  { }

  /** One axis of a box: the start clipped at zero and scaled, then moved by
      the offset, and the scaled extent passed through `CHECK_BOUNDARY`. */
  function ConvertedSpan(lo: int, hi: int, offset: nat, scale: nat, size: nat, edge: nat): (r: (nat, nat))
    requires IsU32(offset) && 0 < scale && IsU32(size) && IsU32(edge)
    ensures IsU32(r.0) && IsU32(r.1)
    ensures r.0 <= edge && r.0 + r.1 < U32Modulus ==> r.0 + r.1 <= edge
  {
    var start := ToU32(if lo < 0 then 0 else lo);
    var o := AddU32(ScaleU32(start, size, scale), offset);
    (o, CheckBoundary(ScaleU32(SubU32(ToU32(hi), start), size, scale), o, edge))
  }

  /** The window `face_location_convert_roi` stores for one box. */
  function ConvertedWindow(b: FaceCoordinate, g: Geometry): (w: Window)
    requires ValidGeometry(g)
    ensures IsU32(w.hOffset) && IsU32(w.vOffset) && IsU32(w.width) && IsU32(w.height)
    ensures w.hOffset <= g.sensorW && w.hOffset + w.width < U32Modulus ==> w.hOffset + w.width <= g.sensorW
    ensures w.vOffset <= g.sensorH && w.vOffset + w.height < U32Modulus ==> w.vOffset + w.height <= g.sensorH
  {
    var (hOffset, width) := ConvertedSpan(b.x1, b.x2, g.hOffset, g.scaleH, g.width, g.sensorW);
    var (vOffset, height) := ConvertedSpan(b.y1, b.y2, g.vOffset, g.scaleV, g.height, g.sensorH);
    Window(hOffset, vOffset, width, height)
  }

  /** The windows of the first `n` boxes, in order. */
  function ConvertedWindows(boxes: seq<FaceCoordinate>, g: Geometry, n: nat): (ws: seq<Window>)
    requires ValidGeometry(g) && n <= |boxes|
    ensures |ws| == n
    decreases n
  {
    if n == 0 then []
    else ConvertedWindows(boxes, g, n - 1) + [ConvertedWindow(boxes[n - 1], g)]
  }

  /** Window `k` of `ConvertedWindows` is the window of box `k`. */
  lemma {:induction false} ConvertedWindowsAt(boxes: seq<FaceCoordinate>, g: Geometry, n: nat, k: nat)
    requires ValidGeometry(g) && k < n <= |boxes|
    ensures ConvertedWindows(boxes, g, n)[k] == ConvertedWindow(boxes[k], g)
    decreases n
  {
    if k < n - 1 {
      ConvertedWindowsAt(boxes, g, n - 1, k);
    }
  }

  /** Without an offset and with a divisor of at least 2 (as at the call in
      `main`), `o + s` cannot wrap, so a window that starts on the sensor
      ends on it. */
  lemma {:induction false} ConvertedSpanFits(lo: int, hi: int, scale: nat, size: nat, edge: nat)
    requires 2 <= scale && IsU32(size) && IsU32(edge)
    ensures var (o, s) := ConvertedSpan(lo, hi, 0, scale, size, edge);
            o <= edge ==> o + s <= edge
  {
    var start := ToU32(if lo < 0 then 0 else lo);
    var extent := ScaleU32(SubU32(ToU32(hi), start), size, scale);
    var o := ScaleU32(start, size, scale);
    DivU32Half(MulU32(start, size), scale);
    DivU32Half(MulU32(SubU32(ToU32(hi), start), size), scale);
    assert AddU32(o, 0) == o;
  }

  /** At the call in `main`, every window that starts on the sensor ends on
      it. */
  lemma ConvertedWindowFits(b: FaceCoordinate, sensorW: nat, sensorH: nat)
    requires IsU32(sensorW) && IsU32(sensorH)
    ensures var w := ConvertedWindow(b, CallSiteGeometry(sensorW, sensorH));
            (w.hOffset <= sensorW ==> w.hOffset + w.width <= sensorW)
            && (w.vOffset <= sensorH ==> w.vOffset + w.height <= sensorH)
  {
    ConvertedSpanFits(b.x1, b.x2, 1280, 1920, sensorW);
    ConvertedSpanFits(b.y1, b.y2, 720, 1080, sensorH);
  }

  /** A box axis inside the model input whose scaled coordinates fit in
      `k_u32`, moved by an offset that does not overflow and not cut at the
      edge, gets the offset formula `lo * size / scale + offset` and the
      extent `(hi - lo) * size / scale`. */
  lemma ConvertedSpanInside(lo: int, hi: int, offset: nat, scale: nat, size: nat, edge: nat)
    requires IsU32(offset) && 0 < scale && IsU32(scale) && IsU32(size) && IsU32(edge)
    requires scale * size < U32Modulus && 0 <= lo <= hi <= scale
    requires MulDiv(hi, size, scale) + offset <= edge
    ensures ConvertedSpan(lo, hi, offset, scale, size, edge)
         == (MulDiv(lo, size, scale) + offset, MulDiv(hi - lo, size, scale))
  {
    MulMonotone(hi, scale, size);
    ScaledPartsWithin(lo, hi, size, scale);
    MulMonotone(lo, hi, size);
    MulMonotone(hi - lo, hi, size);
    ScaleU32Exact(lo, size, scale);
    ScaleU32Exact(hi - lo, size, scale);
    assert SubU32(ToU32(hi), ToU32(lo)) == hi - lo;
  }

  /** The entries after the windows loop: window `k < |ws|` replaced, its
      weight and every later entry as they were. */
  function Rewindowed(ws: seq<Window>, before: seq<RoiWindow>): (r: seq<RoiWindow>)
    requires |ws| <= |before|
    ensures |r| == |before|
  {
    seq(|before|, k requires 0 <= k < |before| =>
      if k < |ws| then before[k].(window := ws[k]) else before[k])
  }

  /** The entries `face_location_convert_roi` leaves behind: window `k <
      |ws|` with its weight, every later entry untouched. */
  function Converted(ws: seq<Window>, before: seq<RoiWindow>): (r: seq<RoiWindow>)
    requires |ws| <= |before|
    ensures |r| == |before|
  {
    var weights := WeightsOf(ws);
    seq(|before|, k requires 0 <= k < |before| =>
      if k < |ws| then RoiWindow(ws[k], weights[k]) else before[k])
  }

  lemma RewindowedSnoc(ws: seq<Window>, w: Window, before: seq<RoiWindow>)
    requires |ws| < |before|
    ensures Rewindowed(ws + [w], before) == Rewindowed(ws, before)[|ws| := before[|ws|].(window := w)]
  {
    assert forall k :: 0 <= k < |ws| ==> (ws + [w])[k] == ws[k];
  }

  /** Weighing the rewindowed entries gives `Converted`. */
  lemma WeighedIsConverted(ws: seq<Window>, before: seq<RoiWindow>)
    requires |ws| <= |before|
    ensures Weighed(Rewindowed(ws, before), Areas(ws), ToU32(Sum(Areas(ws)))) == Converted(ws, before)
  {
    var areas := Areas(ws);
    var weights := WeightsOf(ws);
    forall k | 0 <= k < |before|
      ensures Weighed(Rewindowed(ws, before), areas, ToU32(Sum(areas)))[k] == Converted(ws, before)[k]
    {
      if k < |ws| {
        assert weights[k] == FloatDiv(areas[k], ToU32(Sum(areas)));
      }
    }
  }

  /** `k_isp_ae_roi`, reached through the `ae_roi` pointer. */
  class AeRoiBuffer {
    var roiNum: nat
    const roiWindow: array<RoiWindow>

    /** An uninitialised local struct: whatever `roiNum` and entries it
        holds. */
    constructor (roiNum: nat, entries: seq<RoiWindow>)
      requires |entries| == MaxWindows
      ensures this.roiNum == roiNum && roiWindow[..] == entries && fresh(roiWindow)
    {
      this.roiNum := roiNum;
      roiWindow := new RoiWindow[MaxWindows](k requires 0 <= k < MaxWindows => entries[k]);
    }
  }

  /** One window, computed step by step as the loop body does: the box's
      copy clamped at zero, then the four fields. */
  method ConvertWindow(b: FaceCoordinate, g: Geometry) returns (w: Window)
    requires ValidGeometry(g)
    ensures w.hOffset <= g.sensorW && w.hOffset + w.width < U32Modulus ==> w.hOffset + w.width <= g.sensorW
    ensures w.vOffset <= g.sensorH && w.vOffset + w.height < U32Modulus ==> w.vOffset + w.height <= g.sensorH
    ensures w == ConvertedWindow(b, g)
  {
    var x1 := if b.x1 < 0 then 0 else b.x1;
    var y1 := if b.y1 < 0 then 0 else b.y1;
    var hOffset := AddU32(ScaleU32(ToU32(x1), g.width, g.scaleH), g.hOffset);
    var vOffset := AddU32(ScaleU32(ToU32(y1), g.height, g.scaleV), g.vOffset);
    var width := ScaleU32(SubU32(ToU32(b.x2), ToU32(x1)), g.width, g.scaleH);
    var height := ScaleU32(SubU32(ToU32(b.y2), ToU32(y1)), g.height, g.scaleV);
    width := CheckBoundary(width, hOffset, g.sensorW);
    height := CheckBoundary(height, vOffset, g.sensorH);
    w := Window(hOffset, vOffset, width, height);
  }

  /** One step of the windows loop: the window of box `i` and its area
      stored. */
  method StoreEntry(boxes: seq<FaceCoordinate>, g: Geometry, i: nat,
                    entries: array<RoiWindow>, area: array<nat>,
                    ghost ws: seq<Window>, ghost before: seq<RoiWindow>)
      returns (ghost ws': seq<Window>)
    requires ValidGeometry(g) && i < |boxes| && ws == ConvertedWindows(boxes, g, i)
    requires i < entries.Length == |before| && i < area.Length
    requires entries[..] == Rewindowed(ws, before) && area[..i] == Areas(ws)
    modifies entries, area
    ensures ws' == ConvertedWindows(boxes, g, i + 1)
    ensures entries[..] == Rewindowed(ws', before)
    ensures area[..i + 1] == Areas(ws')
    ensures forall k :: i < k < area.Length ==> area[k] == old(area[k])
  {
    var w := ConvertWindow(boxes[i], g);
    RewindowedSnoc(ws, w, before);
    AreasSnoc(ws, w);
    entries[i] := entries[i].(window := w);
    area[i] := Area(w);
    assert area[..i + 1] == area[..i] + [area[i]];
    ws' := ws + [w];
  }

  /** The windows loop: window `i` stored and area `i` recorded for every box
      in use; weights and later entries are not touched. */
  method StoreConverted(boxes: seq<FaceCoordinate>, g: Geometry, n: nat,
                        entries: array<RoiWindow>, area: array<nat>)
      returns (ghost ws: seq<Window>)
    requires ValidGeometry(g) && n <= |boxes| && n <= entries.Length && n <= area.Length
    modifies entries, area
    ensures ws == ConvertedWindows(boxes, g, n)
    ensures entries[..] == Rewindowed(ws, old(entries[..]))
    ensures area[..n] == Areas(ws) && area[n..] == old(area[n..])
  {
    ghost var before := entries[..];
    ws := [];
    assert entries[..] == Rewindowed(ws, before);
    var i := 0;
    while i < n
      invariant 0 <= i <= n && |ws| == i
      invariant ws == ConvertedWindows(boxes, g, i)
      invariant entries[..] == Rewindowed(ws, before)
      invariant area[..i] == Areas(ws)
      invariant forall k :: i <= k < area.Length ==> area[k] == old(area[k])
    {
      ws := StoreEntry(boxes, g, i, entries, area, ws, before);
      i := i + 1;
    }
  }

  /** `face_location_convert_roi`: with no struct it writes nothing; with no
      boxes it only sets `roiNum` to 0; otherwise the first
      `min(|boxes|, 8)` entries get their windows and weights and the rest of
      the struct keeps whatever it held. The static `area` buffer is a
      parameter here. */
  method ConvertRoi(boxes: seq<FaceCoordinate>, roi: AeRoiBuffer?, area: array<nat>, g: Geometry)
    requires ValidGeometry(g) && area.Length == MaxWindows
    requires roi != null ==> roi.roiWindow.Length == MaxWindows
    modifies roi, area
    modifies if roi != null then {roi.roiWindow} else {}
    ensures roi == null ==> unchanged(area)
    ensures roi != null && |boxes| == 0 ==>
              roi.roiNum == 0 && unchanged(roi.roiWindow) && unchanged(area)
    ensures roi != null && |boxes| > 0 ==>
              var ws := ConvertedWindows(boxes, g, RoiCount(|boxes|));
              roi.roiNum == |ws|
              && roi.roiWindow[..] == Converted(ws, old(roi.roiWindow[..]))
              && area[..|ws|] == Areas(ws) && area[|ws|..] == old(area[|ws|..])
  {
    if roi == null {
      return;
    }
    var n := RoiCount(|boxes|);
    if |boxes| == 0 {
      roi.roiNum := 0;
      return;
    }
    roi.roiNum := n;
    ghost var before := roi.roiWindow[..];
    ghost var ws := StoreConverted(boxes, g, n, roi.roiWindow, area);
    forall k | 0 <= k < n
      ensures IsU32(area[k])
    {
      assert area[k] == area[..n][k];
    }
    var sum := TotalArea(area, n);
    StoreWeights(roi.roiWindow, area, n, sum);
    WeighedIsConverted(ws, before);
  }
}
