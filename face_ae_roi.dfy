/** `FaceAeRoi`: turns face boxes in model-input pixels into the sensor
    windows and weights of the ISP's auto-exposure ROI. */
module FaceAe {
  import opened CInt
  import opened Types
  import opened AeRoi

  /** `k_isp_ae_roi`: the number of windows in use and all eight entries. */
  datatype AeRoiConfig = AeRoiConfig(roiNum: nat, roiWindow: seq<RoiWindow>)

  /** `std::min(extent, sensor - offset)` with `k_u32` subtraction: cuts the
      extent back to the sensor edge unless the offset is already past it,
      where the subtraction wraps and nothing is cut. The cut extent is a
      `k_u32` no larger than the original; it ends at or before the sensor
      edge when the offset is on the sensor, and is left whole when it
      already fits. */
  function ClipToEdge(offset: nat, extent: nat, sensor: nat): (r: nat)
    requires IsU32(offset) && IsU32(extent) && IsU32(sensor)
    ensures IsU32(r) && r <= extent
    ensures offset <= sensor ==> offset + r <= sensor
    ensures offset + extent <= sensor ==> r == extent
  {
    var room := SubU32(sensor, offset);
    if extent < room then extent else room
  }

  /** One axis of a box in sensor pixels (`h_offset`/`w`, or `v_offset`/`h`):
      the start clipped at zero, both scaled on `k_u32`, and the extent cut
      back to the sensor edge. */
  function SensorSpan(lo: int, hi: int, model: nat, sensor: nat): (r: (nat, nat))
    requires model > 0 && IsU32(sensor)
    ensures IsU32(r.0) && IsU32(r.1)
    ensures r.0 <= sensor ==> r.0 + r.1 <= sensor
  {
    var start := ToU32(if lo > 0 then lo else 0);
    var offset := ScaleU32(start, sensor, model);
    var extent := ScaleU32(SubU32(ToU32(hi), start), sensor, model);
    (offset, ClipToEdge(offset, extent, sensor))
  }

  /** The sensor window of one face box. */
  function SensorWindow(b: FaceCoordinate, modelW: nat, modelH: nat, sensorW: nat, sensorH: nat): (w: Window)
    requires modelW > 0 && modelH > 0 && IsU32(sensorW) && IsU32(sensorH)
    ensures w.hOffset <= sensorW ==> w.hOffset + w.width <= sensorW
    ensures w.vOffset <= sensorH ==> w.vOffset + w.height <= sensorH
  {
    var (hOffset, width) := SensorSpan(b.x1, b.x2, modelW, sensorW);
    var (vOffset, height) := SensorSpan(b.y1, b.y2, modelH, sensorH);
    Window(hOffset, vOffset, width, height)
  }

  /** The windows of the first `n` boxes, in order. */
  function WindowsFor(boxes: seq<FaceCoordinate>, modelW: nat, modelH: nat, sensorW: nat, sensorH: nat, n: nat): (ws: seq<Window>)
    requires modelW > 0 && modelH > 0 && IsU32(sensorW) && IsU32(sensorH)
    requires n <= |boxes|
    ensures |ws| == n
    decreases n
  {
    if n == 0 then []
    else WindowsFor(boxes, modelW, modelH, sensorW, sensorH, n - 1)
         + [SensorWindow(boxes[n - 1], modelW, modelH, sensorW, sensorH)]
  }

  /** Window `k` of `WindowsFor` is the window of box `k`. */
  lemma {:induction false} WindowsForAt(boxes: seq<FaceCoordinate>, modelW: nat, modelH: nat, sensorW: nat, sensorH: nat, n: nat, k: nat)
    requires modelW > 0 && modelH > 0 && IsU32(sensorW) && IsU32(sensorH)
    requires k < n <= |boxes|
    ensures WindowsFor(boxes, modelW, modelH, sensorW, sensorH, n)[k] == SensorWindow(boxes[k], modelW, modelH, sensorW, sensorH)
    decreases n
  {
    if k < n - 1 {
      WindowsForAt(boxes, modelW, modelH, sensorW, sensorH, n - 1, k);
    }
  }

  /** The ROI value holding windows `ws` (at most eight) with their
      weights, the rest of the struct zeroed. */
  function AeRoiOf(ws: seq<Window>): (r: AeRoiConfig)
    requires |ws| <= MaxWindows
    ensures r.roiNum == |ws| && |r.roiWindow| == MaxWindows
    ensures forall i :: 0 <= i < |ws| ==> r.roiWindow[i].window == ws[i]
    ensures forall i :: |ws| <= i < MaxWindows ==> r.roiWindow[i] == ZeroWindow
  {
    var weights := WeightsOf(ws);
    AeRoiConfig(|ws|, seq(MaxWindows, i requires 0 <= i < MaxWindows =>
      if i < |ws| then RoiWindow(ws[i], weights[i]) else ZeroWindow))
  }

  /** The ROI `Update` hands to the ISP for `boxes`: the windows of the
      first (at most eight) boxes. */
  function AeRoiFor(boxes: seq<FaceCoordinate>, modelW: nat, modelH: nat, sensorW: nat, sensorH: nat): (r: AeRoiConfig)
    requires modelW > 0 && modelH > 0 && IsU32(sensorW) && IsU32(sensorH)
    ensures r.roiNum == RoiCount(|boxes|) && |r.roiWindow| == MaxWindows
    ensures forall i :: r.roiNum <= i < MaxWindows ==> r.roiWindow[i] == ZeroWindow
  {
    AeRoiOf(WindowsFor(boxes, modelW, modelH, sensorW, sensorH, RoiCount(|boxes|)))
  }

  /** Window `i` in use is the sensor window of box `i`. */
  lemma AeRoiForWindows(boxes: seq<FaceCoordinate>, modelW: nat, modelH: nat, sensorW: nat, sensorH: nat)
    requires modelW > 0 && modelH > 0 && IsU32(sensorW) && IsU32(sensorH)
    ensures var r := AeRoiFor(boxes, modelW, modelH, sensorW, sensorH);
            forall i :: 0 <= i < r.roiNum ==>
              r.roiWindow[i].window == SensorWindow(boxes[i], modelW, modelH, sensorW, sensorH)
  {
    var n := RoiCount(|boxes|);
    var ws := WindowsFor(boxes, modelW, modelH, sensorW, sensorH, n);
    forall i | 0 <= i < n
      ensures ws[i] == SensorWindow(boxes[i], modelW, modelH, sensorW, sensorH)
    {
      WindowsForAt(boxes, modelW, modelH, sensorW, sensorH, n, i);
    }
  }

  /** The weights of the windows in use. */
  function Weights(r: AeRoiConfig): (ws: seq<Weight>)
    requires r.roiNum <= |r.roiWindow|
    ensures |ws| == r.roiNum
  {
    seq(r.roiNum, i requires 0 <= i < r.roiNum => r.roiWindow[i].weight)
  }

  /** When the areas of the windows add up to a positive `k_u32` total, the
      weights stored are fractions in [0, 1] that add up to one. */
  lemma AeRoiWeightsSumToOne(ws: seq<Window>)
    requires |ws| <= MaxWindows && 0 < Sum(Areas(ws)) < U32Modulus
    ensures var weights := Weights(AeRoiOf(ws));
            (forall i :: 0 <= i < |weights| ==> weights[i].Ratio? && 0.0 <= weights[i].value <= 1.0)
            && RatioTotal(weights) == 1.0
  {
    WeightsSumToOne(ws);
    assert Weights(AeRoiOf(ws)) == WeightsOf(ws);
  }

  /** When every window is empty, each weight in use is 0/0. */
  lemma AeRoiZeroAreas(ws: seq<Window>)
    requires |ws| <= MaxWindows && Sum(Areas(ws)) == 0
    ensures forall i :: 0 <= i < |ws| ==> AeRoiOf(ws).roiWindow[i].weight == NaN
  {
    ZeroAreasGiveNaN(ws);
  }

  /** The entries after the windows loop of `Update`: windows stored,
      weights still zero. */
  function Unweighted(ws: seq<Window>): (r: seq<RoiWindow>)
    requires |ws| <= MaxWindows
    ensures |r| == MaxWindows
  {
    seq(MaxWindows, k requires 0 <= k < MaxWindows =>
      if k < |ws| then RoiWindow(ws[k], Ratio(0.0)) else ZeroWindow)
  }

  lemma UnweightedSnoc(ws: seq<Window>, w: Window)
    requires |ws| < MaxWindows
    ensures Unweighted(ws + [w]) == Unweighted(ws)[|ws| := RoiWindow(w, Ratio(0.0))]
  {
    assert forall k :: 0 <= k < |ws| ==> (ws + [w])[k] == ws[k];
  }

  /** Filling in the weights of the stored windows gives `AeRoiOf`. */
  lemma WeighedIsAeRoiOf(ws: seq<Window>)
    requires |ws| <= MaxWindows
    ensures Weighed(Unweighted(ws), Areas(ws), ToU32(Sum(Areas(ws)))) == AeRoiOf(ws).roiWindow
  {
    var areas := Areas(ws);
    var weights := WeightsOf(ws);
    forall k | 0 <= k < MaxWindows
      ensures Weighed(Unweighted(ws), areas, ToU32(Sum(areas)))[k] == AeRoiOf(ws).roiWindow[k]
    {
      if k < |ws| {
        assert weights[k] == FloatDiv(areas[k], ToU32(Sum(areas)));
      }
    }
  }

  /** Without boxes, no window is in use and all entries stay zeroed. */
  lemma AeRoiEmpty(modelW: nat, modelH: nat, sensorW: nat, sensorH: nat)
    requires modelW > 0 && modelH > 0 && IsU32(sensorW) && IsU32(sensorH)
    ensures AeRoiFor([], modelW, modelH, sensorW, sensorH) == AeRoiConfig(0, seq(MaxWindows, _ => ZeroWindow))
  {
    var r := AeRoiFor([], modelW, modelH, sensorW, sensorH);
    assert r.roiWindow == seq(MaxWindows, _ => ZeroWindow);
  }

  /** Two floored quotients add up to at most the quotient of the sum. */
  lemma QuotientsBounded(a: nat, b: nat, m: nat, bound: nat)
    requires m > 0 && a + b <= m * bound
    ensures a / m + b / m <= bound
  {
    var p, q := a / m, b / m;
    DivMul(a, m);
    DivMul(b, m);
    assert (p + q) * m == p * m + q * m;
    assert (bound + 1) * m == m * bound + m;
    if p + q > bound {
      MulMonotone(bound + 1, p + q, m);
    }
  }

  /** A box whose axis lies inside the model input and whose scaled
      coordinates fit in `k_u32` keeps the exact offset formula and is not
      cut back. */
  lemma {:induction false} SensorSpanInside(lo: int, hi: int, model: nat, sensor: nat)
    requires 0 < model && IsU32(model) && IsU32(sensor) && model * sensor < U32Modulus
    requires 0 <= lo <= hi <= model
    ensures SensorSpan(lo, hi, model, sensor) == (MulDiv(lo, sensor, model), MulDiv(hi - lo, sensor, model))
  {
    var d := hi - lo;
    var a, c := lo * sensor, d * sensor;
    MulMonotone(lo, model, sensor);
    MulMonotone(d, model, sensor);
    MulMonotone(hi, model, sensor);
    assert a + c == hi * sensor;
    ScaleU32Exact(lo, sensor, model);
    ScaleU32Exact(d, sensor, model);
    QuotientsBounded(a, c, model, sensor);
    assert SubU32(ToU32(hi), ToU32(lo)) == d;
    assert ClipToEdge(MulDiv(lo, sensor, model), MulDiv(d, sensor, model), sensor) == MulDiv(d, sensor, model);
  }

  /** A box inside the model input maps to the window given by the offset
      formulas, with no cut at the sensor edge. */
  lemma {:induction false} SensorWindowInside(b: FaceCoordinate, modelW: nat, modelH: nat, sensorW: nat, sensorH: nat)
    requires 0 < modelW && 0 < modelH && IsU32(modelW) && IsU32(modelH) && IsU32(sensorW) && IsU32(sensorH)
    requires modelW * sensorW < U32Modulus && modelH * sensorH < U32Modulus
    requires 0 <= b.x1 <= b.x2 <= modelW && 0 <= b.y1 <= b.y2 <= modelH
    ensures SensorWindow(b, modelW, modelH, sensorW, sensorH)
         == Window(MulDiv(b.x1, sensorW, modelW), MulDiv(b.y1, sensorH, modelH),
                   MulDiv(b.x2 - b.x1, sensorW, modelW), MulDiv(b.y2 - b.y1, sensorH, modelH))
  {
    SensorSpanInside(b.x1, b.x2, modelW, sensorW);
    SensorSpanInside(b.y1, b.y2, modelH, sensorH);
  }

  /** An inverted box (`x2 < x1`) is not empty on the sensor: the `k_u32`
      difference wraps and the width is cut back to the sensor edge. */
  lemma InvertedBoxReachesEdge()
    ensures SensorSpan(10, 5, 320, 1920) == (60, 1860)
  {
    assert SubU32(5, 10) == U32Modulus - 5;
    assert MulU32(10, 1920) == 19200;
    assert MulU32(U32Modulus - 5, 1920) == U32Modulus - 9600;
    DivU32IsDiv(19200, 320);
    DivU32IsDiv(U32Modulus - 9600, 320);
  }

  /** `FaceAeRoi`: the model and sensor geometry are fixed at construction;
      `Update` builds the ROI value and hands it to the ISP. */
  class FaceAeRoi {
    const dev: nat
    const modelW: nat
    const modelH: nat
    const sensorW: nat
    const sensorH: nat

    /** The integer divisions of `Update` need a non-zero model size. */
    constructor (dev: nat, modelW: nat, modelH: nat, sensorW: nat, sensorH: nat)
      requires modelW > 0 && modelH > 0
      requires IsU32(modelW) && IsU32(modelH) && IsU32(sensorW) && IsU32(sensorH)
      ensures this.dev == dev && this.modelW == modelW && this.modelH == modelH
      ensures this.sensorW == sensorW && this.sensorH == sensorH
    {
      this.dev := dev;
      this.modelW := modelW;
      this.modelH := modelH;
      this.sensorW := sensorW;
      this.sensorH := sensorH;
    }

    predicate Valid()
    {
      modelW > 0 && modelH > 0 && IsU32(sensorW) && IsU32(sensorH)
    }

    /** One window, computed step by step as the loop body does. */
    method WindowOf(b: FaceCoordinate) returns (w: Window)
      requires Valid()
      ensures w.hOffset <= sensorW ==> w.hOffset + w.width <= sensorW
      ensures w.vOffset <= sensorH ==> w.vOffset + w.height <= sensorH
      ensures w == SensorWindow(b, modelW, modelH, sensorW, sensorH)
    {
      var x1 := ToU32(if b.x1 > 0 then b.x1 else 0);
      var y1 := ToU32(if b.y1 > 0 then b.y1 else 0);
      var hOffset := ScaleU32(x1, sensorW, modelW);
      var vOffset := ScaleU32(y1, sensorH, modelH);
      var width := ScaleU32(SubU32(ToU32(b.x2), x1), sensorW, modelW);
      var height := ScaleU32(SubU32(ToU32(b.y2), y1), sensorH, modelH);
      width := ClipToEdge(hOffset, width, sensorW);
      height := ClipToEdge(vOffset, height, sensorH);
      w := Window(hOffset, vOffset, width, height);
    }

    /** One step of the windows loop: window `i` and its area stored. */
    static method StoreEntry(entries: array<RoiWindow>, area: array<nat>, i: nat, w: Window,
                             ghost ws: seq<Window>)
      requires i == |ws| < MaxWindows == entries.Length && i < area.Length
      requires entries[..] == Unweighted(ws) && area[..i] == Areas(ws)
      modifies entries, area
      ensures entries[..] == Unweighted(ws + [w])
      ensures area[..i + 1] == Areas(ws + [w])
    {
      UnweightedSnoc(ws, w);
      AreasSnoc(ws, w);
      entries[i] := RoiWindow(w, Ratio(0.0));
      area[i] := Area(w);
      assert area[..i + 1] == area[..i] + [area[i]];
    }

    /** The windows loop of `Update`: window `i` and its area for every box
        in use, weights left at zero. */
    method StoreWindows(boxes: seq<FaceCoordinate>, entries: array<RoiWindow>, area: array<nat>)
        returns (ghost ws: seq<Window>)
      requires Valid() && entries.Length == MaxWindows && area.Length == MaxWindows
      requires forall k :: 0 <= k < MaxWindows ==> entries[k] == ZeroWindow
      modifies entries, area
      ensures ws == WindowsFor(boxes, modelW, modelH, sensorW, sensorH, RoiCount(|boxes|))
      ensures entries[..] == Unweighted(ws)
      ensures area[..|ws|] == Areas(ws)
    {
      var n := RoiCount(|boxes|);
      ws := [];
      assert entries[..] == Unweighted(ws);
      var i := 0;
      while i < n
        invariant 0 <= i <= n && |ws| == i
        invariant ws == WindowsFor(boxes, modelW, modelH, sensorW, sensorH, i)
        invariant entries[..] == Unweighted(ws)
        invariant area[..i] == Areas(ws)
      {
        var w := WindowOf(boxes[i]);
        StoreEntry(entries, area, i, w, ws);
        ws := ws + [w];
        i := i + 1;
      }
    }

    /** The ROI value `Update` passes to the ISP for `boxes`. */
    method Update(boxes: seq<FaceCoordinate>) returns (roi: AeRoiConfig)
      requires Valid()
      ensures roi == AeRoiFor(boxes, modelW, modelH, sensorW, sensorH)
    {
      var entries := new RoiWindow[MaxWindows](_ => ZeroWindow);
      var n := if |boxes| < MaxWindows then |boxes| else MaxWindows;
      if n == 0 {
        roi := AeRoiConfig(0, entries[..]);
        AeRoiEmpty(modelW, modelH, sensorW, sensorH);
        return;
      }
      var area := new nat[MaxWindows](_ => 0);
      ghost var ws := StoreWindows(boxes, entries, area);
      forall k | 0 <= k < n
        ensures IsU32(area[k])
      {
        assert area[k] == area[..n][k];
      }
      var sum := TotalArea(area, n);
      StoreWeights(entries, area, n, sum);
      WeighedIsAeRoiOf(ws);
      roi := AeRoiConfig(n, entries[..]);
    }
  }
}
