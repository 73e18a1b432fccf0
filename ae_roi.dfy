/** The auto-exposure region-of-interest value both ROI builders fill: up to
    eight sensor windows, each with an area-proportional weight. The ISP's
    `k_isp_ae_roi` struct is not part of this model; its fields are named
    here after the members the builders write. */
module AeRoi {
  import opened CInt

  /** Number of windows in `k_isp_ae_roi`, and the cap both builders apply
      to the number of boxes. */
  const MaxWindows: nat := 8

  /** `window`: a sensor-pixel rectangle with `k_u32` fields. */
  datatype Window = Window(hOffset: nat, vOffset: nat, width: nat, height: nat)

  /** The `float` value of `(float)area / sum` for `k_u32` operands: a
      quotient, or the IEEE result of dividing by zero. */
  datatype Weight = Ratio(value: real) | PosInfinity | NaN

  /** One entry of `roiWindow`. */
  datatype RoiWindow = RoiWindow(window: Window, weight: Weight)

  /** An entry after `memset(&ae_roi, 0, ...)`. */
  const ZeroWindow: RoiWindow := RoiWindow(Window(0, 0, 0, 0), Ratio(0.0))

  /** Number of windows a builder fills for `n` boxes. */
  function RoiCount(n: nat): (r: nat)
    ensures r <= MaxWindows && r <= n
    ensures r == n || r == MaxWindows
  {
    if n < MaxWindows then n else MaxWindows
  }

  /** `area[i] = width * height` on `k_u32`. */
  function Area(w: Window): nat
  {
    MulU32(w.width, w.height)
  }

  /** `(float)area / sum`: zero over zero is NaN, anything else over zero is
      +infinity. Rounding to `float` is not modelled. */
  function FloatDiv(area: nat, sum: nat): (w: Weight)
    ensures sum == 0 ==> (w == NaN <==> area == 0) && (w == PosInfinity <==> area > 0)
    ensures sum > 0 ==> w.Ratio? && w.value * sum as real == area as real
    ensures sum > 0 && area <= sum ==> 0.0 <= w.value <= 1.0
  {
    if sum > 0 then Ratio(area as real / sum as real)
    else if area == 0 then NaN
    else PosInfinity
  }

  /** The mathematical sum of a sequence, first to last. */
  function Sum(s: seq<nat>): nat
  {
    if |s| == 0 then 0 else Sum(s[..|s| - 1]) + s[|s| - 1]
  }

  /** No entry exceeds the sum; a zero sum means every entry is zero. */
  lemma {:induction false} EntryAtMostSum(s: seq<nat>, i: nat)
    requires i < |s|
    ensures s[i] <= Sum(s)
    ensures Sum(s) == 0 ==> s[i] == 0
  {
    if i < |s| - 1 {
      EntryAtMostSum(s[..|s| - 1], i);
    }
  }

  /** The areas of a sequence of windows, on `k_u32`. */
  function Areas(ws: seq<Window>): (r: seq<nat>)
    ensures |r| == |ws|
    ensures forall i :: 0 <= i < |ws| ==> r[i] == Area(ws[i]) && IsU32(r[i])
  {
    seq(|ws|, i requires 0 <= i < |ws| => Area(ws[i]))
  }

  /** `x * scale / model` on `k_u32` operands, as both builders scale a
      model-space coordinate to the sensor. */
  function ScaleU32(x: nat, scale: nat, model: nat): (r: nat)
    requires model > 0
    ensures IsU32(r)
  {
    DivU32(MulU32(x, scale), model)
  }

  /** Scaling a coordinate that does not overflow is exact division. */
  lemma ScaleU32Exact(x: nat, scale: nat, model: nat)
    requires model > 0 && x * scale < U32Modulus
    ensures ScaleU32(x, scale, model) == MulDiv(x, scale, model)
  {
    DivU32IsDiv(x * scale, model);
  }

  /** Scaling the two parts of `[0, hi]` separately loses nothing over
      scaling the whole when no product overflows. */
  lemma ScaledPartsWithin(lo: nat, hi: nat, size: nat, scale: nat)
    requires 0 < scale && lo <= hi && hi * size < U32Modulus
    ensures MulDiv(lo, size, scale) + MulDiv(hi - lo, size, scale) <= MulDiv(hi, size, scale)
  {
    var d := hi - lo;
    MulMonotone(lo, hi, size);
    MulMonotone(d, hi, size);
    assert lo * size + d * size == hi * size;
    ScaleU32Exact(lo, size, scale);
    ScaleU32Exact(d, size, scale);
    ScaleU32Exact(hi, size, scale);
    DivU32Add(lo * size, d * size, scale);
  }

  /** Appending a window appends its area. */
  lemma AreasSnoc(ws: seq<Window>, w: Window)
    ensures Areas(ws + [w]) == Areas(ws) + [Area(w)]
  {
    assert forall k :: 0 <= k < |ws| ==> (ws + [w])[k] == ws[k];
  }

  /** The weights a builder stores for its windows: each area over the
      `k_u32` total of all of them. */
  function WeightsOf(ws: seq<Window>): (r: seq<Weight>)
    ensures |r| == |ws|
  {
    var areas := Areas(ws);
    seq(|ws|, i requires 0 <= i < |ws| => FloatDiv(areas[i], ToU32(Sum(areas))))
  }

  /** `calc_sum`, and the summing loop of `FaceAeRoi::Update`: the `k_u32`
      total of the first `n` areas. */
  method TotalArea(area: array<nat>, n: nat) returns (sum: nat)
    requires n <= area.Length
    requires forall k :: 0 <= k < n ==> IsU32(area[k])
    ensures sum == ToU32(Sum(area[..n]))
  {
    sum := 0;
    var i := 0;
    while i < n
      invariant 0 <= i <= n
      invariant sum == ToU32(Sum(area[..i]))
    {
      assert area[..i + 1] == area[..i] + [area[i]];
      AddU32OfWrapped(Sum(area[..i]), area[i]);
      sum := AddU32(sum, area[i]);
      i := i + 1;
    }
  }

  /** Entries `k < |areas|` given the weight `areas[k] / sum`; the rest as
      they were. */
  function Weighed(entries: seq<RoiWindow>, areas: seq<nat>, sum: nat): (r: seq<RoiWindow>)
    requires |areas| <= |entries|
    ensures |r| == |entries|
  {
    seq(|entries|, k requires 0 <= k < |entries| =>
      if k < |areas| then entries[k].(weight := FloatDiv(areas[k], sum)) else entries[k])
  }

  /** The weights loop of both builders: entry `k < n` gets the weight
      `area[k] / sum`; nothing else changes. */
  method StoreWeights(entries: array<RoiWindow>, area: array<nat>, n: nat, sum: nat)
    requires n <= entries.Length && n <= area.Length
    modifies entries
    ensures entries[..] == Weighed(old(entries[..]), area[..n], sum)
  {
    var i := 0;
    while i < n
      invariant 0 <= i <= n
      invariant forall k :: 0 <= k < i ==> entries[k] == old(entries[k]).(weight := FloatDiv(area[k], sum))
      invariant forall k :: i <= k < entries.Length ==> entries[k] == old(entries[k])
    {
      entries[i] := entries[i].(weight := FloatDiv(area[i], sum));
      i := i + 1;
    }
  }

  /** Total of the finite weights. */
  function RatioTotal(ws: seq<Weight>): real
  {
    if |ws| == 0 then 0.0
    else RatioTotal(ws[..|ws| - 1]) + (if ws[|ws| - 1].Ratio? then ws[|ws| - 1].value else 0.0)
  }

  /** Dividing every area by the same positive `sum` divides their total. */
  lemma {:induction false} RatioTotalOfQuotients(areas: seq<nat>, ws: seq<Weight>, sum: nat)
    requires |ws| == |areas| && sum > 0
    requires forall i :: 0 <= i < |ws| ==> ws[i] == FloatDiv(areas[i], sum)
    ensures RatioTotal(ws) * sum as real == Sum(areas) as real
  {
    if |ws| > 0 {
      var n := |ws| - 1;
      RatioTotalOfQuotients(areas[..n], ws[..n], sum);
      var prefix, last, s := RatioTotal(ws[..n]), ws[n].value, sum as real;
      assert last * s == areas[n] as real;
      assert RatioTotal(ws) == prefix + last;
      Distribute(prefix, last, s);
    }
  }

  lemma Distribute(a: real, b: real, s: real)
    ensures (a + b) * s == a * s + b * s
  { }

  /** Each quotient of an entry by the positive total is a fraction. */
  lemma WeightsInUnit(areas: seq<nat>, ws: seq<Weight>, sum: nat)
    requires |ws| == |areas| && 0 < sum == Sum(areas)
    requires forall i :: 0 <= i < |ws| ==> ws[i] == FloatDiv(areas[i], sum)
    ensures forall i :: 0 <= i < |ws| ==> ws[i].Ratio? && 0.0 <= ws[i].value <= 1.0
  {
    forall i | 0 <= i < |ws|
      ensures ws[i].Ratio? && 0.0 <= ws[i].value <= 1.0
    {
      EntryAtMostSum(areas, i);
    }
  }

  /** A factor that leaves a positive number unchanged is one. */
  lemma UnitFactor(r: real, s: nat, t: nat)
    requires 0 < s == t && r * s as real == t as real
    ensures r == 1.0
  {
    var x := s as real;
    assert r * x == x;
    assert r == (r * x) / x;
  }

  /** Quotients of entries by their positive total add up to one. */
  lemma QuotientsTotalOne(areas: seq<nat>, ws: seq<Weight>, sum: nat)
    requires |ws| == |areas| && 0 < sum == Sum(areas)
    requires forall i :: 0 <= i < |ws| ==> ws[i] == FloatDiv(areas[i], sum)
    ensures RatioTotal(ws) == 1.0
  {
    RatioTotalOfQuotients(areas, ws, sum);
    UnitFactor(RatioTotal(ws), sum, Sum(areas));
  }

  /** When the areas add up to a positive total that does not wrap, the
      weights are fractions in [0, 1] that add up to one. */
  lemma WeightsSumToOne(ws: seq<Window>)
    requires 0 < Sum(Areas(ws)) < U32Modulus
    ensures forall i :: 0 <= i < |ws| ==> WeightsOf(ws)[i].Ratio? && 0.0 <= WeightsOf(ws)[i].value <= 1.0
    ensures RatioTotal(WeightsOf(ws)) == 1.0
  {
    var areas, weights := Areas(ws), WeightsOf(ws);
    var sum := Sum(areas);
    assert ToU32(sum) == sum;
    WeightsInUnit(areas, weights, sum);
    QuotientsTotalOne(areas, weights, sum);
  }

  /** When every window has zero area, every weight is 0/0. */
  lemma {:induction false} ZeroAreasGiveNaN(ws: seq<Window>)
    requires Sum(Areas(ws)) == 0
    ensures forall i :: 0 <= i < |ws| ==> WeightsOf(ws)[i] == NaN
  {
    var areas := Areas(ws);
    forall i | 0 <= i < |ws|
      ensures WeightsOf(ws)[i] == NaN
    {
      EntryAtMostSum(areas, i);
    }
  }

  /** The `k_u32` sum wraps: two windows of 2^31 pixels each give a sum of 0
      and two infinite weights. */
  lemma WrappedSumExample()
    ensures var areas := [0x8000_0000, 0x8000_0000];
            ToU32(Sum(areas)) == 0 && FloatDiv(areas[0], ToU32(Sum(areas))) == PosInfinity
  {
    var areas := [0x8000_0000, 0x8000_0000];
    assert Sum(areas[..1]) == 0x8000_0000;
  }
}
