/** `decode` of mobile_retinaface.cc put together: candidate selection over
    the three scales, the gather of their regression values, decoding against
    the anchor table and greedy NMS. The nine output tensors of the network,
    the foreign softmax and exponential, the `anchors320` table and the
    uninitialised contents of the malloc'd index buffer are inputs. */
module Decode {
  import opened Types
  import CInt
  import opened AnchorDecode
  import opened Candidates
  import opened IndexSort
  import opened Nms
  import opened Iou

  /** Cells of the three feature-map scales, finest first: `16 * MIN_SIZE / 2`,
      `4 * MIN_SIZE / 2` and `MIN_SIZE / 2` with `MIN_SIZE` = 200. */
  const Scale0: nat := 1600
  const Scale1: nat := 400
  const Scale2: nat := 100
  /** `objs_num` = `MIN_SIZE * (1 + 4 + 16)`: two anchors per cell over the
      three scales. */
  const AnchorCount: nat := 4200

  /** The nine output tensors of the network (`out[0..8]`): box
      regression, classification logits and landmark regression for each
      scale. */
  datatype NetOutputs = NetOutputs(loc0: seq<real>, loc1: seq<real>, loc2: seq<real>,
                                   conf0: seq<real>, conf1: seq<real>, conf2: seq<real>,
                                   landms0: seq<real>, landms1: seq<real>, landms2: seq<real>)
  {
    predicate WellShaped()
    {
      && |conf0| == 4 * Scale0 && |conf1| == 4 * Scale1 && |conf2| == 4 * Scale2
      && ValuesShape(loc0, loc1, loc2, LocSize)
      && ValuesShape(landms0, landms1, landms2, LandSize)
    }
  }

  predicate ValuesShape(v0: seq<real>, v1: seq<real>, v2: seq<real>, width: nat)
  {
    |v0| == 2 * width * Scale0 && |v1| == 2 * width * Scale1 && |v2| == 2 * width * Scale2
  }

  /** Face probability of every anchor, in anchor-index order. */
  function AllProbs(conf0: seq<real>, conf1: seq<real>, conf2: seq<real>,
                    softmaxFace: (real, real) -> real): (r: seq<real>)
    requires |conf0| == 4 * Scale0 && |conf1| == 4 * Scale1 && |conf2| == 4 * Scale2
    ensures |r| == AnchorCount
  {
    ScaleProbs(conf0, Scale0, softmaxFace) + ScaleProbs(conf1, Scale1, softmaxFace)
      + ScaleProbs(conf2, Scale2, softmaxFace)
  }

  /** The `width` regression values of anchor `a`, read from the tensor of
      the scale the anchor belongs to. */
  function AnchorValues(v0: seq<real>, v1: seq<real>, v2: seq<real>, width: nat, a: int): (r: seq<real>)
    requires ValuesShape(v0, v1, v2, width) && 0 <= a < AnchorCount
    ensures |r| == width
  {
    if a < 2 * Scale0 then ScaleEntry(v0, Scale0, width, a)
    else if a < 2 * Scale0 + 2 * Scale1 then ScaleEntry(v1, Scale1, width, a - 2 * Scale0)
    else ScaleEntry(v2, Scale2, width, a - 2 * Scale0 - 2 * Scale1)
  }

  /** The face box predicted at anchor `a`. */
  function AnchorBox(loc0: seq<real>, loc1: seq<real>, loc2: seq<real>, anchors: seq<Anchor>,
                     exp: real -> real, a: int): Box
    requires ValuesShape(loc0, loc1, loc2, LocSize) && 0 <= a < AnchorCount == |anchors|
  {
    GetBox(AnchorValues(loc0, loc1, loc2, LocSize, a), 0, anchors[a], exp)
  }

  /** The landmarks predicted at anchor `a`. */
  function AnchorLandmarks(landms0: seq<real>, landms1: seq<real>, landms2: seq<real>, anchors: seq<Anchor>,
                           a: int): Landmarks
    requires ValuesShape(landms0, landms1, landms2, LandSize) && 0 <= a < AnchorCount == |anchors|
  {
    GetLandmark(AnchorValues(landms0, landms1, landms2, LandSize, a), 0, anchors[a])
  }

  /** Lines 335-350: three `deal_conf_opt` calls, finest scale first, fill
      fresh index and probability buffers. `sInit` is what the malloc'd index
      buffer holds before it is written. The selection over the three scales
      is the selection over all anchors. */
  method SelectAll(conf0: seq<real>, conf1: seq<real>, conf2: seq<real>, softmaxFace: (real, real) -> real,
                   sInit: seq<int>)
    returns (s: array<int>, sProbs: array<real>, realCount: nat)
    requires |conf0| == 4 * Scale0 && |conf1| == 4 * Scale1 && |conf2| == 4 * Scale2
    requires |sInit| == AnchorCount
    ensures fresh(s) && fresh(sProbs)
    ensures s.Length == AnchorCount && sProbs.Length == AnchorCount && realCount <= AnchorCount
    ensures s[..realCount] == Selected(AllProbs(conf0, conf1, conf2, softmaxFace), ObjThreshold, 0)
    ensures sProbs[..realCount] == SelectedProbs(AllProbs(conf0, conf1, conf2, softmaxFace), ObjThreshold)
    ensures s[realCount..] == sInit[realCount..]
  {
    ghost var p0 := ScaleProbs(conf0, Scale0, softmaxFace);
    ghost var p1 := ScaleProbs(conf1, Scale1, softmaxFace);
    ghost var p2 := ScaleProbs(conf2, Scale2, softmaxFace);
    s := new int[AnchorCount](i requires 0 <= i < AnchorCount => sInit[i]);
    sProbs := new real[AnchorCount];
    assert s[..] == sInit;
    var objCnt: int := 0;
    realCount := 0;
    objCnt, realCount := DealConf(conf0, softmaxFace, ObjThreshold, sProbs, s, Scale0, objCnt, realCount);
    ghost var r0, s0, q0 := realCount, s[..], sProbs[..];
    assert objCnt == 2 * Scale0;
    assert s0[..r0] == Selected(p0, ObjThreshold, 0) && q0[..r0] == SelectedProbs(p0, ObjThreshold) by {
      assert s[0..r0] == s[..r0] && sProbs[0..r0] == sProbs[..r0];
    }
    objCnt, realCount := DealConf(conf1, softmaxFace, ObjThreshold, sProbs, s, Scale1, objCnt, realCount);
    ghost var r1, s1, q1 := realCount, s[..], sProbs[..];
    assert s1[r0..r1] == Selected(p1, ObjThreshold, 2 * Scale0) && q1[r0..r1] == SelectedProbs(p1, ObjThreshold);
    assert objCnt == 2 * Scale0 + 2 * Scale1;
    objCnt, realCount := DealConf(conf2, softmaxFace, ObjThreshold, sProbs, s, Scale2, objCnt, realCount);
    assert s[r1..realCount] == Selected(p2, ObjThreshold, 2 * Scale0 + 2 * Scale1);
    assert sProbs[r1..realCount] == SelectedProbs(p2, ObjThreshold);
    SuffixNarrow(s1, s0, realCount, r1);
    SuffixNarrow(s0, sInit, realCount, r0);
    SelectedAll(conf0, conf1, conf2, softmaxFace);
    Join3(s[..], r0, r1, realCount, s0, s1);
    Join3(sProbs[..], r0, r1, realCount, q0, q1);
  }

  /** The selection over all anchors is the selection of each scale, with
      anchor indices continuing across scales. */
  lemma SelectedAll(conf0: seq<real>, conf1: seq<real>, conf2: seq<real>, softmaxFace: (real, real) -> real)
    requires |conf0| == 4 * Scale0 && |conf1| == 4 * Scale1 && |conf2| == 4 * Scale2
    ensures Selected(AllProbs(conf0, conf1, conf2, softmaxFace), ObjThreshold, 0)
         == Selected(ScaleProbs(conf0, Scale0, softmaxFace), ObjThreshold, 0)
          + Selected(ScaleProbs(conf1, Scale1, softmaxFace), ObjThreshold, 2 * Scale0)
          + Selected(ScaleProbs(conf2, Scale2, softmaxFace), ObjThreshold, 2 * Scale0 + 2 * Scale1)
    ensures SelectedProbs(AllProbs(conf0, conf1, conf2, softmaxFace), ObjThreshold)
         == SelectedProbs(ScaleProbs(conf0, Scale0, softmaxFace), ObjThreshold)
          + SelectedProbs(ScaleProbs(conf1, Scale1, softmaxFace), ObjThreshold)
          + SelectedProbs(ScaleProbs(conf2, Scale2, softmaxFace), ObjThreshold)
  {
    SelectedAppend3(ScaleProbs(conf0, Scale0, softmaxFace), ScaleProbs(conf1, Scale1, softmaxFace),
                    ScaleProbs(conf2, Scale2, softmaxFace), ObjThreshold);
  }

  lemma SelectedAppend3(a: seq<real>, b: seq<real>, c: seq<real>, t: real)
    ensures Selected(a + b + c, t, 0) == Selected(a, t, 0) + Selected(b, t, |a|) + Selected(c, t, |a| + |b|)
    ensures SelectedProbs(a + b + c, t) == SelectedProbs(a, t) + SelectedProbs(b, t) + SelectedProbs(c, t)
  {
    SelectedAppend(a, b, t, 0);
    SelectedAppend(a + b, c, t, 0);
  }

  lemma SuffixNarrow<T>(a: seq<T>, b: seq<T>, j: nat, i: nat)
    requires i <= j <= |a| == |b| && a[i..] == b[i..]
    ensures a[j..] == b[j..]
  {
    assert a[j..] == a[i..][j - i..];
    assert b[j..] == b[i..][j - i..];
  }

  /** A buffer filled in three consecutive stretches, each left alone by the
      later stages. */
  lemma Join3<T>(a: seq<T>, r0: nat, r1: nat, r2: nat, a0: seq<T>, a1: seq<T>)
    requires r0 <= r1 <= r2 <= |a| == |a0| == |a1|
    requires a1[..r0] == a0[..r0] && a[..r1] == a1[..r1]
    ensures a[..r2] == a0[..r0] + a1[r0..r1] + a[r1..r2]
  {
    assert a[..r2] == a[..r0] + a[r0..r1] + a[r1..r2];
    assert a[..r0] == a[..r1][..r0];
    assert a[r0..r1] == a[..r1][r0..];
    assert a1[r0..r1] == a1[..r1][r0..];
  }

  /** The first `count` genuine candidates (below `total`) have their
      regression values in their slots of `dst`. */
  ghost predicate SlotsFilled(dst: seq<real>, s: seq<int>, v0: seq<real>, v1: seq<real>, v2: seq<real>,
                              width: nat, total: nat, count: nat)
    requires ValuesShape(v0, v1, v2, width) && total <= |s|
    requires forall k :: 0 <= k < total ==> 0 <= s[k] < AnchorCount
  {
    forall k :: 0 <= k < total && k < count ==> Slot(dst, k, width) == AnchorValues(v0, v1, v2, width, s[k])
  }

  /** Slots below `count` survive writes confined to the region past
      `count * width`. */
  lemma SlotsFilledKept(a: seq<real>, b: seq<real>, s: seq<int>, v0: seq<real>, v1: seq<real>, v2: seq<real>,
                        width: nat, total: nat, count: nat)
    requires ValuesShape(v0, v1, v2, width) && total <= |s|
    requires forall k :: 0 <= k < total ==> 0 <= s[k] < AnchorCount
    requires |a| == |b| && forall m :: 0 <= m < count * width && m < |a| ==> b[m] == a[m]
    requires SlotsFilled(a, s, v0, v1, v2, width, total, count)
    ensures SlotsFilled(b, s, v0, v1, v2, width, total, count)
  {
    forall k | 0 <= k < total && k < count
      ensures Slot(b, k, width) == AnchorValues(v0, v1, v2, width, s[k])
    {
      SlotKept(a, b, k, width, count);
    }
  }

  /** Slot `k` below `count` survives writes past `count * width`. */
  lemma SlotKept(a: seq<real>, b: seq<real>, k: nat, width: nat, count: nat)
    requires k < count
    requires |a| == |b| && forall m :: 0 <= m < count * width && m < |a| ==> b[m] == a[m]
    ensures Slot(b, k, width) == Slot(a, k, width)
  {
    var o := k * width;
    CInt.MulMonotone(k + 1, count, width);
    assert (k + 1) * width == o + width;
    if o + width <= |a| {
      var sa, sb := a[o..o + width], b[o..o + width];
      forall m | 0 <= m < width ensures sb[m] == sa[m] {
        assert sb[m] == b[o + m] && sa[m] == a[o + m];
      }
      assert sb == sa;
    }
  }

  /** One gather pass of the scale starting at anchor `start`: the candidates
      it fills get the values of their anchors, the earlier slots are kept. */
  method GatherStep(v0: seq<real>, v1: seq<real>, v2: seq<real>, width: nat, scale: nat,
                    dst: array<real>, s: array<int>, objCnt: int, realCount: nat, ghost total: nat)
    returns (objCnt': int, realCount': nat)
    requires ValuesShape(v0, v1, v2, width) && scale < 3
    requires s.Length == AnchorCount && dst.Length == AnchorCount * width && total <= AnchorCount
    requires StrictlyIncreasing(s[..total])
    requires forall k :: 0 <= k < total ==> 0 <= s[k] < AnchorCount
    requires objCnt == ScaleStart(scale) && realCount <= objCnt
    requires forall k :: realCount <= k < total ==> s[k] >= objCnt
    requires SlotsFilled(dst[..], s[..], v0, v1, v2, width, total, realCount)
    modifies dst
    ensures objCnt' == ScaleStart(scale + 1) && realCount <= realCount' <= objCnt'
    ensures forall k :: realCount' <= k < total ==> s[k] >= objCnt'
    ensures SlotsFilled(dst[..], s[..], v0, v1, v2, width, total, realCount')
  {
    ghost var before := dst[..];
    var v := ScaleTensor(v0, v1, v2, scale);
    objCnt', realCount' := GatherScale(v, dst, width, ScaleSize(scale), objCnt, s, realCount, total);
    SlotsFilledKept(before, dst[..], s[..], v0, v1, v2, width, total, realCount);
    forall k | 0 <= k < total && k < realCount'
      ensures Slot(dst[..], k, width) == AnchorValues(v0, v1, v2, width, s[k])
    {
      if k >= realCount {
        AnchorValuesOfScale(v0, v1, v2, width, scale, s[k]);
      }
    }
  }

  function ScaleSize(scale: nat): nat
  {
    if scale == 0 then Scale0 else if scale == 1 then Scale1 else Scale2
  }

  function ScaleTensor(v0: seq<real>, v1: seq<real>, v2: seq<real>, scale: nat): seq<real>
  {
    if scale == 0 then v0 else if scale == 1 then v1 else v2
  }

  /** The anchors of one scale read their values from that scale's tensor. */
  lemma AnchorValuesOfScale(v0: seq<real>, v1: seq<real>, v2: seq<real>, width: nat, scale: nat, a: int)
    requires ValuesShape(v0, v1, v2, width) && scale < 3
    requires ScaleStart(scale) <= a < ScaleStart(scale + 1)
    ensures |ScaleTensor(v0, v1, v2, scale)| == 2 * width * ScaleSize(scale)
    ensures AnchorValues(v0, v1, v2, width, a)
         == ScaleEntry(ScaleTensor(v0, v1, v2, scale), ScaleSize(scale), width, a - ScaleStart(scale))
  {
  }

  /** First anchor of each scale (3 is one past the last). */
  function ScaleStart(scale: nat): nat
    requires scale <= 3
  {
    if scale == 0 then 0
    else if scale == 1 then 2 * Scale0
    else if scale == 2 then 2 * Scale0 + 2 * Scale1
    else AnchorCount
  }

  /** Lines 352-358 (width 4, `deal_loc_opt`) and 360-368 (width 10,
      `deal_landms_opt`): three passes, one per scale, fill a fresh buffer
      with the regression values of every selected candidate, slot `k` for
      candidate `k`. */
  method GatherAll(v0: seq<real>, v1: seq<real>, v2: seq<real>, width: nat, s: array<int>, ghost total: nat)
    returns (dst: array<real>)
    requires ValuesShape(v0, v1, v2, width)
    requires s.Length == AnchorCount && total <= AnchorCount
    requires StrictlyIncreasing(s[..total])
    requires forall k :: 0 <= k < total ==> 0 <= s[k] < AnchorCount
    ensures fresh(dst) && dst.Length == AnchorCount * width
    ensures forall k :: 0 <= k < total ==> Slot(dst[..], k, width) == AnchorValues(v0, v1, v2, width, s[k])
  {
    dst := new real[AnchorCount * width];
    var objCnt, realCount := 0, 0;
    objCnt, realCount := GatherStep(v0, v1, v2, width, 0, dst, s, objCnt, realCount, total);
    objCnt, realCount := GatherStep(v0, v1, v2, width, 1, dst, s, objCnt, realCount, total);
    objCnt, realCount := GatherStep(v0, v1, v2, width, 2, dst, s, objCnt, realCount, total);
  }

  /** The face probability of every anchor. */
  function Probs(o: NetOutputs, softmaxFace: (real, real) -> real): (r: seq<real>)
    requires o.WellShaped()
    ensures |r| == AnchorCount
  {
    AllProbs(o.conf0, o.conf1, o.conf2, softmaxFace)
  }

  /** The anchors that pass the confidence threshold, by increasing index. */
  function SelectedAnchors(o: NetOutputs, softmaxFace: (real, real) -> real): (r: seq<int>)
    requires o.WellShaped()
    ensures |r| <= AnchorCount
    ensures forall k :: 0 <= k < |r| ==> 0 <= r[k] < AnchorCount
  {
    SelectedIncreasing(Probs(o, softmaxFace), ObjThreshold, 0);
    Selected(Probs(o, softmaxFace), ObjThreshold, 0)
  }

  /** Their probabilities, in the same order. */
  function SelectedScores(o: NetOutputs, softmaxFace: (real, real) -> real): (r: seq<real>)
    requires o.WellShaped()
    ensures |r| == |SelectedAnchors(o, softmaxFace)|
    ensures forall k :: 0 <= k < |r| ==> r[k] == Probs(o, softmaxFace)[SelectedAnchors(o, softmaxFace)[k]]
  {
    SelectedProbsMatch(Probs(o, softmaxFace), ObjThreshold, 0);
    SelectedProbs(Probs(o, softmaxFace), ObjThreshold)
  }

  /** The orders `qsort` may leave in `s_int` (lines 370-375): the C standard
      fixes only that the result is a permutation of the candidate positions
      sorted by `nms_comparator2`, that is by non-increasing score; the order
      of equal scores is unspecified. */
  predicate QsortOrder(o: NetOutputs, softmaxFace: (real, real) -> real, order: seq<int>)
    requires o.WellShaped()
  {
    IsIndexPermutation(order, |SelectedAnchors(o, softmaxFace)|)
    && SortedByProbDesc(order, SelectedScores(o, softmaxFace))
  }

  /** One admissible visiting order, so that `QsortOrder` can always be met. */
  function VisitOrder(o: NetOutputs, softmaxFace: (real, real) -> real): (r: seq<int>)
    requires o.WellShaped()
    ensures QsortOrder(o, softmaxFace, r)
  {
    var n := |SelectedAnchors(o, softmaxFace)|;
    SortByProbIsPermutation(SelectedScores(o, softmaxFace), n);
    SortByProb(SelectedScores(o, softmaxFace), n)
  }

  /** The decoded boxes of the candidates, in visiting order. */
  function SortedBoxes(o: NetOutputs, anchors: seq<Anchor>, softmaxFace: (real, real) -> real,
                       exp: real -> real, order: seq<int>): (r: seq<Box>)
    requires o.WellShaped() && |anchors| == AnchorCount && QsortOrder(o, softmaxFace, order)
    ensures |r| == |SelectedAnchors(o, softmaxFace)|
  {
    var sel := SelectedAnchors(o, softmaxFace);
    seq(|sel|, i requires 0 <= i < |sel| => AnchorBox(o.loc0, o.loc1, o.loc2, anchors, exp, sel[order[i]]))
  }

  /** The decoded landmarks of the candidates, in visiting order. */
  function SortedLandmarks(o: NetOutputs, anchors: seq<Anchor>, softmaxFace: (real, real) -> real,
                           order: seq<int>): (r: seq<Landmarks>)
    requires o.WellShaped() && |anchors| == AnchorCount && QsortOrder(o, softmaxFace, order)
    ensures |r| == |SelectedAnchors(o, softmaxFace)|
  {
    var sel := SelectedAnchors(o, softmaxFace);
    seq(|sel|, i requires 0 <= i < |sel| => AnchorLandmarks(o.landms0, o.landms1, o.landms2, anchors, sel[order[i]]))
  }

  /** The positions (in visiting order) that greedy NMS keeps. */
  function Kept(o: NetOutputs, anchors: seq<Anchor>, softmaxFace: (real, real) -> real,
                exp: real -> real, order: seq<int>): (r: seq<nat>)
    requires o.WellShaped() && |anchors| == AnchorCount && QsortOrder(o, softmaxFace, order)
    ensures forall k :: 0 <= k < |r| ==> r[k] < |SelectedAnchors(o, softmaxFace)|
  {
    var n := |SelectedAnchors(o, softmaxFace)|;
    Accepted(SortedBoxes(o, anchors, softmaxFace, exp, order),
             Alive(SelectedScores(o, softmaxFace), order, n), NmsThreshold, n)
  }

  /** `decode`: the boxes and landmarks NMS keeps, by non-increasing score,
      appended to `predBox` and `predLandmarks`. `sInit` is the content of
      the malloc'd index buffer before it is written; `order` is the
      permutation the `qsort` call leaves in `s_int`, any of those
      `QsortOrder` admits. */
  method Decode(o: NetOutputs, anchors: seq<Anchor>, softmaxFace: (real, real) -> real, exp: real -> real,
                sInit: seq<int>, order: seq<int>, predBox: seq<Box>, predLandmarks: seq<Landmarks>)
    returns (predBox': seq<Box>, predLandmarks': seq<Landmarks>)
    requires o.WellShaped() && |anchors| == AnchorCount && |sInit| == AnchorCount
    requires QsortOrder(o, softmaxFace, order)
    ensures predBox' == predBox + Pick(SortedBoxes(o, anchors, softmaxFace, exp, order), Kept(o, anchors, softmaxFace, exp, order))
    ensures predLandmarks' == predLandmarks + Pick(SortedLandmarks(o, anchors, softmaxFace, order), Kept(o, anchors, softmaxFace, exp, order))
  {
    var s, sProbs, realCount := SelectAll(o.conf0, o.conf1, o.conf2, softmaxFace, sInit);
    ghost var sel := SelectedAnchors(o, softmaxFace);
    SelectedIncreasing(Probs(o, softmaxFace), ObjThreshold, 0);
    assert s[..realCount] == sel;
    var boxes := GatherAll(o.loc0, o.loc1, o.loc2, LocSize, s, realCount);
    var landmarks := GatherAll(o.landms0, o.landms1, o.landms2, LandSize, s, realCount);
    CInt.MulMonotone(realCount, AnchorCount, LocSize);
    CInt.MulMonotone(realCount, AnchorCount, LandSize);
    ghost var probsBefore := sProbs[..];
    predBox', predLandmarks' :=
      Suppress(boxes[..], landmarks[..], s[..], anchors, exp, order, realCount, sProbs, predBox, predLandmarks);
    CandidatesAgree(o, anchors, softmaxFace, exp, boxes[..], landmarks[..], s[..], order, realCount);
    AliveAgree(probsBefore, SelectedScores(o, softmaxFace), order, realCount);
  }

  /** The candidates `Suppress` reads out of the gathered buffers are the
      decoded candidates of the reference functions. */
  lemma CandidatesAgree(o: NetOutputs, anchors: seq<Anchor>, softmaxFace: (real, real) -> real, exp: real -> real,
                        boxes: seq<real>, landmarks: seq<real>, s: seq<int>, order: seq<int>, n: nat)
    requires o.WellShaped() && |anchors| == AnchorCount
    requires n <= |s| && n * LocSize <= |boxes| && n * LandSize <= |landmarks|
    requires s[..n] == SelectedAnchors(o, softmaxFace)
    requires QsortOrder(o, softmaxFace, order)
    requires forall k :: 0 <= k < n ==> Slot(boxes, k, LocSize) == AnchorValues(o.loc0, o.loc1, o.loc2, LocSize, s[k])
    requires forall k :: 0 <= k < n ==>
               Slot(landmarks, k, LandSize) == AnchorValues(o.landms0, o.landms1, o.landms2, LandSize, s[k])
    ensures SuppressInputs(boxes, landmarks, s, anchors, order, n)
    ensures CandidateBoxes(boxes, landmarks, s, anchors, exp, order, n) == SortedBoxes(o, anchors, softmaxFace, exp, order)
    ensures CandidateLandmarks(boxes, landmarks, s, anchors, order, n) == SortedLandmarks(o, anchors, softmaxFace, order)
  {
    assert forall k :: 0 <= k < n ==> s[k] == s[..n][k];
    forall i | 0 <= i < n
      ensures CandidateBoxes(boxes, landmarks, s, anchors, exp, order, n)[i] == SortedBoxes(o, anchors, softmaxFace, exp, order)[i]
      ensures CandidateLandmarks(boxes, landmarks, s, anchors, order, n)[i] == SortedLandmarks(o, anchors, softmaxFace, order)[i]
    {
      var k := order[i];
      GetBoxOfSlot(boxes, k, anchors[s[k]], exp);
      GetLandmarkOfSlot(landmarks, k, anchors[s[k]]);
    }
  }

  /** Decoding reads only the candidate's own slot. */
  lemma GetBoxOfSlot(boxes: seq<real>, k: nat, a: Anchor, exp: real -> real)
    requires k * LocSize + LocSize <= |boxes|
    ensures GetBox(boxes, k, a, exp) == GetBox(Slot(boxes, k, LocSize), 0, a, exp)
  {
    var o := k * LocSize;
    var slot := boxes[o .. o + LocSize];
    assert Slot(boxes, k, LocSize) == slot;
    assert slot[0] == boxes[o] && slot[1] == boxes[o + 1];
    assert slot[2] == boxes[o + 2] && slot[3] == boxes[o + 3];
    assert GetBox(boxes, k, a, exp) == Box(a.cx + slot[0] * VarianceCenter * a.w, a.cy + slot[1] * VarianceCenter * a.h,
                                           a.w * exp(slot[2] * VarianceSize), a.h * exp(slot[3] * VarianceSize));
  }

  lemma GetLandmarkOfSlot(landmarks: seq<real>, k: nat, a: Anchor)
    requires k * LandSize + LandSize <= |landmarks|
    ensures GetLandmark(landmarks, k, a) == GetLandmark(Slot(landmarks, k, LandSize), 0, a)
  {
    assert GetLandmark(landmarks, k, a).points == GetLandmark(Slot(landmarks, k, LandSize), 0, a).points;
  }

  /** Only the first `n` probabilities decide which candidates are alive. */
  lemma AliveAgree(probs: seq<real>, scores: seq<real>, order: seq<int>, n: nat)
    requires IsIndexPermutation(order, n) && n <= |probs| && probs[..n] == scores
    ensures Alive(probs, order, n) == Alive(scores, order, n)
  {
    forall i | 0 <= i < n ensures probs[order[i]] == scores[order[i]] {
      assert probs[order[i]] == probs[..n][order[i]];
    }
  }

  /** No two boxes `decode` outputs overlap by the NMS threshold or more. */
  lemma DecodedBoxesApart(o: NetOutputs, anchors: seq<Anchor>, softmaxFace: (real, real) -> real, exp: real -> real,
                          order: seq<int>)
    requires o.WellShaped() && |anchors| == AnchorCount && QsortOrder(o, softmaxFace, order)
    ensures var out := Pick(SortedBoxes(o, anchors, softmaxFace, exp, order), Kept(o, anchors, softmaxFace, exp, order));
            forall p, q :: 0 <= p < |out| && 0 <= q < |out| && p != q ==> BoxIou(out[p], out[q]) < NmsThreshold
  {
    var n := |SelectedAnchors(o, softmaxFace)|;
    AcceptedPairwise(SortedBoxes(o, anchors, softmaxFace, exp, order),
                     Alive(SelectedScores(o, softmaxFace), order, n), NmsThreshold, n);
  }

  /** The score of each output box, in output order. */
  function KeptScores(o: NetOutputs, anchors: seq<Anchor>, softmaxFace: (real, real) -> real,
                      exp: real -> real, order: seq<int>): (r: seq<real>)
    requires o.WellShaped() && |anchors| == AnchorCount && QsortOrder(o, softmaxFace, order)
    ensures |r| == |Kept(o, anchors, softmaxFace, exp, order)|
  {
    var kept, scores := Kept(o, anchors, softmaxFace, exp, order), SelectedScores(o, softmaxFace);
    seq(|kept|, k requires 0 <= k < |kept| => scores[order[kept[k]]])
  }

  /** The output boxes come by non-increasing score, each at least the
      confidence threshold. */
  lemma DecodedByScore(o: NetOutputs, anchors: seq<Anchor>, softmaxFace: (real, real) -> real, exp: real -> real,
                       order: seq<int>)
    requires o.WellShaped() && |anchors| == AnchorCount && QsortOrder(o, softmaxFace, order)
    ensures var sc := KeptScores(o, anchors, softmaxFace, exp, order);
            (forall k :: 0 <= k < |sc| ==> sc[k] >= ObjThreshold) &&
            (forall p, q :: 0 <= p < q < |sc| ==> sc[p] >= sc[q])
  {
    var n := |SelectedAnchors(o, softmaxFace)|;
    var bs, scores := SortedBoxes(o, anchors, softmaxFace, exp, order), SelectedScores(o, softmaxFace);
    var alive := Alive(scores, order, n);
    AcceptedAreAlive(bs, alive, NmsThreshold, n);
    AcceptedByProbability(bs, alive, NmsThreshold, n, order, scores);
  }

  /** Every candidate that `decode` does not output overlaps, by the NMS
      threshold or more, an output box that precedes it in visiting order. */
  lemma DroppedAreCovered(o: NetOutputs, anchors: seq<Anchor>, softmaxFace: (real, real) -> real, exp: real -> real,
                          order: seq<int>)
    requires o.WellShaped() && |anchors| == AnchorCount && QsortOrder(o, softmaxFace, order)
    ensures forall i :: 0 <= i < |SelectedAnchors(o, softmaxFace)| && i !in Kept(o, anchors, softmaxFace, exp, order) ==>
              Covered(SortedBoxes(o, anchors, softmaxFace, exp, order), Kept(o, anchors, softmaxFace, exp, order), i, NmsThreshold)
  {
    var n := |SelectedAnchors(o, softmaxFace)|;
    var bs, scores := SortedBoxes(o, anchors, softmaxFace, exp, order), SelectedScores(o, softmaxFace);
    var alive := Alive(scores, order, n);
    SelectedProbsAboveThreshold(Probs(o, softmaxFace), ObjThreshold);
    assert forall i :: 0 <= i < n ==> alive[i];
    RejectedAreCovered(bs, alive, NmsThreshold, n);
  }

  /** `b` is the decoded box of an anchor whose face probability reaches the
      confidence threshold. */
  ghost predicate FromConfidentAnchor(o: NetOutputs, anchors: seq<Anchor>, softmaxFace: (real, real) -> real,
                                      exp: real -> real, b: Box)
    requires o.WellShaped() && |anchors| == AnchorCount
  {
    exists a :: 0 <= a < AnchorCount && Probs(o, softmaxFace)[a] >= ObjThreshold &&
      b == AnchorBox(o.loc0, o.loc1, o.loc2, anchors, exp, a)
  }

  /** Every output box is the decoded box of an anchor whose face
      probability reaches the confidence threshold. */
  lemma DecodedFromConfidentAnchors(o: NetOutputs, anchors: seq<Anchor>, softmaxFace: (real, real) -> real,
                                    exp: real -> real, order: seq<int>)
    requires o.WellShaped() && |anchors| == AnchorCount && QsortOrder(o, softmaxFace, order)
    ensures var out := Pick(SortedBoxes(o, anchors, softmaxFace, exp, order), Kept(o, anchors, softmaxFace, exp, order));
            forall k :: 0 <= k < |out| ==> FromConfidentAnchor(o, anchors, softmaxFace, exp, out[k])
  {
    var probs, sel := Probs(o, softmaxFace), SelectedAnchors(o, softmaxFace);
    var bs, kept := SortedBoxes(o, anchors, softmaxFace, exp, order), Kept(o, anchors, softmaxFace, exp, order);
    var out := Pick(bs, kept);
    SelectedMembership(probs, ObjThreshold, 0);
    forall k | 0 <= k < |out|
      ensures FromConfidentAnchor(o, anchors, softmaxFace, exp, out[k])
    {
      var i := kept[k];
      var a := sel[order[i]];
      assert out[k] == AnchorBox(o.loc0, o.loc1, o.loc2, anchors, exp, a);
      assert a in sel;
    }
  }
}
