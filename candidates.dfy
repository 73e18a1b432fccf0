/** Candidate selection (`deal_conf_opt`) and the merge-style gather of
    regression values (`deal_loc_opt`, `deal_landms_opt`) of
    mobile_retinaface.cc. Within one feature-map scale of `size` cells the scan
    visits two anchors per cell, so scan position `p` is anchor `2 * cell + hh`
    with `cell = p / 2` and `hh = p % 2`; anchor indices continue across scales
    through the counter `obj_cnt`. */
module Candidates {
  import opened Types
  import opened CInt

  /** Face probabilities of one scale, in scan order, from a classification
      tensor `conf` of four planes of `size` logits (background and face for
      anchor 0 of each cell, then for anchor 1). `softmaxFace` is the face
      output of the foreign 2-way softmax. Two anchors per cell, so one
      probability per anchor of the scale. */
  function ScaleProbs(conf: seq<real>, size: nat, softmaxFace: (real, real) -> real): (r: seq<real>)
    requires |conf| == 4 * size
    ensures |r| == 2 * size
  {
    seq(2 * size, p requires 0 <= p < 2 * size =>
      if p % 2 == 0 then softmaxFace(conf[p / 2], conf[size + p / 2])
      else softmaxFace(conf[2 * size + p / 2], conf[3 * size + p / 2]))
  }

  /** Cell `i` contributes scan positions `2 * i` (anchor 0) and
      `2 * i + 1` (anchor 1). */
  lemma ScaleProbsOfCell(conf: seq<real>, size: nat, softmaxFace: (real, real) -> real, i: nat)
    requires |conf| == 4 * size && i < size
    ensures ScaleProbs(conf, size, softmaxFace)[2 * i] == softmaxFace(conf[i], conf[size + i])
    ensures ScaleProbs(conf, size, softmaxFace)[2 * i + 1] == softmaxFace(conf[2 * size + i], conf[3 * size + i])
  {
    assert (2 * i) / 2 == i && (2 * i) % 2 == 0;
    assert (2 * i + 1) / 2 == i && (2 * i + 1) % 2 == 1;
  }

  /** Anchor indices (scan position plus `base`) whose probability reaches
      `t`, in scan order. */
  function Selected(probs: seq<real>, t: real, base: int): (r: seq<int>)
    ensures |r| <= |probs|
    decreases |probs|
  {
    if |probs| == 0 then []
    else
      Selected(probs[..|probs| - 1], t, base)
        + (if probs[|probs| - 1] >= t then [base + |probs| - 1] else [])
  }

  /** The probabilities of the selected anchors, in the same order. */
  function SelectedProbs(probs: seq<real>, t: real): (r: seq<real>)
    decreases |probs|
  {
    if |probs| == 0 then []
    else
      SelectedProbs(probs[..|probs| - 1], t)
        + (if probs[|probs| - 1] >= t then [probs[|probs| - 1]] else [])
  }

  predicate StrictlyIncreasing(q: seq<int>)
  {
    forall i, j :: 0 <= i < j < |q| ==> q[i] < q[j]
  }

  /** The selected indices lie in the scanned range and strictly increase. */
  lemma {:induction false} SelectedIncreasing(probs: seq<real>, t: real, base: int)
    ensures forall j :: 0 <= j < |Selected(probs, t, base)| ==>
              base <= Selected(probs, t, base)[j] < base + |probs|
    ensures StrictlyIncreasing(Selected(probs, t, base))
    decreases |probs|
  {
    if |probs| > 0 {
      SelectedIncreasing(probs[..|probs| - 1], t, base);
    }
  }

  /** An anchor is selected exactly when its probability reaches the threshold. */
  lemma {:induction false} SelectedMembership(probs: seq<real>, t: real, base: int)
    ensures forall x :: x in Selected(probs, t, base)
              <==> base <= x < base + |probs| && probs[x - base] >= t
    decreases |probs|
  {
    if |probs| > 0 {
      var n := |probs| - 1;
      var init := probs[..n];
      SelectedMembership(init, t, base);
      forall x ensures x in Selected(probs, t, base)
                 <==> base <= x < base + |probs| && probs[x - base] >= t
      {
        if base <= x < base + n {
          assert probs[x - base] == init[x - base];
        }
      }
    }
  }

  /** `SelectedProbs` pairs each selected anchor with its probability. */
  lemma {:induction false} SelectedProbsMatch(probs: seq<real>, t: real, base: int)
    ensures |SelectedProbs(probs, t)| == |Selected(probs, t, base)|
    ensures forall j :: 0 <= j < |Selected(probs, t, base)| ==>
              base <= Selected(probs, t, base)[j] < base + |probs| &&
              SelectedProbs(probs, t)[j] == probs[Selected(probs, t, base)[j] - base]
    decreases |probs|
  {
    if |probs| > 0 {
      var n := |probs| - 1;
      SelectedProbsMatch(probs[..n], t, base);
    }
  }

  /** Each selected probability reaches the threshold. */
  lemma SelectedProbsAboveThreshold(probs: seq<real>, t: real)
    ensures forall j :: 0 <= j < |SelectedProbs(probs, t)| ==> SelectedProbs(probs, t)[j] >= t
  {
    SelectedProbsMatch(probs, t, 0);
  }

  /** Selecting over consecutive scales is the concatenation of selecting over
      each, the anchor numbering continuing from one scale to the next. */
  lemma SelectedAppend(a: seq<real>, b: seq<real>, t: real, base: int)
    ensures Selected(a + b, t, base) == Selected(a, t, base) + Selected(b, t, base + |a|)
    ensures SelectedProbs(a + b, t) == SelectedProbs(a, t) + SelectedProbs(b, t)
  {
    SelectedIndicesAppend(a, b, t, base);
    SelectedProbsAppend(a, b, t);
  }

  lemma {:induction false} SelectedIndicesAppend(a: seq<real>, b: seq<real>, t: real, base: int)
    ensures Selected(a + b, t, base) == Selected(a, t, base) + Selected(b, t, base + |a|)
    decreases |b|
  {
    if |b| == 0 {
      assert a + b == a;
    } else {
      var ab := a + b;
      var n := |b| - 1;
      assert ab[..n + |a|] == a + b[..n];
      assert ab[n + |a|] == b[n];
      SelectedIndicesAppend(a, b[..n], t, base);
      SelectedLast(ab, t, base);
      SelectedLast(b, t, base + |a|);
      var x, y := Selected(a, t, base), Selected(b[..n], t, base + |a|);
      var last := if b[n] >= t then [base + |a| + n] else [];
      assert (x + y) + last == x + (y + last);
    }
  }

  /** Unfolding `Selected` at the last scan position. */
  lemma SelectedLast(probs: seq<real>, t: real, base: int)
    requires |probs| > 0
    ensures var n := |probs| - 1;
            Selected(probs, t, base) == Selected(probs[..n], t, base) + (if probs[n] >= t then [base + n] else [])
  { }

  lemma {:induction false} SelectedProbsAppend(a: seq<real>, b: seq<real>, t: real)
    ensures SelectedProbs(a + b, t) == SelectedProbs(a, t) + SelectedProbs(b, t)
    decreases |b|
  {
    if |b| == 0 {
      assert a + b == a;
    } else {
      var ab := a + b;
      var n := |b| - 1;
      assert ab[..|ab| - 1] == a + b[..n];
      assert ab[|ab| - 1] == b[n];
      SelectedProbsAppend(a, b[..n], t);
      var last := if b[n] >= t then [b[n]] else [];
      assert SelectedProbs(ab, t) == SelectedProbs(a + b[..n], t) + last;
      assert SelectedProbs(b, t) == SelectedProbs(b[..n], t) + last;
      var x, y := SelectedProbs(a, t), SelectedProbs(b[..n], t);
      assert (x + y) + last == x + (y + last);
    }
  }

  /** The selection over a prefix is never longer than over the whole. */
  lemma {:induction false} SelectedPrefixLength(probs: seq<real>, k: nat, t: real, base: int)
    requires k <= |probs|
    ensures |Selected(probs[..k], t, base)| <= |Selected(probs, t, base)|
  {
    assert probs == probs[..k] + probs[k..];
    SelectedAppend(probs[..k], probs[k..], t, base);
  }

  /** Extending the scanned prefix by one position. */
  lemma SelectedStep(probs: seq<real>, k: nat, t: real, base: int)
    requires k < |probs|
    ensures Selected(probs[..k + 1], t, base)
         == Selected(probs[..k], t, base) + (if probs[k] >= t then [base + k] else [])
    ensures SelectedProbs(probs[..k + 1], t)
         == SelectedProbs(probs[..k], t) + (if probs[k] >= t then [probs[k]] else [])
  {
    assert probs[..k + 1][..k] == probs[..k];
  }

  /** What `deal_conf_opt` has written after scanning the first `k` positions
      of a scale: the selection so far sits at `[realCount, indexS)` of both
      buffers and nothing else differs from their initial contents. */
  ghost predicate Stored(sNow: seq<int>, pNow: seq<real>, sOld: seq<int>, pOld: seq<real>,
                         probs: seq<real>, k: nat, t: real, base: int, realCount: nat, indexS: nat)
  {
    && k <= |probs|
    && |sNow| == |sOld| && |pNow| == |pOld|
    && realCount <= indexS <= |sNow| && indexS <= |pNow|
    && sNow[realCount..indexS] == Selected(probs[..k], t, base)
    && pNow[realCount..indexS] == SelectedProbs(probs[..k], t)
    && sNow[..realCount] == sOld[..realCount] && sNow[indexS..] == sOld[indexS..]
    && pNow[..realCount] == pOld[..realCount] && pNow[indexS..] == pOld[indexS..]
  }

  /** Storing a position whose probability reaches the threshold extends the
      stored selection by that anchor. */
  lemma StoredKept(sNow: seq<int>, pNow: seq<real>, sOld: seq<int>, pOld: seq<real>, probs: seq<real>,
                   k: nat, t: real, base: int, realCount: nat, indexS: nat)
    requires Stored(sNow, pNow, sOld, pOld, probs, k, t, base, realCount, indexS)
    requires k < |probs| && probs[k] >= t && indexS < |sNow| && indexS < |pNow|
    ensures Stored(sNow[indexS := base + k], pNow[indexS := probs[k]], sOld, pOld, probs, k + 1, t, base,
                   realCount, indexS + 1)
  {
    SelectedStep(probs, k, t, base);
    var s1, p1 := sNow[indexS := base + k], pNow[indexS := probs[k]];
    assert s1[realCount..indexS + 1] == sNow[realCount..indexS] + [base + k];
    assert p1[realCount..indexS + 1] == pNow[realCount..indexS] + [probs[k]];
    assert s1[..realCount] == sNow[..realCount];
    assert p1[..realCount] == pNow[..realCount];
    assert s1[indexS + 1..] == sNow[indexS + 1..];
    assert p1[indexS + 1..] == pNow[indexS + 1..];
  }

  /** A position below the threshold leaves the stored selection as it is. */
  lemma StoredSkipped(sNow: seq<int>, pNow: seq<real>, sOld: seq<int>, pOld: seq<real>, probs: seq<real>,
                      k: nat, t: real, base: int, realCount: nat, indexS: nat)
    requires Stored(sNow, pNow, sOld, pOld, probs, k, t, base, realCount, indexS)
    requires k < |probs| && probs[k] < t
    ensures Stored(sNow, pNow, sOld, pOld, probs, k + 1, t, base, realCount, indexS)
  {
    SelectedStep(probs, k, t, base);
  }

  /** One anchor of `deal_conf_opt`: when its probability `value` reaches
      `threshold`, store the anchor index `cnt` and `value` at `indexS` and
      advance `indexS`. */
  method Keep(s: array<int>, sProbs: array<real>, indexS: nat, cnt: int, value: real, threshold: real,
              ghost sOld: seq<int>, ghost pOld: seq<real>, ghost probs: seq<real>, ghost k: nat,
              ghost base: int, ghost realCount: nat)
    returns (indexS': nat)
    requires Stored(s[..], sProbs[..], sOld, pOld, probs, k, threshold, base, realCount, indexS)
    requires k < |probs| && value == probs[k] && cnt == base + k
    requires realCount + |Selected(probs, threshold, base)| <= s.Length
    requires realCount + |Selected(probs, threshold, base)| <= sProbs.Length
    modifies s, sProbs
    ensures Stored(s[..], sProbs[..], sOld, pOld, probs, k + 1, threshold, base, realCount, indexS')
  {
    indexS' := indexS;
    if value >= threshold {
      SelectedStep(probs, k, threshold, base);
      SelectedPrefixLength(probs, k + 1, threshold, base);
      StoredKept(s[..], sProbs[..], sOld, pOld, probs, k, threshold, base, realCount, indexS);
      s[indexS] := cnt;
      sProbs[indexS] := value;
      indexS' := indexS + 1;
    } else {
      StoredSkipped(s[..], sProbs[..], sOld, pOld, probs, k, threshold, base, realCount, indexS);
    }
  }

  /** `deal_conf_opt`: scans the `2 * size` anchors of one scale and appends the
      index and probability of each anchor that reaches `threshold` to `s` and
      `sProbs` at position `realCount`; returns the advanced counters
      (`*obj_cnt`, `*real_count`). */
  method DealConf(conf: seq<real>, softmaxFace: (real, real) -> real, threshold: real,
                  sProbs: array<real>, s: array<int>, size: nat, objCnt: int, realCount: nat)
    returns (objCnt': int, realCount': nat)
    requires |conf| == 4 * size
    requires realCount + |Selected(ScaleProbs(conf, size, softmaxFace), threshold, objCnt)| <= s.Length
    requires realCount + |Selected(ScaleProbs(conf, size, softmaxFace), threshold, objCnt)| <= sProbs.Length
    modifies s, sProbs
    ensures objCnt' == objCnt + 2 * size
    ensures realCount' == realCount + |Selected(ScaleProbs(conf, size, softmaxFace), threshold, objCnt)|
    ensures s[realCount..realCount'] == Selected(ScaleProbs(conf, size, softmaxFace), threshold, objCnt)
    ensures sProbs[realCount..realCount'] == SelectedProbs(ScaleProbs(conf, size, softmaxFace), threshold)
    ensures s[..realCount] == old(s[..realCount]) && s[realCount'..] == old(s[realCount'..])
    ensures sProbs[..realCount] == old(sProbs[..realCount])
    ensures sProbs[realCount'..] == old(sProbs[realCount'..])
  {
    ghost var probs := ScaleProbs(conf, size, softmaxFace);
    ghost var sOld, pOld := s[..], sProbs[..];
    var cnt := objCnt;
    var indexS := realCount;
    var i := 0;
    assert probs[..0] == [];
    while i < size
      invariant 0 <= i <= size
      invariant cnt == objCnt + 2 * i
      invariant Stored(s[..], sProbs[..], sOld, pOld, probs, 2 * i, threshold, objCnt, realCount, indexS)
    {
      ScaleProbsOfCell(conf, size, softmaxFace, i);
      var value := softmaxFace(conf[i], conf[size + i]);
      indexS := Keep(s, sProbs, indexS, cnt, value, threshold, sOld, pOld, probs, 2 * i, objCnt, realCount);
      cnt := cnt + 1;
      value := softmaxFace(conf[2 * size + i], conf[3 * size + i]);
      indexS := Keep(s, sProbs, indexS, cnt, value, threshold, sOld, pOld, probs, 2 * i + 1, objCnt, realCount);
      cnt := cnt + 1;
      i := i + 1;
    }
    assert probs[..2 * size] == probs;
    objCnt', realCount' := cnt, indexS;
  }

  /** Regression value `c` of the anchor at scan position `p` of one scale:
      the tensor holds `2 * width` planes of `size` values, plane
      `hh * width + c` for anchor `hh` of each cell. */
  function ScaleValue(values: seq<real>, size: nat, width: nat, p: nat, c: nat): real
    requires |values| == 2 * width * size && p < 2 * size && c < width
  {
    PlaneIndexInRange(size, width, p % 2, c, p / 2);
    values[((p % 2) * width + c) * size + p / 2]
  }

  lemma PlaneIndexInRange(size: nat, width: nat, hh: nat, c: nat, cell: nat)
    requires hh < 2 && c < width && cell < size
    ensures (hh * width + c) * size + cell < 2 * width * size
  {
    var a := hh * width + c;
    assert a + 1 <= 2 * width by {
      if hh == 0 { assert a == c; } else { assert a == width + c; }
    }
    MulMonotone(a + 1, 2 * width, size);
    assert (a + 1) * size == a * size + size;
  }

  /** The `width` regression values of the anchor at scan position `p`. */
  function ScaleEntry(values: seq<real>, size: nat, width: nat, p: nat): (r: seq<real>)
    requires |values| == 2 * width * size && p < 2 * size
    ensures |r| == width
  {
    seq(width, c requires 0 <= c < width => ScaleValue(values, size, width, p, c))
  }

  /** Slot `k` of a buffer holding `width` values per candidate. */
  function Slot(d: seq<real>, k: nat, width: nat): seq<real>
  {
    if k * width + width <= |d| then d[k * width .. k * width + width] else []
  }

  lemma SlotsApart(k: nat, j: nat, width: nat)
    requires k != j
    ensures k * width + width <= j * width || j * width + width <= k * width
  {
    if k < j {
      MulMonotone(k + 1, j, width);
      assert (k + 1) * width == k * width + width;
    } else {
      MulMonotone(j + 1, k, width);
      assert (j + 1) * width == j * width + width;
    }
  }

  /** A slot is unaffected by writes outside it. */
  lemma SlotUnchanged(a: seq<real>, b: seq<real>, k: nat, lo: nat, width: nat)
    requires |a| == |b|
    requires forall m :: 0 <= m < |a| && !(lo <= m < lo + width) ==> a[m] == b[m]
    requires k * width + width <= lo || lo + width <= k * width
    ensures Slot(a, k, width) == Slot(b, k, width)
  {
  }

  /** Copy the regression values of anchor `hh` of cell `ww` into slot `indexS`
      (the `cc` loop of `deal_loc_opt` / `deal_landms_opt`). */
  method CopyEntry(values: seq<real>, dst: array<real>, width: nat, size: nat, ww: nat, hh: nat, indexS: nat)
    requires |values| == 2 * width * size && ww < size && hh < 2
    requires indexS * width + width <= dst.Length
    modifies dst
    ensures Slot(dst[..], indexS, width) == ScaleEntry(values, size, width, 2 * ww + hh)
    ensures forall m :: 0 <= m < dst.Length && !(indexS * width <= m < indexS * width + width) ==>
              dst[m] == old(dst[m])
  {
    var base := indexS * width;
    var p := 2 * ww + hh;
    assert p % 2 == hh && p / 2 == ww;
    for cc := 0 to width
      invariant forall m :: base <= m < base + cc ==> dst[m] == ScaleValue(values, size, width, p, m - base)
      invariant forall m :: 0 <= m < dst.Length && !(base <= m < base + cc) ==> dst[m] == old(dst[m])
    {
      PlaneIndexInRange(size, width, hh, cc, ww);
      dst[base + cc] := values[(hh * width + cc) * size + ww];
    }
    assert Slot(dst[..], indexS, width) == ScaleEntry(values, size, width, p);
  }

  /** What the merge scan of one scale has established when the anchor counter
      is at `cnt`: every genuine candidate `k` (`k < total`) already passed sits
      in its slot with this scale's values; the candidates not yet reached lie
      at or beyond `cnt`; slots below `realCount` are untouched. Entries of `s`
      at or past `total` are uninitialised memory and may hold anything. */
  ghost predicate Gathered(dst: seq<real>, dstOld: seq<real>, s: seq<int>, values: seq<real>,
                           size: nat, width: nat, objCnt: int, realCount: nat, total: nat,
                           indexS: nat, cnt: int)
  {
    && |values| == 2 * width * size
    && objCnt <= cnt <= objCnt + 2 * size
    && realCount <= indexS && indexS - realCount <= cnt - objCnt
    && total <= |s| && |dst| == |dstOld|
    && (forall k :: realCount <= k < total && k < indexS ==>
          objCnt <= s[k] < cnt && Slot(dst, k, width) == ScaleEntry(values, size, width, s[k] - objCnt))
    && (forall k :: indexS <= k < total ==> s[k] >= cnt)
    && (forall m :: 0 <= m < realCount * width && m < |dst| ==> dst[m] == dstOld[m])
  }

  /** The scan passes an anchor that is not the next entry of `s`. */
  lemma GatheredSkip(dst: seq<real>, dstOld: seq<real>, s: seq<int>, values: seq<real>,
                     size: nat, width: nat, objCnt: int, realCount: nat, total: nat,
                     indexS: nat, cnt: int)
    requires Gathered(dst, dstOld, s, values, size, width, objCnt, realCount, total, indexS, cnt)
    requires cnt < objCnt + 2 * size && indexS < |s| && s[indexS] != cnt
    requires StrictlyIncreasing(s[..total])
    ensures Gathered(dst, dstOld, s, values, size, width, objCnt, realCount, total, indexS, cnt + 1)
  {
    if indexS < total {
      forall k | indexS <= k < total ensures s[k] >= cnt + 1 {
        if k > indexS {
          assert s[..total][indexS] < s[..total][k];
        }
      }
    }
  }

  /** The scan copies the values of the anchor that is the next entry of `s`
      into slot `indexS`. */
  lemma GatheredCopy(dst: seq<real>, before: seq<real>, dstOld: seq<real>, s: seq<int>, values: seq<real>,
                     size: nat, width: nat, objCnt: int, realCount: nat, total: nat,
                     indexS: nat, cnt: int)
    requires Gathered(before, dstOld, s, values, size, width, objCnt, realCount, total, indexS, cnt)
    requires cnt < objCnt + 2 * size && indexS < |s| && s[indexS] == cnt
    requires StrictlyIncreasing(s[..total])
    requires |dst| == |before|
    requires Slot(dst, indexS, width) == ScaleEntry(values, size, width, cnt - objCnt)
    requires forall m :: 0 <= m < |dst| && !(indexS * width <= m < indexS * width + width) ==>
               dst[m] == before[m]
    ensures Gathered(dst, dstOld, s, values, size, width, objCnt, realCount, total, indexS + 1, cnt + 1)
  {
    MulMonotone(realCount, indexS, width);
    forall k | realCount <= k < total && k < indexS
      ensures Slot(dst, k, width) == Slot(before, k, width)
    {
      SlotsApart(k, indexS, width);
      SlotUnchanged(dst, before, k, indexS * width, width);
    }
    if indexS < total {
      forall k | indexS + 1 <= k < total ensures s[k] >= cnt + 1 {
        assert s[..total][indexS] < s[..total][k];
      }
    }
  }

  /** One anchor of the merge scan: when the counter meets the next entry of
      `s` the anchor's values are copied to slot `indexS`. */
  method Visit(values: seq<real>, dst: array<real>, width: nat, size: nat, ww: nat, hh: nat, cnt: int,
               s: array<int>, indexS: nat, ghost dstOld: seq<real>, ghost objCnt: int,
               ghost realCount: nat, ghost total: nat)
    returns (indexS': nat)
    requires Gathered(dst[..], dstOld, s[..], values, size, width, objCnt, realCount, total, indexS, cnt)
    requires ww < size && hh < 2 && cnt == objCnt + 2 * ww + hh
    requires 0 <= objCnt && realCount <= objCnt && objCnt + 2 * size <= s.Length
    requires s.Length * width <= dst.Length
    requires StrictlyIncreasing(s[..total])
    modifies dst
    ensures Gathered(dst[..], dstOld, s[..], values, size, width, objCnt, realCount, total, indexS', cnt + 1)
  {
    assert indexS <= cnt < s.Length;
    indexS' := indexS;
    if cnt == s[indexS] {
      assert indexS * width + width <= s.Length * width by {
        MulMonotone(indexS + 1, s.Length, width);
        assert (indexS + 1) * width == indexS * width + width;
      }
      ghost var before := dst[..];
      CopyEntry(values, dst, width, size, ww, hh, indexS);
      GatheredCopy(dst[..], before, dstOld, s[..], values, size, width, objCnt, realCount, total, indexS, cnt);
      indexS' := indexS + 1;
    } else {
      GatheredSkip(dst[..], dstOld, s[..], values, size, width, objCnt, realCount, total, indexS, cnt);
    }
  }

  /** `deal_loc_opt` (width 4) and `deal_landms_opt` (width 10): one pass over
      the `2 * size` anchors of a scale, in the scan order of `DealConf`; when
      the anchor counter equals `s[indexS]` the anchor's values go to slot
      `indexS`. `s[..total]` is the genuine, increasing selection; the read of
      `s[indexS]` once `indexS` reaches `total` sees uninitialised memory, yet
      it stays inside the buffer (`indexS <= cnt < s.Length`). Every genuine
      candidate of this scale gets its values; later ones are left for the
      next scale. */
  method GatherScale(values: seq<real>, dst: array<real>, width: nat, size: nat, objCnt: int,
                     s: array<int>, realCount: nat, ghost total: nat)
    returns (objCnt': int, realCount': nat)
    requires |values| == 2 * width * size
    requires 0 <= objCnt && realCount <= objCnt && objCnt + 2 * size <= s.Length
    requires s.Length * width <= dst.Length
    requires total <= s.Length && StrictlyIncreasing(s[..total])
    requires forall k :: realCount <= k < total ==> s[k] >= objCnt
    modifies dst
    ensures objCnt' == objCnt + 2 * size
    ensures realCount <= realCount' && realCount' - realCount <= 2 * size
    ensures forall k :: realCount <= k < total && k < realCount' ==>
              objCnt <= s[k] < objCnt' && Slot(dst[..], k, width) == ScaleEntry(values, size, width, s[k] - objCnt)
    ensures forall k :: realCount' <= k < total ==> s[k] >= objCnt'
    ensures forall m :: 0 <= m < realCount * width && m < dst.Length ==> dst[m] == old(dst[m])
  {
    ghost var dstOld := dst[..];
    var cnt := objCnt;
    var indexS := realCount;
    for ww := 0 to size
      invariant cnt == objCnt + 2 * ww
      invariant Gathered(dst[..], dstOld, s[..], values, size, width, objCnt, realCount, total, indexS, cnt)
    {
      for hh := 0 to 2
        invariant cnt == objCnt + 2 * ww + hh
        invariant Gathered(dst[..], dstOld, s[..], values, size, width, objCnt, realCount, total, indexS, cnt)
      {
        indexS := Visit(values, dst, width, size, ww, hh, cnt, s, indexS, dstOld, objCnt, realCount, total);
        cnt := cnt + 1;
      }
    }
    objCnt', realCount' := cnt, indexS;
  }
}
