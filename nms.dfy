/** Greedy non-maximum suppression of `decode` in mobile_retinaface.cc
    (the part after the candidate indices have been sorted). */
module Nms {
  import opened Types
  import opened Iou
  import opened AnchorDecode
  import opened IndexSort

  const ObjThreshold: real := 0.6
  const NmsThreshold: real := 0.5

  predicate Increasing(acc: seq<nat>)
  {
    forall p, q :: 0 <= p < q < |acc| ==> acc[p] < acc[q]
  }

  /** Box `j` overlaps none of the boxes at positions `acc` by `t` or more. */
  predicate Survives(bs: seq<Box>, acc: seq<nat>, j: nat, t: real)
    requires j < |bs| && forall k :: 0 <= k < |acc| ==> acc[k] < |bs|
  {
    forall k :: 0 <= k < |acc| ==> BoxIou(bs[acc[k]], bs[j]) < t
  }

  /** The greedy reference: among the first `n` candidates (in sorted order)
      candidate `j` is accepted when it was alive to begin with and overlaps
      no earlier accepted candidate by `t` or more. The result lists the
      accepted positions in increasing order. */
  function Accepted(bs: seq<Box>, alive: seq<bool>, t: real, n: nat): (acc: seq<nat>)
    requires n <= |bs| && |alive| == |bs|
    ensures |acc| <= n
    ensures forall k :: 0 <= k < |acc| ==> acc[k] < n
    ensures Increasing(acc)
  {
    if n == 0 then []
    else
      var prev := Accepted(bs, alive, t, n - 1);
      if alive[n - 1] && Survives(bs, prev, n - 1, t) then prev + [n - 1] else prev
  }

  /** The entries of `xs` at positions `acc`. */
  function Pick<T>(xs: seq<T>, acc: seq<nat>): (r: seq<T>)
    requires forall k :: 0 <= k < |acc| ==> acc[k] < |xs|
    ensures |r| == |acc|
    ensures forall k :: 0 <= k < |acc| ==> r[k] == xs[acc[k]]
  {
    seq(|acc|, k requires 0 <= k < |acc| => xs[acc[k]])
  }

  /** Only candidates that were alive are accepted. */
  lemma {:induction false} AcceptedAreAlive(bs: seq<Box>, alive: seq<bool>, t: real, n: nat)
    requires n <= |bs| && |alive| == |bs|
    ensures forall k :: 0 <= k < |Accepted(bs, alive, t, n)| ==> alive[Accepted(bs, alive, t, n)[k]]
  {
    if n > 0 {
      AcceptedAreAlive(bs, alive, t, n - 1);
    }
  }

  /** Any two accepted boxes overlap by less than the threshold, in either
      order. */
  lemma {:induction false} AcceptedPairwise(bs: seq<Box>, alive: seq<bool>, t: real, n: nat)
    requires n <= |bs| && |alive| == |bs|
    ensures forall p, q :: 0 <= p < |Accepted(bs, alive, t, n)| && 0 <= q < |Accepted(bs, alive, t, n)| && p != q ==>
              BoxIou(bs[Accepted(bs, alive, t, n)[p]], bs[Accepted(bs, alive, t, n)[q]]) < t
  {
    if n > 0 {
      AcceptedPairwise(bs, alive, t, n - 1);
      var prev := Accepted(bs, alive, t, n - 1);
      var acc := Accepted(bs, alive, t, n);
      if acc != prev {
        forall p, q | 0 <= p < |acc| && 0 <= q < |acc| && p != q
          ensures BoxIou(bs[acc[p]], bs[acc[q]]) < t
        {
          if q == |prev| {
            assert BoxIou(bs[prev[p]], bs[n - 1]) < t;
          } else if p == |prev| {
            assert BoxIou(bs[prev[q]], bs[n - 1]) < t;
            IntersectionSymmetric(bs[prev[q]], bs[n - 1]);
          } else {
            assert acc[p] == prev[p] && acc[q] == prev[q];
          }
        }
      }
    }
  }

  /** Some accepted box before position `j` overlaps box `j` by `t` or more. */
  predicate Covered(bs: seq<Box>, acc: seq<nat>, j: nat, t: real)
    requires j < |bs| && forall k :: 0 <= k < |acc| ==> acc[k] < |bs|
  {
    exists k :: 0 <= k < |acc| && acc[k] < j && BoxIou(bs[acc[k]], bs[j]) >= t
  }

  lemma CoveredExtend(bs: seq<Box>, acc: seq<nat>, i: nat, j: nat, t: real)
    requires i < |bs| && j < |bs| && forall k :: 0 <= k < |acc| ==> acc[k] < |bs|
    requires Covered(bs, acc, j, t)
    ensures Covered(bs, acc + [i], j, t)
  {
    var k :| 0 <= k < |acc| && acc[k] < j && BoxIou(bs[acc[k]], bs[j]) >= t;
    assert (acc + [i])[k] == acc[k];
  }

  /** Every alive candidate that is not accepted overlaps an earlier accepted
      one by at least the threshold. */
  lemma {:induction false} RejectedAreCovered(bs: seq<Box>, alive: seq<bool>, t: real, n: nat)
    requires n <= |bs| && |alive| == |bs|
    ensures forall j :: 0 <= j < n && alive[j] && j !in Accepted(bs, alive, t, n) ==>
              Covered(bs, Accepted(bs, alive, t, n), j, t)
  {
    if n > 0 {
      RejectedAreCovered(bs, alive, t, n - 1);
      forall j | 0 <= j < n && alive[j] && j !in Accepted(bs, alive, t, n)
        ensures Covered(bs, Accepted(bs, alive, t, n), j, t)
      {
        RejectedStep(bs, alive, t, n, j);
      }
    }
  }

  /** The inductive step of `RejectedAreCovered` for one candidate `j`. */
  lemma RejectedStep(bs: seq<Box>, alive: seq<bool>, t: real, n: nat, j: nat)
    requires 0 <= j < n <= |bs| && |alive| == |bs|
    requires alive[j] && j !in Accepted(bs, alive, t, n)
    requires j < n - 1 ==> Covered(bs, Accepted(bs, alive, t, n - 1), j, t)
    ensures Covered(bs, Accepted(bs, alive, t, n), j, t)
  {
    var prev := Accepted(bs, alive, t, n - 1);
    var acc := Accepted(bs, alive, t, n);
    if j < n - 1 {
      if acc != prev {
        CoveredExtend(bs, prev, n - 1, j, t);
      }
    } else {
      assert acc == prev;
      var k :| 0 <= k < |prev| && BoxIou(bs[prev[k]], bs[n - 1]) >= t;
      assert prev[k] < n - 1;
    }
  }

  /** Suppression by the accepted list grown by one box. */
  lemma SurvivesExtend(bs: seq<Box>, acc: seq<nat>, i: nat, j: nat, t: real)
    requires i < |bs| && j < |bs| && forall k :: 0 <= k < |acc| ==> acc[k] < |bs|
    ensures Survives(bs, acc + [i], j, t) <==> Survives(bs, acc, j, t) && BoxIou(bs[i], bs[j]) < t
  {
    var ext := acc + [i];
    assert ext[|acc|] == i;
    assert forall k :: 0 <= k < |acc| ==> ext[k] == acc[k];
  }

  predicate Pairwise(bs: seq<Box>, t: real)
  {
    forall p, q :: 0 <= p < |bs| && 0 <= q < |bs| && p != q ==> BoxIou(bs[p], bs[q]) < t
  }

  /** When no two boxes overlap by the threshold, suppression over all-alive
      candidates keeps every one of them. */
  lemma {:induction false} PairwiseAllAccepted(bs: seq<Box>, t: real, m: nat)
    requires m <= |bs| && Pairwise(bs, t)
    ensures Accepted(bs, seq(|bs|, _ => true), t, m) == seq(m, k => k)
  {
    if m > 0 {
      PairwiseAllAccepted(bs, t, m - 1);
      var prev := Accepted(bs, seq(|bs|, _ => true), t, m - 1);
      assert Survives(bs, prev, m - 1, t) by {
        forall k | 0 <= k < |prev| ensures BoxIou(bs[prev[k]], bs[m - 1]) < t {
          assert prev[k] == k;
        }
      }
      assert prev + [m - 1] == seq(m, k => k);
    }
  }

  /** Running the suppression again on its own output (all alive) accepts
      every box: greedy NMS is idempotent. */
  lemma AcceptedIdempotent(bs: seq<Box>, alive: seq<bool>, t: real, n: nat)
    requires n <= |bs| && |alive| == |bs|
    ensures Accepted(Pick(bs, Accepted(bs, alive, t, n)), seq(|Accepted(bs, alive, t, n)|, _ => true), t,
                     |Accepted(bs, alive, t, n)|)
         == seq(|Accepted(bs, alive, t, n)|, k => k)
  {
    AcceptedPairwise(bs, alive, t, n);
    var acc := Accepted(bs, alive, t, n);
    assert Pairwise(Pick(bs, acc), t);
    PairwiseAllAccepted(Pick(bs, acc), t, |acc|);
  }

  /** A candidate is accepted exactly when it is alive and survives the
      candidates accepted before it. */
  lemma {:induction false} AcceptedMembership(bs: seq<Box>, alive: seq<bool>, t: real, m: nat, j: nat)
    requires j < m <= |bs| && |alive| == |bs|
    ensures j in Accepted(bs, alive, t, m) <==> alive[j] && Survives(bs, Accepted(bs, alive, t, j), j, t)
  {
    if m > j + 1 {
      AcceptedMembership(bs, alive, t, m - 1, j);
      var prev := Accepted(bs, alive, t, m - 1);
      assert j in Accepted(bs, alive, t, m) <==> j in prev;
    }
  }

  /** Accepted candidates come out by non-increasing probability when the
      candidates are visited in sorted order. */
  lemma AcceptedByProbability(bs: seq<Box>, alive: seq<bool>, t: real, n: nat, order: seq<int>, probs: seq<real>)
    requires n <= |bs| && |alive| == |bs| && |order| == n
    requires SortedByProbDesc(order, probs)
    ensures forall p, q :: 0 <= p < q < |Accepted(bs, alive, t, n)| ==>
              probs[order[Accepted(bs, alive, t, n)[p]]] >= probs[order[Accepted(bs, alive, t, n)[q]]]
  {
  }

  /** After the whole sweep, exactly the alive candidates that were not
      accepted have probability zero; every other probability is unchanged. */
  lemma SettledFinal(now: seq<real>, before: seq<real>, order: seq<int>, cands: seq<Box>, alive: seq<bool>, n: nat)
    requires n == |cands| == |alive|
    requires Settled(now, before, order, cands, alive, n)
    ensures forall j :: 0 <= j < n ==>
              now[order[j]] == if alive[j] && j !in Accepted(cands, alive, NmsThreshold, n) then 0.0 else before[order[j]]
  {
    forall j | 0 <= j < n
      ensures now[order[j]] == if alive[j] && j !in Accepted(cands, alive, NmsThreshold, n) then 0.0 else before[order[j]]
    {
      AcceptedMembership(cands, alive, NmsThreshold, n, j);
    }
  }

  /** Two identical boxes of positive size with probabilities 0.9 and 0.7:
      only the first (the 0.9 one, first in sorted order) survives. */
  lemma IdenticalBoxesExample(b: Box)
    requires HasPositiveSize(b)
    ensures Accepted([b, b], [0.9 >= ObjThreshold, 0.7 >= ObjThreshold], NmsThreshold, 2) == [0]
  {
    IouSelf(b);
    var bs, alive := [b, b], [0.9 >= ObjThreshold, 0.7 >= ObjThreshold];
    assert Accepted(bs, alive, NmsThreshold, 0) == [];
    assert Accepted(bs, alive, NmsThreshold, 1) == [0];
    assert BoxIou(bs[[0][0]], bs[1]) == 1.0;
    assert !Survives(bs, [0], 1, NmsThreshold);
  }

  /** What the suppression loop needs of its inputs: `order` is a
      permutation of the `n` candidate indices, and every candidate has its
      regression slots and a valid anchor index. */
  predicate SuppressInputs(boxes: seq<real>, landmarks: seq<real>, s: seq<int>, anchors: seq<Anchor>,
                           order: seq<int>, n: nat)
  {
    && IsIndexPermutation(order, n)
    && n <= |s| && n * LocSize <= |boxes| && n * LandSize <= |landmarks|
    && (forall k :: 0 <= k < n ==> 0 <= s[k] < |anchors|)
  }

  /** The decoded box of the candidate at sorted position `i`. */
  function CandidateBoxes(boxes: seq<real>, landmarks: seq<real>, s: seq<int>, anchors: seq<Anchor>,
                          exp: real -> real, order: seq<int>, n: nat): (r: seq<Box>)
    requires SuppressInputs(boxes, landmarks, s, anchors, order, n)
    ensures |r| == n
  {
    seq(n, i requires 0 <= i < n => GetBox(boxes, order[i], anchors[s[order[i]]], exp))
  }

  /** The decoded landmarks of the candidate at sorted position `i`. */
  function CandidateLandmarks(boxes: seq<real>, landmarks: seq<real>, s: seq<int>, anchors: seq<Anchor>,
                              order: seq<int>, n: nat): (r: seq<Landmarks>)
    requires SuppressInputs(boxes, landmarks, s, anchors, order, n)
    ensures |r| == n
  {
    seq(n, i requires 0 <= i < n => GetLandmark(landmarks, order[i], anchors[s[order[i]]]))
  }

  /** Which sorted candidates pass the confidence threshold before any
      suppression. */
  function Alive(probs: seq<real>, order: seq<int>, n: nat): (r: seq<bool>)
    requires IsIndexPermutation(order, n) && n <= |probs|
    ensures |r| == n
  {
    seq(n, i requires 0 <= i < n => probs[order[i]] >= ObjThreshold)
  }

  /** The probability of a swept candidate: zeroed when it was alive and some
      box of `acc` suppresses it, unchanged otherwise. */
  function SweptProb(before: real, alive: bool, survives: bool): real
  {
    if alive && !survives then 0.0 else before
  }

  /** Candidates `lo .. hi-1` (sorted positions) carry the probability the
      boxes of `acc` leave them. */
  ghost predicate SweptBy(now: seq<real>, before: seq<real>, order: seq<int>, cands: seq<Box>,
                          alive: seq<bool>, acc: seq<nat>, lo: nat, hi: nat)
  {
    && |now| == |before| && hi <= |order| && hi <= |cands| && hi <= |alive|
    && (forall k :: 0 <= k < |acc| ==> acc[k] < |cands|)
    && (forall j :: lo <= j < hi ==> 0 <= order[j] < |now|)
    && (forall j :: lo <= j < hi ==>
          now[order[j]] == SweptProb(before[order[j]], alive[j], Survives(cands, acc, j, NmsThreshold)))
  }

  /** Candidates before `i` carry the probability their predecessors left
      them when the outer loop reached them. */
  ghost predicate Settled(now: seq<real>, before: seq<real>, order: seq<int>, cands: seq<Box>,
                          alive: seq<bool>, i: nat)
    requires i <= |cands| == |alive|
  {
    && |now| == |before| && i <= |order|
    && (forall j :: 0 <= j < i ==> 0 <= order[j] < |now|)
    && (forall j :: 0 <= j < i ==> now[order[j]] == FinalProb(before, order, cands, alive, j))
  }

  /** The probability sorted position `j` is left with: zeroed when it was
      alive and overlaps a box accepted before it. */
  ghost function FinalProb(before: seq<real>, order: seq<int>, cands: seq<Box>, alive: seq<bool>, j: nat): real
    requires j < |cands| == |alive| && j < |order| && 0 <= order[j] < |before|
  {
    SweptProb(before[order[j]], alive[j], Survives(cands, Accepted(cands, alive, NmsThreshold, j), j, NmsThreshold))
  }

  /** The state of the probabilities when the outer loop reaches sorted
      position `i`. */
  ghost predicate Progress(now: seq<real>, before: seq<real>, order: seq<int>, cands: seq<Box>,
                           alive: seq<bool>, i: nat, n: nat)
    requires i <= n == |cands| == |alive|
  {
    && Settled(now, before, order, cands, alive, i)
    && SweptBy(now, before, order, cands, alive, Accepted(cands, alive, NmsThreshold, i), i, n)
  }

  /** `out` is `pre` followed by the entries of `xs` at positions `acc`. */
  ghost predicate Emitted<T>(out: seq<T>, pre: seq<T>, xs: seq<T>, acc: seq<nat>)
    requires forall k :: 0 <= k < |acc| ==> acc[k] < |xs|
  {
    out == pre + Pick(xs, acc)
  }

  lemma EmittedSnoc<T>(out: seq<T>, pre: seq<T>, xs: seq<T>, acc: seq<nat>, i: nat)
    requires i < |xs| && forall k :: 0 <= k < |acc| ==> acc[k] < |xs|
    requires Emitted(out, pre, xs, acc)
    ensures Emitted(out + [xs[i]], pre, xs, acc + [i])
  {
    PickSnoc(xs, acc, i);
  }

  /** The inner loop of the NMS step: box `a` (the candidate at sorted
      position `i`, just accepted) zeroes the probability of every later
      candidate still above the confidence threshold that it overlaps by the
      NMS threshold or more. */
  method Sweep(boxes: seq<real>, landmarks: seq<real>, s: seq<int>, anchors: seq<Anchor>, exp: real -> real,
               order: seq<int>, n: nat, sProbs: array<real>, a: Box, i: nat,
               ghost before: seq<real>, ghost acc: seq<nat>)
    requires SuppressInputs(boxes, landmarks, s, anchors, order, n)
    requires n <= sProbs.Length == |before|
    requires i < n && a == CandidateBoxes(boxes, landmarks, s, anchors, exp, order, n)[i]
    requires forall k :: 0 <= k < |acc| ==> acc[k] < n
    requires SweptBy(sProbs[..], before, order, CandidateBoxes(boxes, landmarks, s, anchors, exp, order, n),
                     Alive(before, order, n), acc, i + 1, n)
    modifies sProbs
    ensures SweptBy(sProbs[..], before, order, CandidateBoxes(boxes, landmarks, s, anchors, exp, order, n),
                    Alive(before, order, n), acc + [i], i + 1, n)
    ensures forall j :: 0 <= j <= i ==> sProbs[order[j]] == old(sProbs[order[j]])
    ensures forall k :: n <= k < sProbs.Length ==> sProbs[k] == old(sProbs[k])
  {
    ghost var cands := CandidateBoxes(boxes, landmarks, s, anchors, exp, order, n);
    ghost var alive := Alive(before, order, n);
    var j := i + 1;
    while j < n
      invariant i + 1 <= j <= n
      invariant SweptBy(sProbs[..], before, order, cands, alive, acc + [i], i + 1, j)
      invariant SweptBy(sProbs[..], before, order, cands, alive, acc, j, n)
      invariant forall j' :: 0 <= j' <= i ==> sProbs[order[j']] == old(sProbs[order[j']])
      invariant forall k :: n <= k < sProbs.Length ==> sProbs[k] == old(sProbs[k])
    {
      ghost var now := sProbs[..];
      var objIndex := order[j];
      if sProbs[objIndex] >= ObjThreshold {
        var b := GetBox(boxes, objIndex, anchors[s[objIndex]], exp);
        if BoxIou(a, b) >= NmsThreshold {
          sProbs[objIndex] := 0.0;
        }
      }
      SweepStep(now, sProbs[..], before, order, cands, alive, acc, i, j, n);
      j := j + 1;
    }
  }

  /** One step of `Sweep`, on the probabilities as values. */
  lemma SweepStep(now: seq<real>, next: seq<real>, before: seq<real>, order: seq<int>, cands: seq<Box>,
                  alive: seq<bool>, acc: seq<nat>, i: nat, j: nat, n: nat)
    requires IsIndexPermutation(order, n) && |cands| == n && |alive| == n && i < j < n <= |now|
    requires forall k :: 0 <= k < |acc| ==> acc[k] < n
    requires SweptBy(now, before, order, cands, alive, acc + [i], i + 1, j)
    requires SweptBy(now, before, order, cands, alive, acc, j, n)
    requires alive[j] == (before[order[j]] >= ObjThreshold)
    requires next == if now[order[j]] >= ObjThreshold && BoxIou(cands[i], cands[j]) >= NmsThreshold
                     then now[order[j] := 0.0] else now
    ensures SweptBy(next, before, order, cands, alive, acc + [i], i + 1, j + 1)
    ensures SweptBy(next, before, order, cands, alive, acc, j + 1, n)
    ensures forall j' :: 0 <= j' <= i ==> next[order[j']] == now[order[j']]
    ensures forall k :: n <= k < |now| ==> next[k] == now[k]
  {
    var ext := acc + [i];
    SurvivesExtend(cands, acc, i, j, NmsThreshold);
    forall j' | 0 <= j' < n && j' != j ensures next[order[j']] == now[order[j']] {
      assert order[j'] != order[j];
    }
    assert next[order[j]] == SweptProb(before[order[j]], alive[j], Survives(cands, ext, j, NmsThreshold));
    forall j' | i + 1 <= j' < j + 1
      ensures next[order[j']] == SweptProb(before[order[j']], alive[j'], Survives(cands, ext, j', NmsThreshold))
    {
    }
    forall j' | j + 1 <= j' < n
      ensures next[order[j']] == SweptProb(before[order[j']], alive[j'], Survives(cands, acc, j', NmsThreshold))
    {
    }
  }

  lemma PickSnoc<T>(xs: seq<T>, acc: seq<nat>, i: nat)
    requires i < |xs| && forall k :: 0 <= k < |acc| ==> acc[k] < |xs|
    ensures Pick(xs, acc + [i]) == Pick(xs, acc) + [xs[i]]
  {
  }

  /** Lines 377-391 of `decode`: walk the candidates in sorted order, keep
      each one still above the confidence threshold (appending its box and
      landmarks to the output lists) and let it suppress the later ones it
      overlaps. The kept boxes are exactly the greedy reference `Accepted`
      over the sorted candidates. */
  method Suppress(boxes: seq<real>, landmarks: seq<real>, s: seq<int>, anchors: seq<Anchor>,
                  exp: real -> real, order: seq<int>, n: nat, sProbs: array<real>,
                  predBox: seq<Box>, predLandmarks: seq<Landmarks>)
    returns (outBox: seq<Box>, outLandmarks: seq<Landmarks>)
    requires SuppressInputs(boxes, landmarks, s, anchors, order, n)
    requires n <= sProbs.Length
    modifies sProbs
    ensures outBox == predBox + Pick(CandidateBoxes(boxes, landmarks, s, anchors, exp, order, n),
                                     Accepted(CandidateBoxes(boxes, landmarks, s, anchors, exp, order, n),
                                              Alive(old(sProbs[..]), order, n), NmsThreshold, n))
    ensures outLandmarks == predLandmarks + Pick(CandidateLandmarks(boxes, landmarks, s, anchors, order, n),
                                     Accepted(CandidateBoxes(boxes, landmarks, s, anchors, exp, order, n),
                                              Alive(old(sProbs[..]), order, n), NmsThreshold, n))
    ensures forall j :: 0 <= j < n ==>
              sProbs[order[j]] == if Alive(old(sProbs[..]), order, n)[j] &&
                                     j !in Accepted(CandidateBoxes(boxes, landmarks, s, anchors, exp, order, n),
                                                    Alive(old(sProbs[..]), order, n), NmsThreshold, n)
                                  then 0.0 else old(sProbs[order[j]])
    ensures forall k :: n <= k < sProbs.Length ==> sProbs[k] == old(sProbs[k])
  {
    ghost var before := sProbs[..];
    ghost var cands := CandidateBoxes(boxes, landmarks, s, anchors, exp, order, n);
    ghost var lands := CandidateLandmarks(boxes, landmarks, s, anchors, order, n);
    ghost var alive := Alive(before, order, n);
    outBox, outLandmarks := predBox, predLandmarks;
    var i := 0;
    while i < n
      invariant 0 <= i <= n
      invariant Emitted(outBox, predBox, cands, Accepted(cands, alive, NmsThreshold, i))
      invariant Emitted(outLandmarks, predLandmarks, lands, Accepted(cands, alive, NmsThreshold, i))
      invariant Progress(sProbs[..], before, order, cands, alive, i, n)
      invariant forall k :: n <= k < sProbs.Length ==> sProbs[k] == before[k]
    {
      outBox, outLandmarks := VisitCandidate(boxes, landmarks, s, anchors, exp, order, n, sProbs, i,
                                             outBox, outLandmarks, before, cands, lands, alive, predBox, predLandmarks);
      i := i + 1;
    }
    SettledFinal(sProbs[..], before, order, cands, alive, n);
  }

  /** One iteration of the outer loop of `Suppress`: a candidate still above
      the confidence threshold has its box and landmarks appended to the
      output and suppresses the later candidates it overlaps. */
  method VisitCandidate(boxes: seq<real>, landmarks: seq<real>, s: seq<int>, anchors: seq<Anchor>,
                        exp: real -> real, order: seq<int>, n: nat, sProbs: array<real>, i: nat,
                        outBox: seq<Box>, outLandmarks: seq<Landmarks>,
                        ghost before: seq<real>, ghost cands: seq<Box>, ghost lands: seq<Landmarks>,
                        ghost alive: seq<bool>, ghost predBox: seq<Box>, ghost predLandmarks: seq<Landmarks>)
    returns (outBox': seq<Box>, outLandmarks': seq<Landmarks>)
    requires SuppressInputs(boxes, landmarks, s, anchors, order, n)
    requires i < n <= sProbs.Length == |before|
    requires cands == CandidateBoxes(boxes, landmarks, s, anchors, exp, order, n)
    requires lands == CandidateLandmarks(boxes, landmarks, s, anchors, order, n)
    requires alive == Alive(before, order, n)
    requires Progress(sProbs[..], before, order, cands, alive, i, n)
    requires Emitted(outBox, predBox, cands, Accepted(cands, alive, NmsThreshold, i))
    requires Emitted(outLandmarks, predLandmarks, lands, Accepted(cands, alive, NmsThreshold, i))
    modifies sProbs
    ensures Progress(sProbs[..], before, order, cands, alive, i + 1, n)
    ensures Emitted(outBox', predBox, cands, Accepted(cands, alive, NmsThreshold, i + 1))
    ensures Emitted(outLandmarks', predLandmarks, lands, Accepted(cands, alive, NmsThreshold, i + 1))
    ensures forall k :: n <= k < sProbs.Length ==> sProbs[k] == old(sProbs[k])
  {
    ghost var acc := Accepted(cands, alive, NmsThreshold, i);
    ghost var now := sProbs[..];
    Visited(now, before, order, cands, alive, i, n);
    outBox', outLandmarks' := outBox, outLandmarks;
    var objIndex := order[i];
    if sProbs[objIndex] >= ObjThreshold {
      var a := GetBox(boxes, objIndex, anchors[s[objIndex]], exp);
      outBox' := outBox + [a];
      var l := GetLandmark(landmarks, objIndex, anchors[s[objIndex]]);
      outLandmarks' := outLandmarks + [l];
      EmittedSnoc(outBox, predBox, cands, acc, i);
      EmittedSnoc(outLandmarks, predLandmarks, lands, acc, i);
      Sweep(boxes, landmarks, s, anchors, exp, order, n, sProbs, a, i, before, acc);
    }
    Advanced(now, sProbs[..], before, order, cands, alive, i, n);
  }

  /** What visiting sorted position `i` finds: the candidate is still above
      the confidence threshold exactly when the greedy reference accepts it. */
  lemma Visited(now: seq<real>, before: seq<real>, order: seq<int>, cands: seq<Box>, alive: seq<bool>,
                i: nat, n: nat)
    requires IsIndexPermutation(order, n) && |cands| == n && i < n <= |before|
    requires alive == Alive(before, order, n)
    requires SweptBy(now, before, order, cands, alive, Accepted(cands, alive, NmsThreshold, i), i, n)
    ensures now[order[i]] >= ObjThreshold <==> alive[i] && Survives(cands, Accepted(cands, alive, NmsThreshold, i), i, NmsThreshold)
    ensures Accepted(cands, alive, NmsThreshold, i + 1) ==
              if now[order[i]] >= ObjThreshold then Accepted(cands, alive, NmsThreshold, i) + [i]
              else Accepted(cands, alive, NmsThreshold, i)
    ensures SweptBy(now, before, order, cands, alive, Accepted(cands, alive, NmsThreshold, i), i + 1, n)
  {
  }

  /** The loop invariant of `Suppress` after visiting sorted position `i`. */
  lemma Advanced(now: seq<real>, next: seq<real>, before: seq<real>, order: seq<int>, cands: seq<Box>,
                 alive: seq<bool>, i: nat, n: nat)
    requires IsIndexPermutation(order, n) && |cands| == n && i < n <= |before|
    requires alive == Alive(before, order, n)
    requires Settled(now, before, order, cands, alive, i)
    requires SweptBy(now, before, order, cands, alive, Accepted(cands, alive, NmsThreshold, i), i, n)
    requires now[order[i]] < ObjThreshold ==> next == now
    requires now[order[i]] >= ObjThreshold ==>
               && |next| == |now|
               && SweptBy(next, before, order, cands, alive, Accepted(cands, alive, NmsThreshold, i) + [i], i + 1, n)
               && (forall j :: 0 <= j <= i ==> next[order[j]] == now[order[j]])
    ensures Settled(next, before, order, cands, alive, i + 1)
    ensures SweptBy(next, before, order, cands, alive, Accepted(cands, alive, NmsThreshold, i + 1), i + 1, n)
  {
    Visited(now, before, order, cands, alive, i, n);
    SettledGrow(now, next, before, order, cands, alive, i, n);
  }

  lemma SettledGrow(now: seq<real>, next: seq<real>, before: seq<real>, order: seq<int>, cands: seq<Box>,
                    alive: seq<bool>, i: nat, n: nat)
    requires IsIndexPermutation(order, n) && |cands| == n && |alive| == n && i < n <= |before|
    requires Settled(now, before, order, cands, alive, i)
    requires now[order[i]] == FinalProb(before, order, cands, alive, i)
    requires |next| == |now| && forall j :: 0 <= j <= i ==> next[order[j]] == now[order[j]]
    ensures Settled(next, before, order, cands, alive, i + 1)
  {
    forall j | 0 <= j < i + 1
      ensures next[order[j]] == FinalProb(before, order, cands, alive, j)
    {
      assert next[order[j]] == now[order[j]];
    }
  }
}
