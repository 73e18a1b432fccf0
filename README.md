# Face detection post-processing and face-driven auto-exposure, in Dafny

This project models the core of two K230 camera applications:

- **`face_detect`** runs a RetinaFace network on every frame, draws a numbered rectangle on the display for each face, and steers the ISP's auto-exposure (AE) towards the faces.
- **`sample_face_ae`** does the same, with its own copy of the boxes-to-AE conversion.

It covers these parts:

- **RetinaFace decode** (`mobile_retinaface.cc`), in four stages:
  - per-anchor face probabilities from the three confidence tensors; the confident anchors are selected in anchor order (`deal_conf_opt`);
  - the location and landmark regressions of the selected anchors are gathered (`deal_loc_opt`, `deal_landms_opt`);
  - the candidates are ordered by decreasing probability (`qsort` with `nms_comparator2`);
  - greedy non-maximum suppression on centre-size boxes, using `get_box_opt`, `get_landmark_opt`, `overlap`, `box_intersection`, `box_union` and `box_iou`.
- **`postprocess`** maps each kept box and landmark set from the letterboxed model input back to pixel corners of the camera image, and clamps them to the image.
- **`FaceAeRoi`** (`face_ae_roi.cc`) and **`face_location_convert_roi`** with `calc_sum` (`sample_face_ae/src/main.cc`) turn up to eight face boxes into AE windows on the sensor. Each window gets an area-proportional weight. All arithmetic is on `k_u32`, with its wrap-around.
- **The overlay bookkeeping** in both `main` loops:
  - rectangles are numbered from 1;
  - stale markers are switched off when fewer faces are found;
  - every marker is switched off on exit.

## How the model is built

**Arithmetic.**
- Integer arithmetic follows C: `k_u32` and `size_t` wrap, and a float-to-`int` cast truncates toward zero (`CInt`).
- Floating point is modelled by exact reals.
- `softmax_2group_vec`, `k230_expf` and the `anchors320` table are parameters.

**Decode.**
- The three selection passes, the gathers and the suppression loop are imperative methods over arrays. Each is proved against a value-level reference:
  - `Candidates.Selected`: which anchors pass the threshold;
  - `Decode.AnchorValues`: what each anchor's regression values are;
  - `Nms.Accepted`: the greedy suppression, stated recursively.
- `Decode.Decode` ties the whole decode to those references. The lemmas in `Decode` then give the detector's promises about its output:
  - the kept boxes pairwise overlap below the NMS threshold;
  - scores are at least the object threshold and never increase;
  - every dropped candidate is covered by a kept one;
  - every kept box comes from a confident anchor.

**AE and overlay.**
- `FaceAeRoi` and the overlay markers are classes whose methods update their state.
- `face_location_convert_roi` writes through a caller's struct (`SampleAe.AeRoiBuffer`).

## Model

| member | source | states |
|---|---|---|
| AnchorDecode.GetBox | apps/sample_face_ae/src/mobile_retinaface.cc:259-276 | the decoded box has positive width and height whenever the anchor's size and the exponential are positive |
| AnchorDecode.DecodeZeroIsAnchor | apps/sample_face_ae/src/mobile_retinaface.cc:266-269 | a zero regression decodes to exactly the anchor box |
| AnchorDecode.DecodeZeroExample | apps/sample_face_ae/src/mobile_retinaface.cc:266-269 | the anchor (0.5, 0.5, 0.1, 0.1) with zero offsets decodes to itself |
| AnchorDecode.DecodeEncodeBox | apps/sample_face_ae/src/mobile_retinaface.cc:266-269 | decoding is a left inverse of encoding a box against its anchor, with variances 0.1 and 0.2, for any positive box |
| AnchorDecode.EncodeDecodeBox | apps/sample_face_ae/src/mobile_retinaface.cc:262-269 | encoding a decoded box gives back the four regression values it was read from |
| AnchorDecode.DecodeEncodeLandmarks | apps/sample_face_ae/src/mobile_retinaface.cc:281-290 | the five landmark points round-trip through encode then decode against the anchor |
| AnchorDecode.EncodeDecodeLandmarks | apps/sample_face_ae/src/mobile_retinaface.cc:281-290 | the ten landmark regression values round-trip through decode then encode |
| AnchorDecode.GetLandmark | apps/sample_face_ae/src/mobile_retinaface.cc:278-292 | ten coordinates; a zero regression value puts its point on the anchor centre (x on cx, y on cy) |
| AnchorDecode.LandmarkSide | apps/sample_face_ae/src/mobile_retinaface.cc:281-290 | for an anchor of positive size, a landmark point lies right of (below) the anchor centre exactly when its regression value is positive |
| Iou.Overlap | apps/sample_face_ae/src/mobile_retinaface.cc:158-167 | the common length of two centred segments is never longer than either segment |
| Iou.BoxIntersection | apps/sample_face_ae/src/mobile_retinaface.cc:169-175 | the intersection is never negative, and it is zero when the boxes are apart on either axis |
| Iou.BoxUnion | apps/sample_face_ae/src/mobile_retinaface.cc:177-182 | for boxes of positive size the union is positive and at least the area of either box |
| Iou.BoxIou | apps/sample_face_ae/src/mobile_retinaface.cc:184-186 | the IoU is 0 when the boxes do not intersect, and 0 (not NaN) when the union is 0 |
| Iou.IntersectionSymmetric | apps/sample_face_ae/src/mobile_retinaface.cc:169-186 | intersection, union and IoU do not depend on argument order |
| Iou.IntersectionOfSeparated | apps/sample_face_ae/src/mobile_retinaface.cc:169-175 | boxes that do not touch have intersection and IoU zero |
| Iou.IntersectionAtMostArea | apps/sample_face_ae/src/mobile_retinaface.cc:169-175 | the intersection is at most the area of the first box |
| Iou.IouBounds | apps/sample_face_ae/src/mobile_retinaface.cc:177-186 | for boxes of positive size: intersection at most either area, union positive and at least either area, IoU in [0, 1] |
| Iou.IouSelf | apps/sample_face_ae/src/mobile_retinaface.cc:184-186 | a box of positive size has IoU 1 with itself |
| Candidates.ScaleProbs | apps/sample_face_ae/src/mobile_retinaface.cc:191-205 | one face probability per anchor of the scale, two per cell |
| Candidates.ScaleProbsOfCell | apps/sample_face_ae/src/mobile_retinaface.cc:191-205 | the two anchors of grid cell i have the face probabilities of the softmax of channels (i, size+i) and (2size+i, 3size+i) |
| Candidates.SelectedIncreasing | apps/sample_face_ae/src/mobile_retinaface.cc:197-212 | selected anchor numbers lie in the scale's range and strictly increase |
| Candidates.SelectedMembership | apps/sample_face_ae/src/mobile_retinaface.cc:197-212 | an anchor is selected if and only if it is in range and its probability is at least the threshold |
| Candidates.SelectedProbsMatch | apps/sample_face_ae/src/mobile_retinaface.cc:197-212 | the stored probabilities are, entry by entry, the probabilities of the stored anchor numbers |
| Candidates.SelectedProbsAboveThreshold | apps/sample_face_ae/src/mobile_retinaface.cc:199-210 | every stored probability is at least the threshold |
| Candidates.SelectedAppend | apps/sample_face_ae/src/mobile_retinaface.cc:345-350 | selecting over concatenated scales is the concatenation of the per-scale selections, with the anchor numbers of later scales shifted |
| Candidates.SelectedPrefixLength | apps/sample_face_ae/src/mobile_retinaface.cc:197-212 | a prefix of the probabilities never selects more than the whole, so the write index stays within the final count |
| Candidates.Keep | apps/sample_face_ae/src/mobile_retinaface.cc:198-210 | one probability test keeps the written prefix equal to the selection of the probabilities seen so far |
| Candidates.DealConf | apps/sample_face_ae/src/mobile_retinaface.cc:188-216 | the anchor counter advances by 2·size; the stored anchor numbers and probabilities, appended at the old count, are exactly the selection of this scale; the rest of both arrays is unchanged |
| Candidates.PlaneIndexInRange | apps/sample_face_ae/src/mobile_retinaface.cc:226-227 | the planar index read for channel c of cell w is inside the tensor |
| Candidates.CopyEntry | apps/sample_face_ae/src/mobile_retinaface.cc:225-228 | slot index_s receives the anchor's regression values and no other element changes |
| Candidates.Visit | apps/sample_face_ae/src/mobile_retinaface.cc:223-231 | one step of the gather keeps the invariant: every selected anchor passed so far has its values in its slot |
| Candidates.GatherScale | apps/sample_face_ae/src/mobile_retinaface.cc:218-236 | the counter advances by 2·size; every selected anchor of this scale gets its regression values (4 for `deal_loc_opt`, 10 for `deal_landms_opt`) in its slot; earlier slots are untouched |
| IndexSort.SortByProb | apps/sample_face_ae/src/mobile_retinaface.cc:370-375 | the visit order holds exactly the candidates 0..n-1 and is ordered by non-increasing probability, as `nms_comparator2` demands |
| IndexSort.SortByProbIsPermutation | apps/sample_face_ae/src/mobile_retinaface.cc:294-305 | the visit order is a permutation of 0..n-1 sorted by non-increasing probability |
| Nms.Accepted | apps/sample_face_ae/src/mobile_retinaface.cc:377-391 | the greedy reference: the accepted positions are increasing and within the candidates |
| Nms.AcceptedAreAlive | apps/sample_face_ae/src/mobile_retinaface.cc:379 | only candidates whose probability passes the object threshold are accepted |
| Nms.AcceptedPairwise | apps/sample_face_ae/src/mobile_retinaface.cc:385-390 | any two accepted boxes have IoU below the NMS threshold |
| Nms.RejectedAreCovered | apps/sample_face_ae/src/mobile_retinaface.cc:385-390 | every live candidate that is not accepted has IoU at least the threshold with an accepted box |
| Nms.AcceptedMembership | apps/sample_face_ae/src/mobile_retinaface.cc:377-391 | a candidate is accepted if and only if it is alive and overlaps no box accepted before it |
| Nms.AcceptedByProbability | apps/sample_face_ae/src/mobile_retinaface.cc:370-391 | accepted candidates come out in non-increasing probability |
| Nms.PairwiseAllAccepted | apps/sample_face_ae/src/mobile_retinaface.cc:377-391 | when no two candidates overlap, all of them are kept in order |
| Nms.AcceptedIdempotent | apps/sample_face_ae/src/mobile_retinaface.cc:377-391 | suppressing the survivors a second time keeps all of them |
| Nms.IdenticalBoxesExample | apps/sample_face_ae/src/mobile_retinaface.cc:377-391 | of two identical boxes scored 0.9 and 0.7 only the first is kept |
| Nms.SettledFinal | apps/sample_face_ae/src/mobile_retinaface.cc:379-389 | after the loop, a live candidate's probability is zero exactly when it was suppressed; all others are unchanged |
| Nms.Sweep | apps/sample_face_ae/src/mobile_retinaface.cc:385-390 | the inner loop zeroes exactly the live later candidates that overlap the accepted box; earlier entries are untouched |
| Nms.VisitCandidate | apps/sample_face_ae/src/mobile_retinaface.cc:378-390 | one outer step emits the candidate if and only if the reference accepts it, and keeps the sweep invariant |
| Nms.Suppress | apps/sample_face_ae/src/mobile_retinaface.cc:377-391 | the emitted boxes and landmarks are the previous ones followed by the reference's accepted candidates in visit order; suppressed probabilities become 0 |
| Decode.SelectAll | apps/sample_face_ae/src/mobile_retinaface.cc:335-350 | after the three `deal_conf_opt` calls, s and s_probs start with the confident anchors of all 4200 in anchor order and their probabilities; the rest of s is what it held |
| Decode.SelectedAll | apps/sample_face_ae/src/mobile_retinaface.cc:345-350 | the selection over all anchors is the three per-scale selections at anchor offsets 0, 3200 and 4000 |
| Decode.AnchorValuesOfScale | apps/sample_face_ae/src/mobile_retinaface.cc:352-368 | an anchor's regression values are its entry in the tensor of its own scale |
| Decode.GatherAll | apps/sample_face_ae/src/mobile_retinaface.cc:352-368 | after the three gathers, slot k holds the regression values of anchor s[k] for every selected k |
| Decode.VisitOrder | apps/sample_face_ae/src/mobile_retinaface.cc:370-375 | one admissible `qsort` outcome: a permutation of the candidates sorted by non-increasing score (`QsortOrder`) |
| Decode.Decode | apps/sample_face_ae/src/mobile_retinaface.cc:307-399 | for every visit order `qsort` may produce, the output boxes and landmarks are the previous ones followed by the greedy NMS survivors of the confident anchors in that order |
| Decode.CandidatesAgree | apps/sample_face_ae/src/mobile_retinaface.cc:380-388 | `get_box_opt` and `get_landmark_opt` on the gathered buffers give the boxes of the selected anchors in visit order |
| Decode.DecodedBoxesApart | apps/sample_face_ae/src/mobile_retinaface.cc:377-391 | any two decoded boxes have IoU below 0.5 |
| Decode.DecodedByScore | apps/sample_face_ae/src/mobile_retinaface.cc:377-391 | decoded faces have scores of at least 0.6, in non-increasing order |
| Decode.DroppedAreCovered | apps/sample_face_ae/src/mobile_retinaface.cc:377-391 | every confident anchor that was dropped overlaps a kept box with IoU at least 0.5 |
| Decode.DecodedFromConfidentAnchors | apps/sample_face_ae/src/mobile_retinaface.cc:377-384 | every decoded box is the box of some anchor with probability at least 0.6 |
| Letterboxing.LetterboxOf | apps/sample_face_ae/src/mobile_retinaface.cc:97-101 | long side is the larger dimension; pad is half the difference; padding is horizontal exactly when height ≥ width |
| Letterboxing.RawCorners | apps/sample_face_ae/src/mobile_retinaface.cc:106-127 | a box of non-negative width (height) keeps x1 ≤ x2 (y1 ≤ y2) after scaling, truncation and the pad shift |
| Letterboxing.Clamp | apps/sample_face_ae/src/mobile_retinaface.cc:129-132 | the corners are non-negative; a negative x1 or y1 becomes 1; x2 and y2 end within the image; a negative x2 or y2 becomes the image size |
| Letterboxing.RemapBox | apps/sample_face_ae/src/mobile_retinaface.cc:106-134 | the reported corners have x1, y1 ≥ 0; a raw left or top edge already on the image is kept; x2 and y2 lie within the image whenever the raw corner fits an `int` |
| Letterboxing.RemapLandmarks | apps/sample_face_ae/src/mobile_retinaface.cc:137-154 | ten coordinates, each a whole number of pixels within one pixel of the scaled coordinate minus the pad on its axis |
| Letterboxing.ClampIdempotent | apps/sample_face_ae/src/mobile_retinaface.cc:129-132 | clamping twice is clamping once |
| Letterboxing.ClampKeepsInside | apps/sample_face_ae/src/mobile_retinaface.cc:129-132 | corners already inside the image are left as they are |
| Letterboxing.ClampMayInvert | apps/sample_face_ae/src/mobile_retinaface.cc:129-132 | the clamp can leave x1 > x2: corners (-5, -5, 0, 0) become (1, 1, 0, 0) |
| Letterboxing.RawCornersExact | apps/sample_face_ae/src/mobile_retinaface.cc:109-127 | when the scaled edges are whole pixels, the corners are those edges minus the pad on the padded axis |
| Letterboxing.RawCornersOfModelBox | apps/sample_face_ae/src/mobile_retinaface.cc:109-127 | mapping corners into the model frame and back gives the same corners |
| Letterboxing.RemapBoxRoundTrip | apps/sample_face_ae/src/mobile_retinaface.cc:106-135 | every box inside the image survives mapping into the model frame and back through `postprocess` unchanged |
| Letterboxing.RemapPointAt | apps/sample_face_ae/src/mobile_retinaface.cc:143-152 | a landmark coordinate on a whole pixel maps to that pixel minus the pad on the padded axis |
| Letterboxing.RemapPointExact | apps/sample_face_ae/src/mobile_retinaface.cc:143-152 | a pixel coordinate mapped into the model frame comes back unchanged |
| Letterboxing.RemapLandmarksRoundTrip | apps/sample_face_ae/src/mobile_retinaface.cc:139-155 | all ten landmark coordinates of whole pixels come back unchanged through `postprocess` |
| Retinaface.Detections | apps/sample_face_ae/src/mobile_retinaface.cc:86-156 | one box and one landmark set per kept face; every box has x1, y1 ≥ 0; every landmark set has ten coordinates |
| Retinaface.LandmarksShape | apps/sample_face_ae/src/mobile_retinaface.cc:383-384 | every decoded landmark set has ten coordinates |
| Retinaface.DetectionsOfDecoded | apps/sample_face_ae/src/mobile_retinaface.cc:86-156 | the result is the decoded boxes and landmarks, each mapped to image pixels |
| Retinaface.MobileRetinaface.constructor | apps/sample_face_ae/src/mobile_retinaface.cc:24-29 | records the input channel, height and width; the result starts empty |
| Retinaface.MobileRetinaface.GetResult | apps/sample_face_ae/src/mobile_retinaface.h:18 | returns the stored boxes and landmarks |
| Retinaface.MobileRetinaface.CornersToImage | apps/sample_face_ae/src/mobile_retinaface.cc:107-132 | the stored corners have x1, y1 ≥ 0 and x2 ≤ width, y2 ≤ height whenever the raw corner fits an `int`; they are `RemapBox` of the decoded box |
| Retinaface.MobileRetinaface.PointsToImage | apps/sample_face_ae/src/mobile_retinaface.cc:140-154 | the inner loop over five points equals the reference landmark mapping |
| Retinaface.MobileRetinaface.StoreBoxes | apps/sample_face_ae/src/mobile_retinaface.cc:104-135 | the result boxes become the mapped decoded boxes, in order; landmarks are untouched |
| Retinaface.MobileRetinaface.StoreLandmarks | apps/sample_face_ae/src/mobile_retinaface.cc:137-155 | the result landmarks become the mapped decoded landmarks, in order; boxes are untouched |
| Retinaface.MobileRetinaface.Postprocess | apps/sample_face_ae/src/mobile_retinaface.cc:86-156 | for every visit order `qsort` may produce, the result afterwards is `Detections` of the network outputs for the input size |
| AeRoi.RoiCount | apps/face_detect/src/face_ae_roi.cc:22 | the number of windows is the number of boxes capped at 8 |
| AeRoi.FloatDiv | apps/face_detect/src/face_ae_roi.cc:57 | the float quotient: 0/0 is NaN, x/0 is +infinity, otherwise a ratio r with r·sum = area, in [0, 1] when area ≤ sum |
| AeRoi.EntryAtMostSum | apps/face_detect/src/face_ae_roi.cc:52-55 | each area is at most the exact total, and a zero total means every area is zero |
| AeRoi.ScaleU32Exact | apps/face_detect/src/face_ae_roi.cc:36-39 | `x * scale / model` on `k_u32` is the exact quotient when the product does not wrap |
| AeRoi.TotalArea | apps/sample_face_ae/src/main.cc:361-367 | the total is the sum of the first n areas reduced modulo 2^32 |
| AeRoi.StoreWeights | apps/face_detect/src/face_ae_roi.cc:56-58 | entry i < n gets weight area[i]/sum; windows and later entries are unchanged |
| AeRoi.WeightsInUnit | apps/face_detect/src/face_ae_roi.cc:56-58 | with a positive total, every weight is a ratio in [0, 1] |
| AeRoi.QuotientsTotalOne | apps/face_detect/src/face_ae_roi.cc:52-58 | with a positive total that did not wrap, the weights add up to 1 |
| AeRoi.WeightsSumToOne | apps/face_detect/src/face_ae_roi.cc:52-58 | when the areas' total is positive and fits in `k_u32`, every weight is in [0, 1] and they add up to 1 |
| AeRoi.ZeroAreasGiveNaN | apps/face_detect/src/face_ae_roi.cc:52-58 | when every window has zero area, every weight is NaN |
| AeRoi.WrappedSumExample | apps/face_detect/src/face_ae_roi.cc:52-57 | two areas of 2^31 wrap the total to 0, so each weight becomes +infinity |
| FaceAe.ClipToEdge | apps/face_detect/src/face_ae_roi.cc:41-42 | the clipped extent is at most the original, ends on the sensor when the offset is on it, and is unchanged when it already fits |
| FaceAe.SensorSpan | apps/face_detect/src/face_ae_roi.cc:33-42 | offset and extent are `k_u32`, and a span starting on the sensor ends on it |
| FaceAe.SensorWindow | apps/face_detect/src/face_ae_roi.cc:33-47 | on both axes, a window starting on the sensor ends on it |
| FaceAe.WindowsForAt | apps/face_detect/src/face_ae_roi.cc:32-50 | window k of the loop is the sensor window of box k |
| FaceAe.SensorSpanInside | apps/face_detect/src/face_ae_roi.cc:36-39 | for a span inside the model input whose products fit, the offset and extent are the exact scaled values |
| FaceAe.SensorWindowInside | apps/face_detect/src/face_ae_roi.cc:33-47 | a box inside the model input maps to the exactly scaled window |
| FaceAe.InvertedBoxReachesEdge | apps/face_detect/src/face_ae_roi.cc:38-42 | a box with x2 < x1 wraps its width and is cut to the edge: (10, 5) maps to offset 60, width 1860 |
| FaceAe.AeRoiOf | apps/face_detect/src/face_ae_roi.cc:19-20 | the struct holds the windows in order, their count, and zeroed entries after them |
| FaceAe.AeRoiFor | apps/face_detect/src/face_ae_roi.cc:18-61 | roiNum is the box count capped at 8, and the entries past it are all zero |
| FaceAe.AeRoiForWindows | apps/face_detect/src/face_ae_roi.cc:32-47 | each entry below roiNum holds the sensor window of its box |
| FaceAe.AeRoiWeightsSumToOne | apps/face_detect/src/face_ae_roi.cc:52-58 | with a positive total that fits in `k_u32`, the configured weights are in [0, 1] and add up to 1 |
| FaceAe.AeRoiZeroAreas | apps/face_detect/src/face_ae_roi.cc:52-58 | windows of zero total area all get weight NaN |
| FaceAe.WeighedIsAeRoiOf | apps/face_detect/src/face_ae_roi.cc:52-58 | weighing the stored windows with their areas and wrapped total gives the configured struct |
| FaceAe.AeRoiEmpty | apps/face_detect/src/face_ae_roi.cc:19-27 | no boxes give roiNum 0 and an all-zero struct |
| FaceAe.FaceAeRoi.constructor | apps/face_detect/src/face_ae_roi.cc:6-12 | records the device and the model and sensor sizes |
| FaceAe.FaceAeRoi.WindowOf | apps/face_detect/src/face_ae_roi.cc:33-42 | on both axes, a window whose offset is on the sensor ends on it; the window is the box's `SensorWindow` |
| FaceAe.FaceAeRoi.StoreEntry | apps/face_detect/src/face_ae_roi.cc:44-49 | one more window is written with a zero weight, and its area is recorded |
| FaceAe.FaceAeRoi.StoreWindows | apps/face_detect/src/face_ae_roi.cc:32-50 | the first min(n, 8) entries get their boxes' windows and the areas are recorded |
| FaceAe.FaceAeRoi.Update | apps/face_detect/src/face_ae_roi.cc:18-61 | the struct handed to the ISP is `AeRoiFor` of the boxes, including the empty case |
| SampleAe.CheckBoundary | apps/sample_face_ae/src/main.cc:373 | a `k_u32` result; a size that fits is kept; when the sum does not wrap, a cut size ends exactly at the edge |
| SampleAe.CheckBoundaryPastEdge | apps/sample_face_ae/src/main.cc:373 | an offset past the edge (2000 on 1920) gets the wrapped size 2^32 − 80 |
| SampleAe.CheckBoundaryWrappedSum | apps/sample_face_ae/src/main.cc:373 | when offset + size wraps, the oversized size is kept |
| SampleAe.ConvertedSpan | apps/sample_face_ae/src/main.cc:389-405 | offset and size are `k_u32`; when the offset is on the sensor and offset + size does not wrap, the span ends on the sensor |
| SampleAe.ConvertedWindow | apps/sample_face_ae/src/main.cc:389-405 | the same on both axes of the window |
| SampleAe.ConvertedWindowsAt | apps/sample_face_ae/src/main.cc:388-409 | window k of the loop is the converted window of box k |
| SampleAe.ConvertedSpanFits | apps/sample_face_ae/src/main.cc:402-405 | with no offset and a divisor of at least 2, a span starting on the sensor ends on it |
| SampleAe.ConvertedWindowFits | apps/sample_face_ae/src/main.cc:507-509 | with the arguments `main` passes, every window starting on the sensor ends on it |
| SampleAe.ConvertedSpanInside | apps/sample_face_ae/src/main.cc:389-400 | a span inside the model input whose products fit gets offset lo·size/scale + h_offset and extent (hi − lo)·size/scale |
| SampleAe.WeighedIsConverted | apps/sample_face_ae/src/main.cc:411-414 | weighing the rewindowed entries with their areas and wrapped total gives `Converted` |
| SampleAe.AeRoiBuffer.constructor | apps/sample_face_ae/src/main.cc:507 | an uninitialised `k_isp_ae_roi`: any count and any eight entries |
| SampleAe.ConvertWindow | apps/sample_face_ae/src/main.cc:389-405 | on both axes, a window whose offset is on the sensor and whose end does not wrap ends on the sensor; the window is the box's `ConvertedWindow` |
| SampleAe.StoreEntry | apps/sample_face_ae/src/main.cc:392-408 | window i is written and area i recorded; later areas are unchanged |
| SampleAe.StoreConverted | apps/sample_face_ae/src/main.cc:388-409 | the first n entries get their windows, weights untouched; the first n areas are recorded, later ones unchanged |
| SampleAe.ConvertRoi | apps/sample_face_ae/src/main.cc:369-415 | null struct: nothing written. No boxes: only roiNum := 0. Otherwise roiNum = min(n, 8), those entries get windows and area weights, the rest keep what they held |
| Overlay.DisplayX | apps/face_detect/src/main.cc:475-476 | a `uint32_t` result; an x on the model channel maps to exactly x·1920/1280, which is on the display |
| Overlay.DisplayY | apps/face_detect/src/main.cc:477-478 | a `uint32_t` result; a y on the model channel maps to exactly y·1080/720, which is on the display |
| Overlay.DisplayScale | apps/face_detect/src/main.cc:475-480 | an x on the model channel scales to x·1920/1280 without wrapping, stays on the display and keeps its order |
| Overlay.DisplayScaleY | apps/face_detect/src/main.cc:477-482 | a y on the model channel scales to y·1080/720 without wrapping, stays on the display and keeps its order |
| Overlay.NegativeCoordinateWraps | apps/face_detect/src/main.cc:475-476 | x = −1 is cast to `uint32_t` and wraps to 3355441, off the display |
| Overlay.ShownAfterRun | apps/face_detect/src/main.cc:465-485 | after a run of consecutively numbered draws, those markers are on or off as the run says and the others are as before |
| Overlay.FrameShowsBoxes | apps/face_detect/src/main.cc:465-486 | after one frame exactly the markers 1..\|boxes\| are shown |
| Overlay.ExitHidesAll | apps/face_detect/src/main.cc:506-510 | after the exit loop no marker is shown |
| Overlay.Markers.constructor | apps/face_detect/src/main.cc:77 | `vo_frame` starts as {1, 16, 16, 128, 128, 1}, face_count as 1 (line 394), and nothing has been drawn |
| Overlay.Markers.SwitchOff | apps/face_detect/src/main.cc:465-471 | markers from+1..to are drawn disabled, and `vo_frame` is left with draw_en 0 and frame_num to |
| Overlay.Markers.DrawBoxes | apps/face_detect/src/main.cc:473-485 | marker i+1 is drawn enabled at box i's display corners, in order |
| Overlay.Markers.Frame | apps/face_detect/src/main.cc:465-486 | face_count becomes the number of boxes; `vo_frame` is left as the last box's marker, or else as the last disabled marker, or else unchanged; exactly markers 1..\|boxes\| are shown (likewise sample_face_ae/src/main.cc:484-505) |
| Overlay.Markers.Exit | apps/face_detect/src/main.cc:506-510 | every marker of the last frame is switched off, `vo_frame` is left as the last disabled marker (unchanged when there were no boxes), and none is shown (likewise sample_face_ae/src/main.cc:519-523) |

## Left out

- `FaceAeRoi::SetEnable` and the ISP/VO calls (`kd_mpi_isp_ae_set_roi`, `kd_mpi_isp_ae_roi_set_enable`, `kd_mpi_vo_draw_frame`): these are driver calls. `Update` returns the struct it would hand to the ISP, and a draw is recorded in the `Markers.drawn` log, whose meaning is given by `Overlay.Shown`.
- Fetching the nine output tensors (`mobile_retinaface.cc:311-323`), `malloc`/`free`, threads, the frame capture and the console messages: I/O and memory management. The tensors are the fields of `Decode.NetOutputs`.
- Floating point: `float` values are exact reals, so rounding is not modelled. `softmax_2group_vec` and `k230_expf` are opaque function parameters; lemmas that need `exp`/`log` to be inverse take that as a hypothesis.
- `anchors320` is a parameter of 4200 anchors; its contents are not modelled.
- `qsort` is not stable and its tie order is unspecified:
  - `Nms.Suppress` is proved for any visit order that is a permutation sorted by non-increasing probability;
  - `Decode.Decode`, `Retinaface.MobileRetinaface.Postprocess` and the lemmas about decoded faces take the visit order as a parameter constrained by `Decode.QsortOrder`, so they cover every outcome `qsort` may produce;
  - `IndexSort.SortByProb`, an insertion sort, shows that such an order always exists (`Decode.VisitOrder`).
- The uninitialised `s` buffer after the selected anchors is the parameter `sInit`:
  - the gathers may compare against those entries;
  - the model proves that a match there only writes slots at or past `real_count`, which the NMS never reads.
- `Iou.BoxIou`: a union of 0 gives NaN in C, and the model gives 0 instead. Both fail the `>= nms_threshold_` test, so suppression decides the same.
- `AeRoi.TotalArea`: `calc_sum`'s `k_u8 size` is modelled as a natural; it is at most 8 at its only call.
- `sensor_info` (a global filled by the driver) becomes the `sensorW`/`sensorH` fields of `SampleAe.Geometry`. The function-static `area[8]` of `face_location_convert_roi` is an array parameter.
- `face_count` is an `int` compared with a `size_t`; it is modelled as a natural, since counts never approach 2^31.
- The field order of `k_vo_draw_frame` (draw_en, x/y start, x/y end, frame_num) comes from its initialiser; the header is not part of this model.
- `Letterboxing.Clamp` follows the code, which is not a plain [0, W] clamp:
  - an x1 of exactly 0 stays 0, and only a negative one becomes 1;
  - a negative x2 or y2 becomes the image size, through the signed/unsigned comparison with `size_t`;
  - x1 ≤ x2 is not guaranteed (`Letterboxing.ClampMayInvert`).
- The `(int)` casts in `postprocess` are truncations toward zero (`CInt.Trunc`). The round-trip lemmas are stated for whole-pixel coordinates, where no truncation occurs.
- `Nms.Accepted` and `Decode` treat the candidates as the `real_count` selected anchors. The 4200-entry arrays and the 32-bit `int` indices are within range and not modelled further.
