/** Box overlap measures of mobile_retinaface.cc: `overlap`,
    `box_intersection`, `box_union` and `box_iou`, over reals. */
module Iou {
  import opened Types

  function Area(b: Box): real { b.w * b.h }

  predicate HasPositiveSize(b: Box) { b.w > 0.0 && b.h > 0.0 }

  function Max(u: real, v: real): real { if u > v then u else v }
  function Min(u: real, v: real): real { if u < v then u else v }

  /** `overlap`: length of the common part of two centred segments; negative
      when they are apart. Never longer than either segment. */
  function Overlap(x1: real, w1: real, x2: real, w2: real): (r: real)
    ensures r <= w1 && r <= w2
  {
    var left := Max(x1 - w1 / 2.0, x2 - w2 / 2.0);
    var right := Min(x1 + w1 / 2.0, x2 + w2 / 2.0);
    right - left
  }

  /** `box_intersection`: zero when the boxes are apart on either axis,
      otherwise the product of the two overlaps. */
  function BoxIntersection(a: Box, b: Box): (r: real)
    ensures r >= 0.0
    ensures Overlap(a.x, a.w, b.x, b.w) < 0.0 || Overlap(a.y, a.h, b.y, b.h) < 0.0 ==> r == 0.0
  {
    var w := Overlap(a.x, a.w, b.x, b.w);
    var h := Overlap(a.y, a.h, b.y, b.h);
    if w < 0.0 || h < 0.0 then 0.0 else w * h
  }

  /** `box_union`: sum of the areas minus the intersection. The shared part
      is counted once, so the union covers each box. */
  function BoxUnion(a: Box, b: Box): (r: real)
    ensures HasPositiveSize(a) && HasPositiveSize(b) ==> r >= Area(a) && r >= Area(b) && r > 0.0
  {
    IntersectionAtMostArea(a, b);
    IntersectionAtMostArea(b, a);
    IntersectionCommutes(a, b);
    MulPositive(a.w, a.h);
    Area(a) + Area(b) - BoxIntersection(a, b)
  }

  /** `box_iou`. The C code divides even when the union is zero, which yields
      NaN; here that case gives 0, which makes the same suppression decision
      (`NaN >= t` and `0 >= t` are both false for a positive threshold). For
      boxes of positive size the union is never zero (IouBounds). */
  function BoxIou(a: Box, b: Box): (r: real)
    ensures BoxUnion(a, b) == 0.0 ==> r == 0.0
    ensures BoxIntersection(a, b) == 0.0 ==> r == 0.0
  {
    var u := BoxUnion(a, b);
    if u == 0.0 then 0.0 else BoxIntersection(a, b) / u
  }

  lemma {:induction false} MulMonotone(p: real, q: real, p': real, q': real)
    requires 0.0 <= p <= p' && 0.0 <= q <= q'
    ensures p * q <= p' * q'
  {
    assert p * q <= p' * q;
    assert p' * q <= p' * q';
  }

  lemma IntersectionCommutes(a: Box, b: Box)
    ensures BoxIntersection(a, b) == BoxIntersection(b, a)
  {
    assert Overlap(a.x, a.w, b.x, b.w) == Overlap(b.x, b.w, a.x, a.w);
    assert Overlap(a.y, a.h, b.y, b.h) == Overlap(b.y, b.h, a.y, a.h);
  }

  /** The intersection, the union and the IoU do not depend on the order of
      the boxes. */
  lemma IntersectionSymmetric(a: Box, b: Box)
    ensures BoxIntersection(a, b) == BoxIntersection(b, a)
    ensures BoxUnion(a, b) == BoxUnion(b, a)
    ensures BoxIou(a, b) == BoxIou(b, a)
  {
    IntersectionCommutes(a, b);
  }

  /** Boxes that are apart horizontally or vertically do not intersect. */
  lemma IntersectionOfSeparated(a: Box, b: Box)
    requires a.x + a.w / 2.0 <= b.x - b.w / 2.0 || a.y + a.h / 2.0 <= b.y - b.h / 2.0
    ensures BoxIntersection(a, b) == 0.0 && BoxIou(a, b) == 0.0
  {
  }

  /** The intersection is no larger than the first box. */
  lemma IntersectionAtMostArea(a: Box, b: Box)
    ensures HasPositiveSize(a) ==> BoxIntersection(a, b) <= Area(a)
  {
    var w := Overlap(a.x, a.w, b.x, b.w);
    var h := Overlap(a.y, a.h, b.y, b.h);
    if HasPositiveSize(a) && !(w < 0.0 || h < 0.0) {
      assert BoxIntersection(a, b) == w * h;
      MulMonotone(w, h, a.w, a.h);
    }
  }

  /** For boxes of positive size the intersection is at most either area, so
      the union is positive and the IoU lies in [0, 1]. */
  lemma IouBounds(a: Box, b: Box)
    requires HasPositiveSize(a) && HasPositiveSize(b)
    ensures 0.0 <= BoxIntersection(a, b) <= Area(a)
    ensures BoxIntersection(a, b) <= Area(b)
    ensures BoxUnion(a, b) >= Area(a) && BoxUnion(a, b) >= Area(b) && BoxUnion(a, b) > 0.0
    ensures 0.0 <= BoxIou(a, b) <= 1.0
  {
    IntersectionAtMostArea(a, b);
    IntersectionAtMostArea(b, a);
    IntersectionSymmetric(a, b);
    MulPositive(a.w, a.h);
    MulPositive(b.w, b.h);
    RatioAtMostOne(BoxIntersection(a, b), BoxUnion(a, b));
  }

  lemma MulPositive(p: real, q: real)
    ensures p > 0.0 && q > 0.0 ==> p * q > 0.0
  {
    if p > 0.0 && q > 0.0 {
      MulMonotone(0.0, 0.0, p, q);
      assert p * q != 0.0;
    }
  }

  lemma RatioAtMostOne(i: real, u: real)
    requires 0.0 <= i <= u && u > 0.0
    ensures 0.0 <= i / u <= 1.0
  {
    var q := i / u;
    assert q * u == i;
    assert (1.0 - q) * u == u - i;
  }

  /** A box of positive size has IoU exactly 1 with itself. */
  lemma IouSelf(b: Box)
    requires HasPositiveSize(b)
    ensures BoxIou(b, b) == 1.0
  {
    assert Overlap(b.x, b.w, b.x, b.w) == b.w;
    assert Overlap(b.y, b.h, b.y, b.h) == b.h;
    assert BoxIntersection(b, b) == Area(b);
    assert BoxUnion(b, b) == Area(b);
    MulPositive(b.w, b.h);
    assert Area(b) / Area(b) == 1.0;
  }
}
