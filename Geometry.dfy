/** Boxes in normalised image coordinates and the overlap measure used to
    deduplicate detections (android.graphics.RectF and calculateIOU). */
module Geometry {

  function Max(a: real, b: real): real { if a >= b then a else b }

  function Min(a: real, b: real): real { if a <= b then a else b }

  /** An axis-aligned box given by its corners, as android.graphics.RectF. */
  datatype RectF = RectF(left: real, top: real, right: real, bottom: real)
  {
    function Width(): real { right - left }

    function Height(): real { bottom - top }

    function Area(): real { Width() * Height() }

    /** Corners in order: the box has a non-negative extent. */
    predicate WellFormed() { left <= right && top <= bottom }

    /** Inside the unit square, with positive extent in both directions. */
    predicate InUnitSquare() { 0.0 <= left < right <= 1.0 && 0.0 <= top < bottom <= 1.0 }
  }

  /** Turns a (centre, size) box into corners, clamped to the unit square. */
  function ConvertToCornerFormat(centerX: real, centerY: real, width: real, height: real): (r: RectF)
    ensures 0.0 <= r.left && 0.0 <= r.top && r.right <= 1.0 && r.bottom <= 1.0
    ensures r.Width() <= width && r.Height() <= height
    ensures 0.0 <= centerX <= 1.0 && 0.0 <= width ==> r.left <= centerX <= r.right
    ensures 0.0 <= centerY <= 1.0 && 0.0 <= height ==> r.top <= centerY <= r.bottom
    ensures 0.0 <= centerX <= 1.0 && 0.0 <= centerY <= 1.0 && 0.0 < width && 0.0 < height ==> r.InUnitSquare()
  {
    RectF(Max(0.0, centerX - width / 2.0), Max(0.0, centerY - height / 2.0),
          Min(1.0, centerX + width / 2.0), Min(1.0, centerY + height / 2.0))
  }

  /** The overlap of two boxes; empty boxes overlap with extent 0. */
  function IntersectionArea(box1: RectF, box2: RectF): real
  {
    var interLeft := Max(box1.left, box2.left);
    var interTop := Max(box1.top, box2.top);
    var interRight := Min(box1.right, box2.right);
    var interBottom := Min(box1.bottom, box2.bottom);
    Max(0.0, interRight - interLeft) * Max(0.0, interBottom - interTop)
  }

  /** Intersection over union; 0 when the union area is not positive. */
  function CalculateIou(box1: RectF, box2: RectF): real
  {
    var interArea := IntersectionArea(box1, box2);
    var unionArea := box1.Area() + box2.Area() - interArea;
    if unionArea > 0.0 then interArea / unionArea else 0.0
  }

  lemma MulMonotone(a: real, b: real, c: real, d: real)
    requires 0.0 <= a <= b && 0.0 <= c <= d
    ensures a * c <= b * d
  {
    assert a * c <= b * c;
    assert b * c <= b * d;
  }

  /** The overlap of two well-formed boxes is no larger than either box. */
  lemma IntersectionBounds(box1: RectF, box2: RectF)
    requires box1.WellFormed() && box2.WellFormed()
    ensures 0.0 <= IntersectionArea(box1, box2)
    ensures IntersectionArea(box1, box2) <= box1.Area()
    ensures IntersectionArea(box1, box2) <= box2.Area()
  {
    var w := Max(0.0, Min(box1.right, box2.right) - Max(box1.left, box2.left));
    var h := Max(0.0, Min(box1.bottom, box2.bottom) - Max(box1.top, box2.top));
    MulMonotone(0.0, w, 0.0, h);
    MulMonotone(w, box1.Width(), h, box1.Height());
    MulMonotone(w, box2.Width(), h, box2.Height());
  }

  /** calculateIOU does not depend on the order of its arguments. */
  lemma IouSymmetric(box1: RectF, box2: RectF)
    ensures CalculateIou(box1, box2) == CalculateIou(box2, box1)
  {
  }

  /** For well-formed boxes the IoU is a ratio in [0, 1], and it is 0 when the union is not positive. */
  lemma IouInUnitInterval(box1: RectF, box2: RectF)
    requires box1.WellFormed() && box2.WellFormed()
    ensures 0.0 <= CalculateIou(box1, box2) <= 1.0
    ensures box1.Area() + box2.Area() - IntersectionArea(box1, box2) <= 0.0 ==> CalculateIou(box1, box2) == 0.0
  {
    IntersectionBounds(box1, box2);
    var inter := IntersectionArea(box1, box2);
    var union := box1.Area() + box2.Area() - inter;
    if union > 0.0 {
      assert inter <= union;
      assert (inter / union) * union == inter;
    }
  }

  /** Boxes that lie apart have an empty intersection. */
  lemma SeparatedNoOverlap(box1: RectF, box2: RectF)
    requires box1.right <= box2.left || box2.right <= box1.left || box1.bottom <= box2.top || box2.bottom <= box1.top
    ensures IntersectionArea(box1, box2) == 0.0
  {
    var w := Max(0.0, Min(box1.right, box2.right) - Max(box1.left, box2.left));
    var h := Max(0.0, Min(box1.bottom, box2.bottom) - Max(box1.top, box2.top));
    if box1.right <= box2.left || box2.right <= box1.left {
      assert w == 0.0;
    } else {
      assert h == 0.0;
    }
  }

  /** Boxes that lie apart, side by side or one above the other, have IoU 0. */
  lemma IouOfSeparated(box1: RectF, box2: RectF)
    requires box1.right <= box2.left || box2.right <= box1.left || box1.bottom <= box2.top || box2.bottom <= box1.top
    ensures CalculateIou(box1, box2) == 0.0
  {
    SeparatedNoOverlap(box1, box2);
    var interArea := IntersectionArea(box1, box2);
    var unionArea := box1.Area() + box2.Area() - interArea;
    if unionArea > 0.0 {
      assert interArea / unionArea == 0.0;
    }
  }

  /** A box with positive area coincides with itself: its IoU is 1. */
  lemma IouOfSelf(box: RectF)
    requires box.Width() > 0.0 && box.Height() > 0.0
    ensures CalculateIou(box, box) == 1.0
  {
    assert IntersectionArea(box, box) == box.Area();
    assert box.Area() > 0.0 by {
      assert box.Width() * box.Height() > 0.0 * box.Height();
    }
    var a := box.Area();
    assert a + a - a == a;
    assert a / a == 1.0;
  }
}
