/** Axis-aligned detection boxes and their intersection-over-union
    (backend/src/services/face_detection_service.ts `DetectedFace`, `iou`).
 */
module Boxes {

  import opened RealArith

  /** A point in image coordinates (`{ x, y }` in the source). */
  datatype Point = Point(x: real, y: real)

  /** A detected face: corners (`x1`, `y1`)–(`x2`, `y2`) and a confidence. */
  datatype Box = Box(x1: real, y1: real, x2: real, y2: real, score: real)

  function Max(a: real, b: real): (r: real)
    ensures r >= a && r >= b && (r == a || r == b)
  {
    if a >= b then a else b
  }

  function Min(a: real, b: real): (r: real)
    ensures r <= a && r <= b && (r == a || r == b)
  {
    if a <= b then a else b
  }

  /** Width and height of a box, clamped at zero for inverted corners. */
  function Width(b: Box): real { Max(0.0, b.x2 - b.x1) }
  function Height(b: Box): real { Max(0.0, b.y2 - b.y1) }

  function Area(b: Box): (r: real)
    ensures r >= 0.0
  {
    MulLe(Width(b), 0.0, Height(b));
    Width(b) * Height(b)
  }

  /** Width and height of the intersection rectangle, clamped at zero. */
  function OverlapWidth(a: Box, b: Box): real {
    Max(0.0, Min(a.x2, b.x2) - Max(a.x1, b.x1))
  }

  function OverlapHeight(a: Box, b: Box): real {
    Max(0.0, Min(a.y2, b.y2) - Max(a.y1, b.y1))
  }

  function Intersection(a: Box, b: Box): real {
    OverlapWidth(a, b) * OverlapHeight(a, b)
  }

  function Union(a: Box, b: Box): real {
    Area(a) + Area(b) - Intersection(a, b)
  }

  /** The boxes' interiors share no point. */
  predicate Disjoint(a: Box, b: Box) {
    Min(a.x2, b.x2) <= Max(a.x1, b.x1) || Min(a.y2, b.y2) <= Max(a.y1, b.y1)
  }

  /** `iou(a, b)`: 0 when the union is not positive, else intersection / union. */
  function Iou(a: Box, b: Box): (r: real)
    ensures 0.0 <= r <= 1.0
    ensures Union(a, b) <= 0.0 ==> r == 0.0
    ensures Disjoint(a, b) ==> r == 0.0
    ensures Union(a, b) > 0.0 ==> r * Union(a, b) == Intersection(a, b)
  {
    IntersectionBounds(a, b);
    var union := Union(a, b);
    if union <= 0.0 then 0.0
    else
      DivUnit(Intersection(a, b), union);
      Intersection(a, b) / union
  }

  /** The intersection is non-negative and no larger than either area. */
  lemma IntersectionBounds(a: Box, b: Box)
    ensures 0.0 <= Intersection(a, b) <= Area(a)
    ensures Intersection(a, b) <= Area(b)
    ensures Intersection(a, b) <= Union(a, b)
    ensures Disjoint(a, b) ==> Intersection(a, b) == 0.0
  {
    var ow, oh := OverlapWidth(a, b), OverlapHeight(a, b);
    MulLe(ow, 0.0, oh);
    ProductBelow(ow, oh, Width(a), Height(a));
    ProductBelow(ow, oh, Width(b), Height(b));
  }

  lemma ProductBelow(w: real, h: real, wa: real, ha: real)
    requires 0.0 <= w <= wa && 0.0 <= h <= ha
    ensures w * h <= wa * ha
  {
    MulLe(w, h, ha);
    MulLe(ha, w, wa);
    assert w * ha == ha * w;
    assert ha * wa == wa * ha;
  }

  lemma IouSymmetric(a: Box, b: Box)
    ensures Iou(a, b) == Iou(b, a)
  {
    assert OverlapWidth(a, b) == OverlapWidth(b, a);
    assert OverlapHeight(a, b) == OverlapHeight(b, a);
    assert Intersection(a, b) == Intersection(b, a);
    assert Union(a, b) == Union(b, a);
  }

  /** A box with positive area overlaps itself completely. */
  lemma IouSelf(a: Box)
    requires Area(a) > 0.0
    ensures Iou(a, a) == 1.0
  {
    assert OverlapWidth(a, a) == Width(a);
    assert OverlapHeight(a, a) == Height(a);
  }
}
