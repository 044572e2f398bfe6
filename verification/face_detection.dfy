/** The detection pipeline of backend/src/services/face_detection_service.ts:
    letterboxing into the detector input, decoding, suppression, mapping the
    best box back to the original image, cropping, landmark decoding and the
    placement of the crop on the 112×112 aligned canvas.

    Inference, image decoding, drawing and JPEG encoding are foreign. One
    run of the models on one image is described by `ModelRun`: the image
    size, the detector's named outputs and the landmark model's output
    vector, as the models would produce them for that image.
 */
module FaceDetection {

  import opened Wrappers
  import opened RealArith
  import opened Text
  import opened Boxes
  import opened Nms
  import opened ScrfdDecode

  /** Default score threshold of `FaceDetectionService`. */
  const DefaultScoreThreshold: real := 0.5
  /** Default IoU threshold of `FaceDetectionService`. */
  const DefaultNmsThreshold: real := 0.4
  /** Number of points the 2d106det landmark model yields. */
  const LandmarkCount: nat := 106
  /** Side of the aligned face canvas. */
  const AlignedSide: real := 112.0

  /** `Math.floor` of a quotient by two. */
  function Half(d: int): (r: int)
    ensures r as real <= d as real / 2.0 < r as real + 1.0
  {
    (d as real / 2.0).Floor
  }

  /** Placement of the resized image on the detector canvas
      (`preprocessForScrfd`). */
  datatype Letterbox = Letterbox(newW: int, newH: int, dx: int, dy: int, scale: real, resizeRatio: real)

  /** Half of a non-negative difference is between 0 and the difference. */
  lemma HalfBounds(d: int)
    requires d >= 0
    ensures 0 <= Half(d) <= d
  {
  }

  /** Half of a difference leaves the other half equal or one larger. */
  lemma HalfSplits(d: int)
    ensures Half(d) <= d - Half(d) <= Half(d) + 1
  {
  }

  /** One side of the resized image, `Math.round(side * scale)`: it fits
      the target, and fills it when the scale is that side's own ratio. */
  lemma FitSide(side: nat, target: nat, r: real)
    requires side > 0 && target > 0 && 0.0 < r <= target as real / side as real
    ensures 0 <= Round(side as real * r) <= target
    ensures r == target as real / side as real ==> Round(side as real * r) == target
  {
    var s, t := side as real, target as real;
    MulLe(s, r, t / s);
    assert s * (t / s) == t;
    RoundBelow(s * r, target);
  }

  /** `Math.round(side * r)` for a scale within the side's ratio. */
  function FitRound(side: nat, target: nat, r: real): (n: int)
    requires side > 0 && target > 0 && 0.0 < r <= target as real / side as real
    ensures n == Round(side as real * r)
    ensures 0 <= n <= target
    ensures r == target as real / side as real ==> n == target
  {
    FitSide(side, target, r);
    Round(side as real * r)
  }

  lemma Reciprocal(r: real)
    requires r > 0.0
    ensures (1.0 / r) * r == 1.0
  {
  }

  /** `preprocessForScrfd`'s placement: one scale for both sides, the
      smaller of the two side ratios, so the aspect ratio is kept; the
      rounded image is centred, any odd pixel of padding going right or
      below. */
  function MakeLetterbox(iw: nat, ih: nat, targetW: nat, targetH: nat): (lb: Letterbox)
    requires iw > 0 && ih > 0 && targetW > 0 && targetH > 0
    ensures lb.scale == Min(targetW as real / iw as real, targetH as real / ih as real)
    ensures lb.newW == Round(iw as real * lb.scale) && lb.newH == Round(ih as real * lb.scale)
    ensures lb.dx == Half(targetW - lb.newW) && lb.dy == Half(targetH - lb.newH)
    ensures lb.dx <= targetW - lb.newW - lb.dx <= lb.dx + 1
    ensures lb.dy <= targetH - lb.newH - lb.dy <= lb.dy + 1
    ensures 0 <= lb.newW <= targetW && 0 <= lb.newH <= targetH
    ensures lb.newW == targetW || lb.newH == targetH
    ensures 0 <= lb.dx && lb.dx + lb.newW <= targetW
    ensures 0 <= lb.dy && lb.dy + lb.newH <= targetH
    ensures lb.scale > 0.0 && lb.resizeRatio * lb.scale == 1.0
  {
    var rw, rh := targetW as real / iw as real, targetH as real / ih as real;
    var r := Min(rw, rh);
    var newW, newH := FitRound(iw, targetW, r), FitRound(ih, targetH, r);
    HalfBounds(targetW - newW);
    HalfBounds(targetH - newH);
    HalfSplits(targetW - newW);
    HalfSplits(targetH - newH);
    Reciprocal(r);
    Letterbox(newW, newH, Half(targetW - newW), Half(targetH - newH), r, 1.0 / r)
  }

  /** Where a point of the original image lands on the detector canvas. */
  function ToCanvas(p: Point, lb: Letterbox): Point
  {
    Point(p.x * lb.scale + lb.dx as real, p.y * lb.scale + lb.dy as real)
  }

  /** The inverse map applied to the best box's corners. */
  function FromCanvas(p: Point, lb: Letterbox): Point
  {
    Point((p.x - lb.dx as real) * lb.resizeRatio, (p.y - lb.dy as real) * lb.resizeRatio)
  }

  /** Mapping back undoes the letterbox placement. */
  lemma FromCanvasToCanvas(p: Point, lb: Letterbox)
    requires lb.scale > 0.0 && lb.resizeRatio * lb.scale == 1.0
    ensures FromCanvas(ToCanvas(p, lb), lb) == p
  {
    assert (p.x * lb.scale) * lb.resizeRatio == p.x * (lb.scale * lb.resizeRatio);
    assert (p.y * lb.scale) * lb.resizeRatio == p.y * (lb.scale * lb.resizeRatio);
  }

  /** Step 5 of `detectMainFace`: the corners mapped back, clamped only on
      the side of the image edge each one faces. */
  function BackMap(best: Box, lb: Letterbox, iw: nat, ih: nat): (b: Box)
    ensures 0.0 <= b.x1 && 0.0 <= b.y1
    ensures b.x2 <= iw as real && b.y2 <= ih as real
    ensures b.score == best.score
    ensures var p1, p2 := FromCanvas(Point(best.x1, best.y1), lb), FromCanvas(Point(best.x2, best.y2), lb);
            && (0.0 <= p1.x ==> b.x1 == p1.x) && (0.0 <= p1.y ==> b.y1 == p1.y)
            && (p2.x <= iw as real ==> b.x2 == p2.x) && (p2.y <= ih as real ==> b.y2 == p2.y)
    ensures var p1, p2 := FromCanvas(Point(best.x1, best.y1), lb), FromCanvas(Point(best.x2, best.y2), lb);
            && (p1.x < 0.0 ==> b.x1 == 0.0) && (p1.y < 0.0 ==> b.y1 == 0.0)
            && (p2.x > iw as real ==> b.x2 == iw as real) && (p2.y > ih as real ==> b.y2 == ih as real)
  {
    var p1 := FromCanvas(Point(best.x1, best.y1), lb);
    var p2 := FromCanvas(Point(best.x2, best.y2), lb);
    Box(Max(0.0, p1.x), Max(0.0, p1.y), Min(iw as real, p2.x), Min(ih as real, p2.y), best.score)
  }

  /** A pixel rectangle of the detector canvas. */
  datatype Rect = Rect(x: int, y: int, w: int, h: int)

  /** `Math.max` on integers. */
  function IntMax(a: int, b: int): (r: int)
    ensures r >= a && r >= b && (r == a || r == b)
  {
    if a >= b then a else b
  }

  /** `Math.min` on integers. */
  function IntMin(a: int, b: int): (r: int)
    ensures r <= a && r <= b && (r == a || r == b)
  {
    if a <= b then a else b
  }

  /** `cropFaceCanvas`: the box floored, clamped to the canvas, at least one
      pixel wide and high. */
  function CropRect(box: Box, canvasW: nat, canvasH: nat): (c: Rect)
    ensures c.x == IntMax(0, box.x1.Floor) && c.y == IntMax(0, box.y1.Floor)
    ensures c.w == IntMax(1, IntMin(canvasW, box.x2.Floor) - c.x)
    ensures c.h == IntMax(1, IntMin(canvasH, box.y2.Floor) - c.y)
    ensures c.x >= 0 && c.y >= 0 && c.w >= 1 && c.h >= 1
    ensures c.x < canvasW && c.x < box.x2.Floor ==> c.x + c.w <= canvasW
    ensures c.y < canvasH && c.y < box.y2.Floor ==> c.y + c.h <= canvasH
    ensures 0.0 <= box.x1 && box.x1.Floor < box.x2.Floor <= canvasW ==>
              c.x == box.x1.Floor && c.x + c.w == box.x2.Floor
  {
    var x1, y1 := IntMax(0, box.x1.Floor), IntMax(0, box.y1.Floor);
    var x2, y2 := IntMin(canvasW, box.x2.Floor), IntMin(canvasH, box.y2.Floor);
    Rect(x1, y1, IntMax(1, x2 - x1), IntMax(1, y2 - y1))
  }

  /** The landmark decoding of `runLandmarks`: a 212-value output is read as
      106 x-coordinates followed by 106 y-coordinates, each scaled by the
      landmark input size; any other length is an error. The interleaved
      fallback tests the same length as the first branch, so it is never
      taken. */
  function DecodeLandmarks(output: seq<real>, inputW: nat, inputH: nat): (r: Result<seq<Point>>)
    ensures r.Ok? <==> |output| == 2 * LandmarkCount
    ensures r.Ok? ==> (|r.value| == LandmarkCount &&
              forall i :: 0 <= i < LandmarkCount ==>
                r.value[i] == Point(output[i] * inputW as real, output[LandmarkCount + i] * inputH as real))
    ensures r.Err? ==> r.error == "Formato de salida inesperado en 2d106det: length=" + IntToString(|output|)
  {
    if |output| == 212 then
      Ok(SplitLayout(output, inputW, inputH))
    else if |output| == 106 * 2 then
      assert false;
      Ok([])
    else
      Err("Formato de salida inesperado en 2d106det: length=" + IntToString(|output|))
  }

  /** Point `i` takes its x from `output[i]` and its y from `output[106 + i]`. */
  function SplitLayout(output: seq<real>, inputW: nat, inputH: nat): (points: seq<Point>)
    requires |output| == 2 * LandmarkCount
    ensures |points| == LandmarkCount
    ensures forall i :: 0 <= i < LandmarkCount ==>
              points[i] == Point(output[i] * inputW as real, output[LandmarkCount + i] * inputH as real)
  {
    seq(LandmarkCount, i requires 0 <= i < LandmarkCount =>
      Point(output[i] * inputW as real, output[LandmarkCount + i] * inputH as real))
  }

  /** Size and offset of the crop drawn on the aligned canvas (`alignFaceSimple`). */
  datatype Placement = Placement(newW: real, newH: real, dx: real, dy: real)

  /** Scaling both sides of a `w`×`h` crop by the smaller of the two ratios
      to the aligned side keeps them within it, positive, in proportion,
      and fills it along one side. */
  lemma AlignScale(w: nat, h: nat, scale: real)
    requires w >= 1 && h >= 1
    requires scale == Min(AlignedSide / w as real, AlignedSide / h as real)
    ensures w as real * scale <= AlignedSide && h as real * scale <= AlignedSide
    ensures 0.0 < w as real * scale && 0.0 < h as real * scale
    ensures Max(w as real * scale, h as real * scale) == AlignedSide
    ensures (w as real * scale) * h as real == (h as real * scale) * w as real
  {
    var sw, sh := AlignedSide / w as real, AlignedSide / h as real;
    MulLe(w as real, scale, sw);
    MulLe(h as real, scale, sh);
    MulLt(w as real, 0.0, scale);
    MulLt(h as real, 0.0, scale);
    assert w as real * sw == AlignedSide && h as real * sh == AlignedSide;
  }

  function AlignPlacement(w: nat, h: nat): (p: Placement)
    requires w >= 1 && h >= 1
    ensures 2.0 * p.dx + p.newW == AlignedSide && 2.0 * p.dy + p.newH == AlignedSide
    ensures Max(p.newW, p.newH) == AlignedSide
    ensures 0.0 < p.newW && 0.0 < p.newH && 0.0 <= p.dx && 0.0 <= p.dy
    ensures p.newW * h as real == p.newH * w as real
  {
    var scale := Min(AlignedSide / w as real, AlignedSide / h as real);
    AlignScale(w, h, scale);
    var newW, newH := w as real * scale, h as real * scale;
    Placement(newW, newH, (AlignedSide - newW) / 2.0, (AlignedSide - newH) / 2.0)
  }

  /** The foreign inputs of one detection: the image size and what the two
      models output for it. */
  datatype ModelRun = ModelRun(width: nat, height: nat, detector: Outputs, landmarks: seq<real>)

  /** Model input sizes (`scrfdInput*`, `landmarkInput*`). */
  datatype InputSizes = InputSizes(detectorW: nat, detectorH: nat, landmarkW: nat, landmarkH: nat)

  const DefaultSizes: InputSizes := InputSizes(640, 640, 192, 192)

  ghost predicate ValidRun(run: ModelRun, sizes: InputSizes) {
    && run.width > 0 && run.height > 0
    && sizes.detectorW >= 32 && sizes.detectorH > 0
    && WellShaped(run.detector)
  }

  /** A detected face: its box in original-image coordinates, its landmarks
      in crop coordinates, the crop of the detector canvas and its placement
      on the aligned canvas, which together determine the aligned image. */
  datatype Face = Face(box: Box, landmarks: seq<Point>, crop: Rect, placement: Placement)

  /** The candidate boxes of a run, in detector-canvas coordinates. */
  function RawBoxes(run: ModelRun, sizes: InputSizes, scoreThreshold: real, sigmoid: real -> real): seq<Box>
    requires ValidRun(run, sizes)
  {
    DecodeOutputs(run.detector, sizes.detectorW, sizes.detectorH, scoreThreshold, sigmoid)
  }

  /** `detectMainFace`: no face when no candidate reaches the score
      threshold; otherwise the highest-scoring candidate after suppression,
      mapped back into the image, or the landmark decoding's error. */
  function DetectMainFace(run: ModelRun, sizes: InputSizes, scoreThreshold: real, nmsThreshold: real,
                          sigmoid: real -> real): (r: Result<Option<Face>>)
    requires ValidRun(run, sizes)
    ensures r == Ok(None) <==> RawBoxes(run, sizes, scoreThreshold, sigmoid) == []
    ensures r.Err? <==> RawBoxes(run, sizes, scoreThreshold, sigmoid) != [] && |run.landmarks| != 2 * LandmarkCount
    ensures r.Ok? && r.value.Some? ==>
              var face, raw := r.value.value, RawBoxes(run, sizes, scoreThreshold, sigmoid);
              && face.box.score >= scoreThreshold
              && (forall b :: b in raw ==> b.score <= face.box.score)
              && (exists b :: b in raw && b.score == face.box.score)
              && 0.0 <= face.box.x1 && 0.0 <= face.box.y1
              && face.box.x2 <= run.width as real && face.box.y2 <= run.height as real
              && |face.landmarks| == LandmarkCount
    ensures r.Ok? && r.value.Some? ==>
              var face, raw := r.value.value, RawBoxes(run, sizes, scoreThreshold, sigmoid);
              var best := Suppress(raw, nmsThreshold)[0];
              && face.box == BackMap(best, MakeLetterbox(run.width, run.height, sizes.detectorW, sizes.detectorH),
                                     run.width, run.height)
              && face.crop == CropRect(best, sizes.detectorW, sizes.detectorH)
              && face.placement == AlignPlacement(face.crop.w, face.crop.h)
              && DecodeLandmarks(run.landmarks, sizes.landmarkW, sizes.landmarkH) == Ok(face.landmarks)
  {
    var lb := MakeLetterbox(run.width, run.height, sizes.detectorW, sizes.detectorH);
    var raw := RawBoxes(run, sizes, scoreThreshold, sigmoid);
    if raw == [] then Ok(None)
    else
      var kept := Suppress(raw, nmsThreshold);
      SuppressHead(raw, nmsThreshold);
      SuppressSelection(raw, nmsThreshold);
      var best := kept[0];
      var crop := CropRect(best, sizes.detectorW, sizes.detectorH);
      var landmarks :- DecodeLandmarks(run.landmarks, sizes.landmarkW, sizes.landmarkH);
      Ok(Some(Face(BackMap(best, lb, run.width, run.height), landmarks, crop, AlignPlacement(crop.w, crop.h))))
  }

  /** `detectAndAlignFace`: `detectMainFace` with the service's default
      thresholds and the detector's default input sizes. */
  function DetectAndAlignFace(run: ModelRun, sigmoid: real -> real): (r: Result<Option<Face>>)
    requires ValidRun(run, DefaultSizes)
    ensures r.Ok? && r.value.Some? ==> r.value.value.box.score >= DefaultScoreThreshold
    ensures r == Ok(None) <==> RawBoxes(run, DefaultSizes, DefaultScoreThreshold, sigmoid) == []
  {
    DetectMainFace(run, DefaultSizes, DefaultScoreThreshold, DefaultNmsThreshold, sigmoid)
  }
}
