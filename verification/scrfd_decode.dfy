/** Decoding of the SCRFD detector's raw outputs into candidate boxes
    (backend/src/services/face_detection_service.ts `decodeScrfdOutputs`).

    For each stride 8, 16 and 32 the detector yields a score tensor and a
    distance tensor, found by output name. The input is divided into a grid
    of `stride`-pixel cells, each cell holding two anchors (anchor `i` lies
    in cell `i / 2`). An anchor whose sigmoid score reaches the threshold
    becomes a box around its cell centre, the four distances (left, top,
    right, bottom) being scaled by the stride.

    `Math.exp` is foreign: the logistic function is the parameter `sigmoid`.
 */
module ScrfdDecode {

  import opened Boxes

  /** Raw model outputs by output name (`Record<string, ort.Tensor>`). */
  type Outputs = map<string, seq<real>>

  /** The three feature-map strides, in decoding order. */
  const Strides: seq<nat> := [8, 16, 32]

  /** Output name of the score tensor of a stride. */
  function ClsName(stride: nat): string {
    if stride == 8 then "448" else if stride == 16 then "471" else "494"
  }

  /** Output name of the distance tensor of a stride. */
  function BboxName(stride: nat): string {
    if stride == 8 then "451" else if stride == 16 then "474" else "497"
  }

  lemma OutputNamesDistinct()
    ensures forall s, t :: s in Strides && t in Strides && s != t ==>
              ClsName(s) != ClsName(t) && BboxName(s) != BboxName(t)
    ensures forall s, t :: s in Strides && t in Strides ==> ClsName(s) != BboxName(t)
  {
  }

  /** Every stride whose two tensors are present carries four distances per
      anchor score: the shape of the detector's outputs. */
  ghost predicate WellShaped(outputs: Outputs) {
    forall stride :: stride in Strides && ClsName(stride) in outputs && BboxName(stride) in outputs ==>
      |outputs[BboxName(stride)]| >= 4 * |outputs[ClsName(stride)]|
  }

  /** Centre of anchor `i` on a grid `gridW` cells wide. */
  function AnchorCentre(i: nat, stride: nat, gridW: nat): (c: Point)
    requires gridW > 0
  {
    var cell := i / 2;
    var row := cell / gridW;
    var col := cell % gridW;
    Point((col * stride) as real + stride as real / 2.0, (row * stride) as real + stride as real / 2.0)
  }

  /** The box of anchor `i`: its centre pushed out by the scaled distances. */
  function AnchorBox(cls: seq<real>, bbox: seq<real>, i: nat, stride: nat, gridW: nat,
                     sigmoid: real -> real): (b: Box)
    requires gridW > 0 && i < |cls| && 4 * i + 3 < |bbox|
  {
    var c := AnchorCentre(i, stride, gridW);
    var s := stride as real;
    Box(c.x - bbox[4 * i] * s, c.y - bbox[4 * i + 1] * s,
        c.x + bbox[4 * i + 2] * s, c.y + bbox[4 * i + 3] * s,
        sigmoid(cls[i]))
  }

  /** The anchors among the first `n` whose score reaches the threshold,
      in index order. */
  function DecodeAnchors(cls: seq<real>, bbox: seq<real>, n: nat, stride: nat, gridW: nat,
                         threshold: real, sigmoid: real -> real): (r: seq<Box>)
    requires gridW > 0 && n <= |cls| && |bbox| >= 4 * |cls|
    ensures |r| <= n
    ensures forall b :: b in r ==> b.score >= threshold
    ensures forall b :: b in r <==>
              exists i :: 0 <= i < n && sigmoid(cls[i]) >= threshold &&
                          b == AnchorBox(cls, bbox, i, stride, gridW, sigmoid)
    decreases n
  {
    if n == 0 then []
    else
      var prefix := DecodeAnchors(cls, bbox, n - 1, stride, gridW, threshold, sigmoid);
      var i := n - 1;
      if sigmoid(cls[i]) < threshold then prefix
      else prefix + [AnchorBox(cls, bbox, i, stride, gridW, sigmoid)]
  }

  /** The boxes one stride contributes: none when a tensor is missing. */
  function DecodeStride(outputs: Outputs, stride: nat, inputW: nat, inputH: nat,
                        threshold: real, sigmoid: real -> real): (r: seq<Box>)
    requires WellShaped(outputs) && stride in Strides && inputW >= 32
    ensures ClsName(stride) !in outputs || BboxName(stride) !in outputs ==> r == []
    ensures forall b :: b in r ==> b.score >= threshold
  {
    if ClsName(stride) !in outputs || BboxName(stride) !in outputs then []
    else
      var cls := outputs[ClsName(stride)];
      var bbox := outputs[BboxName(stride)];
      DecodeAnchors(cls, bbox, |cls|, stride, inputW / stride, threshold, sigmoid)
  }

  /** `decodeScrfdOutputs(outputs, inputW, inputH, scoreThreshold)`. */
  function DecodeOutputs(outputs: Outputs, inputW: nat, inputH: nat, threshold: real,
                         sigmoid: real -> real): (r: seq<Box>)
    requires WellShaped(outputs) && inputW >= 32
    ensures forall b :: b in r ==> b.score >= threshold
    ensures (forall s :: s in Strides ==> ClsName(s) !in outputs) ==> r == []
    ensures forall b :: b in r <==>
              exists stride :: stride in Strides && ClsName(stride) in outputs && BboxName(stride) in outputs &&
                var cls := outputs[ClsName(stride)];
                exists i :: 0 <= i < |cls| && sigmoid(cls[i]) >= threshold &&
                  b == AnchorBox(cls, outputs[BboxName(stride)], i, stride, inputW / stride, sigmoid)
  {
    DecodeStride(outputs, 8, inputW, inputH, threshold, sigmoid)
      + DecodeStride(outputs, 16, inputW, inputH, threshold, sigmoid)
      + DecodeStride(outputs, 32, inputW, inputH, threshold, sigmoid)
  }

  /** The grid position of an anchor: column `cell % gridW`, row
      `cell / gridW`, centred in its cell, and inside the input's width;
      inside its height too when the cell is on the grid. */
  lemma AnchorCentreInCell(i: nat, stride: nat, inputW: nat, inputH: nat)
    requires 0 < stride <= inputW && stride <= inputH
    ensures var gridW, cell := inputW / stride, i / 2;
            var c := AnchorCentre(i, stride, gridW);
            && c.x - stride as real / 2.0 == ((cell % gridW) * stride) as real
            && c.y - stride as real / 2.0 == ((cell / gridW) * stride) as real
            && 0.0 < c.x < inputW as real
            && (cell < gridW * (inputH / stride) ==> 0.0 < c.y < inputH as real)
  {
    var gridW, gridH, cell := inputW / stride, inputH / stride, i / 2;
    CellCentreInside(cell % gridW, gridW, stride, inputW);
    if cell < gridW * gridH {
      RowOnGrid(cell, gridW, gridH);
      CellCentreInside(cell / gridW, gridH, stride, inputH);
    }
  }

  /** The centre of grid cell `k` of `n = input / stride` lies strictly inside the input. */
  lemma CellCentreInside(k: nat, n: nat, stride: nat, input: nat)
    requires 0 < stride && n == input / stride && k < n
    ensures 0.0 < (k * stride) as real + stride as real / 2.0 < input as real
  {
    MulMono(k + 1, n, stride);
    assert n * stride <= input;
    assert (k + 1) * stride == k * stride + stride;
  }

  lemma RowOnGrid(cell: nat, gridW: nat, gridH: nat)
    requires 0 < gridW && cell < gridW * gridH
    ensures cell / gridW < gridH
  {
    var row := cell / gridW;
    assert row * gridW <= cell;
    if row >= gridH {
      MulMono(gridH, row, gridW);
    }
  }

  lemma MulMono(a: nat, b: nat, c: nat)
    requires a <= b
    ensures a * c <= b * c
  {
  }

  /** The two anchors of a cell share their centre. */
  lemma AnchorPairShareCentre(cell: nat, stride: nat, gridW: nat)
    requires gridW > 0
    ensures AnchorCentre(2 * cell, stride, gridW) == AnchorCentre(2 * cell + 1, stride, gridW)
  {
  }

  /** A box with non-negative distances encloses its anchor centre. */
  lemma {:induction false} AnchorBoxEnclosesCentre(cls: seq<real>, bbox: seq<real>, i: nat, stride: nat, gridW: nat,
                                sigmoid: real -> real)
    requires gridW > 0 && i < |cls| && 4 * i + 3 < |bbox|
    requires forall k :: 4 * i <= k < 4 * i + 4 ==> bbox[k] >= 0.0
    ensures var b, c := AnchorBox(cls, bbox, i, stride, gridW, sigmoid), AnchorCentre(i, stride, gridW);
            b.x1 <= c.x <= b.x2 && b.y1 <= c.y <= b.y2
  {
    var s := stride as real;
    assert bbox[4 * i] >= 0.0 && bbox[4 * i + 1] >= 0.0;
    assert bbox[4 * i + 2] >= 0.0 && bbox[4 * i + 3] >= 0.0;
    assert bbox[4 * i] * s >= 0.0 && bbox[4 * i + 1] * s >= 0.0;
    assert bbox[4 * i + 2] * s >= 0.0 && bbox[4 * i + 3] * s >= 0.0;
  }
}
