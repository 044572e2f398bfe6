/** Planar channel-first (CHW) tensor packing shared by the detector, the
    landmark model and the embedding model
    (backend/src/services/face_detection_service.ts `normalizeCHW` and the
    inlined copy in backend/src/services/face_embedding_service.ts
    `preprocessAlignedImageToTensor`).

    An RGBA canvas of `width × height` pixels is laid out as three planes,
    R then G then B, each in row-major order, and every channel value `p`
    is normalised to `(p - 127.5) / 128`. The alpha channel is dropped.
 */
module ChwTensor {

  /** One channel of a `Uint8ClampedArray` pixel buffer. */
  type Byte = x: int | 0 <= x < 256

  /** Side of the square aligned face the embedding model consumes. */
  const AlignedSize: nat := 112

  /** InsightFace normalisation of one channel value. */
  function Normalize(p: Byte): (r: real)
    ensures -1.0 < r < 1.0
    ensures p < 128 <==> r < 0.0
  {
    (p as real - 127.5) / 128.0
  }

  /** Position of pixel (`y`, `x`) in a row-major plane `width` pixels wide. */
  function PixelIndex(width: nat, y: nat, x: nat): nat {
    y * width + x
  }

  lemma PixelIndexInPlane(width: nat, height: nat, y: nat, x: nat)
    requires y < height && x < width
    ensures PixelIndex(width, y, x) < width * height
  {
    assert (y + 1) * width <= height * width by {
      MulMonotone(y + 1, height, width);
    }
  }

  lemma MulMonotone(a: nat, b: nat, c: nat)
    requires a <= b
    ensures a * c <= b * c
  {
  }

  /** Pixel `p`'s three channels are stored at `p`, `wh + p` and `2wh + p`. */
  ghost predicate PackedPixel(chw: seq<real>, rgba: seq<Byte>, wh: nat, p: nat)
    requires p < wh && |chw| == 3 * wh && |rgba| == 4 * wh
  {
    && chw[p] == Normalize(rgba[4 * p])
    && chw[wh + p] == Normalize(rgba[4 * p + 1])
    && chw[2 * wh + p] == Normalize(rgba[4 * p + 2])
  }

  /** `normalizeCHW(rgba, width, height)`. The canvas's pixel buffer always
      holds exactly four bytes per pixel. */
  method NormalizeChw(rgba: seq<Byte>, width: nat, height: nat) returns (chw: seq<real>)
    requires |rgba| == 4 * (width * height)
    ensures |chw| == 3 * (width * height)
    ensures forall p: nat :: p < width * height ==> PackedPixel(chw, rgba, width * height, p)
    ensures forall y: nat, x: nat :: y < height && x < width ==>
              PixelIndex(width, y, x) < width * height &&
              PackedPixel(chw, rgba, width * height, PixelIndex(width, y, x))
  {
    var wh := width * height;
    // The single Float32Array of the source, held as its three planes.
    var red, green, blue := new real[wh], new real[wh], new real[wh];
    var idx := 0;
    var y := 0;
    while y < height
      invariant 0 <= y <= height
      invariant idx == y * width <= wh
      invariant forall q :: 0 <= q < idx ==> red[q] == Normalize(rgba[4 * q])
      invariant forall q :: 0 <= q < idx ==> green[q] == Normalize(rgba[4 * q + 1])
      invariant forall q :: 0 <= q < idx ==> blue[q] == Normalize(rgba[4 * q + 2])
    {
      MulMonotone(y + 1, height, width);
      var x := 0;
      while x < width
        invariant 0 <= x <= width
        invariant idx == y * width + x <= (y + 1) * width <= wh
        invariant forall q :: 0 <= q < idx ==> red[q] == Normalize(rgba[4 * q])
        invariant forall q :: 0 <= q < idx ==> green[q] == Normalize(rgba[4 * q + 1])
        invariant forall q :: 0 <= q < idx ==> blue[q] == Normalize(rgba[4 * q + 2])
      {
        red[idx] := Normalize(rgba[4 * idx]);
        green[idx] := Normalize(rgba[4 * idx + 1]);
        blue[idx] := Normalize(rgba[4 * idx + 2]);
        idx := idx + 1;
        x := x + 1;
      }
      y := y + 1;
    }
    chw := red[..] + green[..] + blue[..];
    forall y: nat, x: nat | y < height && x < width
      ensures PixelIndex(width, y, x) < wh
    {
      PixelIndexInPlane(width, height, y, x);
    }
  }
}
