/** Embedding extraction (backend/src/services/face_embedding_service.ts):
    the aligned face packed into the ArcFace input tensor, and the L2
    normalisation of the model's output.

    `computeEmbeddingFromImage` runs face detection again on the buffer it
    is given. The model's output for the aligned image is an input of the
    model here (`ArcFaceOutput`).
 */
module FaceEmbedding {

  import opened Wrappers
  import opened RealArith
  import opened Vectors
  import opened ChwTensor
  import opened FaceDetection

  /** `preprocessAlignedImageToTensor` after drawing: the 112×112 RGBA pixels
      of the aligned face, packed as three normalised planes. */
  method PackAlignedTensor(rgba: seq<Byte>) returns (tensor: seq<real>)
    requires |rgba| == 4 * (AlignedSize * AlignedSize)
    ensures |tensor| == 3 * (AlignedSize * AlignedSize)
    ensures forall y: nat, x: nat :: y < AlignedSize && x < AlignedSize ==>
              PixelIndex(AlignedSize, y, x) < AlignedSize * AlignedSize &&
              PackedPixel(tensor, rgba, AlignedSize * AlignedSize, PixelIndex(AlignedSize, y, x))
  {
    tensor := NormalizeChw(rgba, AlignedSize, AlignedSize);
  }

  /** `Math.sqrt(norm) || 1`: the Euclidean norm, replaced by 1 when it is 0. */
  function EmbeddingNorm(v: seq<real>, sqrt: real -> real): (n: real)
    ensures n != 0.0
    ensures sqrt(SumSq(v)) != 0.0 ==> n == sqrt(SumSq(v))
    ensures sqrt(SumSq(v)) == 0.0 ==> n == 1.0
  {
    var norm := sqrt(SumSq(v));
    if norm == 0.0 then 1.0 else norm
  }

  /** Step 4 of `computeEmbeddingFromImage`: every component divided by the norm. */
  function L2Normalize(v: seq<real>, sqrt: real -> real): (r: seq<real>)
    ensures |r| == |v|
    ensures forall i :: 0 <= i < |v| ==> r[i] * EmbeddingNorm(v, sqrt) == v[i]
  {
    DivideAll(v, EmbeddingNorm(v, sqrt))
  }

  /** The all-zero vector is returned unchanged: its norm is taken as 1. */
  lemma {:induction false} L2NormalizeZero(v: seq<real>, sqrt: real -> real)
    requires IsSqrt(sqrt)
    requires forall i :: 0 <= i < |v| ==> v[i] == 0.0
    ensures L2Normalize(v, sqrt) == v
  {
    SumSqZero(v);
    SqrtZero(sqrt);
  }

  /** A non-zero vector comes out with unit sum of squares. */
  lemma {:induction false} L2NormalizeUnit(v: seq<real>, sqrt: real -> real)
    requires IsSqrt(sqrt)
    requires exists i :: 0 <= i < |v| && v[i] != 0.0
    ensures SumSq(L2Normalize(v, sqrt)) == 1.0
  {
    var s := SumSq(v);
    SumSqZero(v);
    SumSqNonNegative(v);
    SqrtPositive(sqrt, s);
    var n := sqrt(s);
    assert s != 0.0;
    assert EmbeddingNorm(v, sqrt) == n;
    SumSqDivideAll(v, n);
    assert n * n == s;
    DivCancel(1.0, s);
  }

  /** Normalising twice is normalising once. */
  lemma {:induction false} L2NormalizeIdempotent(v: seq<real>, sqrt: real -> real)
    requires IsSqrt(sqrt)
    ensures L2Normalize(L2Normalize(v, sqrt), sqrt) == L2Normalize(v, sqrt)
  {
    var r := L2Normalize(v, sqrt);
    if forall i :: 0 <= i < |v| ==> v[i] == 0.0 {
      L2NormalizeZero(v, sqrt);
      L2NormalizeZero(r, sqrt);
    } else {
      L2NormalizeUnit(v, sqrt);
      SqrtOne(sqrt);
      assert EmbeddingNorm(r, sqrt) == 1.0;
    }
  }

  /** What the ArcFace session returns: a `Float32Array` output, or an
      output that is missing or of another array type (`None`). */
  type ArcFaceOutput = Option<seq<real>>

  const NoFaceMessage: string := "No se detectó ningún rostro en la imagen"
  const BadOutputMessage: string := "Salida del modelo ArcFace no es Float32Array"

  /** `computeEmbeddingFromImage(imageBuffer)`: detection on the given
      image, then the normalised ArcFace output. */
  function ComputeEmbeddingFromImage(run: ModelRun, arcface: ArcFaceOutput,
                                     sigmoid: real -> real, sqrt: real -> real): (r: Result<seq<real>>)
    requires ValidRun(run, DefaultSizes)
    ensures var d := DetectAndAlignFace(run, sigmoid);
            && (d.Err? ==> r == Err(d.error))
            && (d == Ok(None) ==> r == Err(NoFaceMessage))
            && (d.Ok? && d.value.Some? && arcface.None? ==> r == Err(BadOutputMessage))
            && (r.Ok? <==> d.Ok? && d.value.Some? && arcface.Some?)
    ensures r.Ok? ==> arcface.Some? && r.value == L2Normalize(arcface.value, sqrt)
  {
    var detection := DetectAndAlignFace(run, sigmoid);
    match detection
    case Err(e) => Err(e)
    case Ok(None) => Err(NoFaceMessage)
    case Ok(Some(_)) =>
      match arcface
      case None => Err(BadOutputMessage)
      case Some(output) => Ok(L2Normalize(output, sqrt))
  }
}
