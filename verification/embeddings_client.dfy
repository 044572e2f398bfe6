/** The browser-side matcher (frontend/src/services/embeddings.ts): the
    same first-best scan and threshold gate as the backend, over the
    active employees' embeddings the API returns, and a Euclidean distance.
 */
module EmbeddingsClient {

  import opened Wrappers
  import opened Vectors
  import opened Recognition

  /** Default `threshold` of `findMatch`. */
  const ClientDefaultThreshold: real := 0.6

  /** `findMatch(capturedVector, threshold?)` over the list `getAllActive`
      returned; an omitted threshold is 0.6. */
  function FindMatch(captured: seq<real>, corpus: seq<Candidate>, threshold: Option<real>,
                     sqrt: real -> real): (r: Option<Match>)
    ensures |corpus| == 0 ==> r.None?
    ensures r.Some? ==> r.value.confidence >= threshold.GetOr(ClientDefaultThreshold) && r.value.confidence > 0.0
    ensures r.Some? ==> exists i: nat :: (FirstBest(captured, corpus, |corpus|, i, sqrt) &&
              r.value == Match(corpus[i].owner, Similarity(captured, corpus, i, sqrt)))
  {
    BestMatch(captured, corpus, threshold.GetOr(ClientDefaultThreshold), sqrt)
  }

  /** The client finds a match exactly when some embedding is positively
      similar and reaches the threshold, as the backend does. */
  lemma {:induction false} FindMatchExists(captured: seq<real>, corpus: seq<Candidate>, threshold: Option<real>, sqrt: real -> real)
    ensures FindMatch(captured, corpus, threshold, sqrt).Some? <==>
            exists i :: 0 <= i < |corpus| && Similarity(captured, corpus, i, sqrt) > 0.0 &&
                        Similarity(captured, corpus, i, sqrt) >= threshold.GetOr(ClientDefaultThreshold)
  {
    BestMatchExists(captured, corpus, threshold.GetOr(ClientDefaultThreshold), sqrt);
  }

  /** A number or JavaScript's `Infinity`. */
  datatype Distance = Finite(value: real) | Infinity

  /** `euclideanDistance(vecA, vecB)`. */
  function EuclideanDistance(a: seq<real>, b: seq<real>, sqrt: real -> real): (d: Distance)
    ensures d.Infinity? <==> |a| != |b|
    ensures IsSqrt(sqrt) && d.Finite? ==> d.value >= 0.0 && d.value * d.value == SumSq(Diff(a, b))
  {
    if |a| != |b| then Infinity
    else
      SumSqNonNegative(Diff(a, b));
      Finite(sqrt(SumSq(Diff(a, b))))
  }

  lemma {:induction false} EuclideanSymmetric(a: seq<real>, b: seq<real>, sqrt: real -> real)
    ensures EuclideanDistance(a, b, sqrt) == EuclideanDistance(b, a, sqrt)
  {
    if |a| == |b| {
      SumSqDiffSymmetric(a, b);
    }
  }

  /** A vector is at distance 0 from itself, and only from itself. */
  lemma {:induction false} EuclideanZero(a: seq<real>, b: seq<real>, sqrt: real -> real)
    requires IsSqrt(sqrt) && |a| == |b|
    ensures EuclideanDistance(a, b, sqrt) == Finite(0.0) <==> a == b
  {
    SumSqZero(Diff(a, b));
    if EuclideanDistance(a, b, sqrt) == Finite(0.0) {
      forall i | 0 <= i < |a|
        ensures a[i] == b[i]
      {
        assert Diff(a, b)[i] == 0.0;
      }
    }
    if a == b {
      DiffSelfZero(a);
      SqrtZero(sqrt);
    }
  }
}
