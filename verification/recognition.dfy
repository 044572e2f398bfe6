/** Matching a captured embedding against stored ones
    (backend/src/services/recognition_service.ts `findBestMatch` and
    `cosineSimilarity`; the frontend's frontend/src/services/embeddings.ts
    `findMatch` runs the same scan).

    The scan keeps the first candidate whose similarity strictly exceeds
    the best so far, starting from 0, and the winner is returned only when
    its similarity reaches the threshold.
 */
module Recognition {

  import opened Wrappers
  import opened RealArith
  import opened Vectors

  /** `cosineSimilarity(vecA, vecB)`: 0 for vectors of different or zero
      length and for a zero-norm operand. */
  function CosineSimilarity(a: seq<real>, b: seq<real>, sqrt: real -> real): (r: real)
    ensures |a| != |b| || |a| == 0 ==> r == 0.0
    ensures |a| == |b| && 0 < |a| && sqrt(SumSq(a)) != 0.0 && sqrt(SumSq(b)) != 0.0 ==>
              r * (sqrt(SumSq(a)) * sqrt(SumSq(b))) == Dot(a, b)
  {
    if |a| != |b| || |a| == 0 then 0.0
    else
      var normA, normB := sqrt(SumSq(a)), sqrt(SumSq(b));
      if normA == 0.0 || normB == 0.0 then 0.0
      else
        assert normA * normB != 0.0 by {
          if normA * normB == 0.0 { ProdZero(normA, normB); }
        }
        Dot(a, b) / (normA * normB)
  }

  /** A zero vector is similar to nothing. */
  lemma {:induction false} CosineZeroVector(a: seq<real>, b: seq<real>, sqrt: real -> real)
    requires IsSqrt(sqrt)
    requires forall i :: 0 <= i < |a| ==> a[i] == 0.0
    ensures CosineSimilarity(a, b, sqrt) == 0.0
    ensures CosineSimilarity(b, a, sqrt) == 0.0
  {
    SumSqZero(a);
    SqrtZero(sqrt);
  }

  lemma {:induction false} CosineSymmetric(a: seq<real>, b: seq<real>, sqrt: real -> real)
    ensures CosineSimilarity(a, b, sqrt) == CosineSimilarity(b, a, sqrt)
  {
    if |a| == |b| {
      DotSymmetric(a, b);
      var na, nb := sqrt(SumSq(a)), sqrt(SumSq(b));
      assert na * nb == nb * na;
    }
  }

  /** A non-zero vector is perfectly similar to itself. */
  lemma {:induction false} CosineSelf(a: seq<real>, sqrt: real -> real)
    requires IsSqrt(sqrt)
    requires exists i :: 0 <= i < |a| && a[i] != 0.0
    ensures CosineSimilarity(a, a, sqrt) == 1.0
  {
    var s := SumSq(a);
    SumSqZero(a);
    SumSqNonNegative(a);
    SqrtPositive(sqrt, s);
    DotSelf(a);
    var n := sqrt(s);
    var m := n * n;
    assert m == s;
    assert s / m == 1.0;
  }

  /** The similarity of non-zero vectors lies in [-1, 1] (Cauchy–Schwarz). */
  lemma {:induction false} CosineBounded(a: seq<real>, b: seq<real>, sqrt: real -> real)
    requires IsSqrt(sqrt)
    ensures -1.0 <= CosineSimilarity(a, b, sqrt) <= 1.0
  {
    if |a| == |b| && |a| > 0 {
      var sa, sb := SumSq(a), SumSq(b);
      SumSqNonNegative(a);
      SumSqNonNegative(b);
      var na, nb := sqrt(sa), sqrt(sb);
      if na != 0.0 && nb != 0.0 {
        var d := Dot(a, b);
        var p := na * nb;
        CauchySchwarz(a, b);
        assert p * p == sa * sb by {
          assert p * p == (na * na) * (nb * nb);
        }
        assert p > 0.0 by {
          MulLt(na, 0.0, nb);
        }
        SquareBound(d, p);
        assert -p <= d <= p;
        QuotientUnit(d, p);
        assert CosineSimilarity(a, b, sqrt) == d / p;
      }
    }
  }

  /** `d² ≤ p²` with `p > 0` confines `d` to [-p, p]. */
  lemma SquareBound(d: real, p: real)
    requires p > 0.0 && d * d <= p * p
    ensures -p <= d <= p
  {
    if d > p {
      AboveSquare(d, p);
    } else if d < -p {
      assert (-d) * (-d) == d * d;
      AboveSquare(-d, p);
    }
  }

  lemma AboveSquare(e: real, p: real)
    requires 0.0 < p < e
    ensures p * p < e * e
  {
    MulLt(p, p, e);
    MulLt(e, p, e);
    assert p * e == e * p;
  }

  lemma QuotientUnit(d: real, p: real)
    requires p > 0.0 && -p <= d <= p
    ensures -1.0 <= d / p <= 1.0
  {
  }

  /** The employee an embedding belongs to (`usuario` / `empleado`). */
  datatype Owner = Owner(id: string, name: string, area: Option<string>)

  /** A stored embedding and its owner. */
  datatype Candidate = Candidate(owner: Owner, vector: seq<real>)

  /** A match: the owner and the similarity, reported as confidence. */
  datatype Match = Match(owner: Owner, confidence: real)

  /** The similarity of the captured vector to candidate `i`. */
  function Similarity(captured: seq<real>, corpus: seq<Candidate>, i: nat, sqrt: real -> real): real
    requires i < |corpus|
  {
    CosineSimilarity(captured, corpus[i].vector, sqrt)
  }

  /** Candidate `i` is the first one reaching the highest similarity of the
      first `n`, and that similarity is positive. */
  ghost predicate FirstBest(captured: seq<real>, corpus: seq<Candidate>, n: nat, i: nat, sqrt: real -> real)
    requires n <= |corpus|
  {
    && i < n
    && Similarity(captured, corpus, i, sqrt) > 0.0
    && (forall j :: 0 <= j < n ==> Similarity(captured, corpus, j, sqrt) <= Similarity(captured, corpus, i, sqrt))
    && (forall j :: 0 <= j < i ==> Similarity(captured, corpus, j, sqrt) < Similarity(captured, corpus, i, sqrt))
  }

  /** The state of the `for` loop after the first `n` candidates: the best
      match so far, or none while no similarity has exceeded 0. */
  function Scan(captured: seq<real>, corpus: seq<Candidate>, n: nat, sqrt: real -> real): (best: Option<Match>)
    requires n <= |corpus|
    ensures best.None? <==> forall j :: 0 <= j < n ==> Similarity(captured, corpus, j, sqrt) <= 0.0
    ensures best.Some? ==> exists i: nat :: (FirstBest(captured, corpus, n, i, sqrt) &&
              best.value == Match(corpus[i].owner, Similarity(captured, corpus, i, sqrt)))
    decreases n
  {
    if n == 0 then None
    else
      var prev := Scan(captured, corpus, n - 1, sqrt);
      var highest := if prev.Some? then prev.value.confidence else 0.0;
      var s := Similarity(captured, corpus, n - 1, sqrt);
      PrevBound(captured, corpus, n - 1, prev, sqrt);
      if s > highest then
        NewBest(captured, corpus, n, highest, sqrt);
        Some(Match(corpus[n - 1].owner, s))
      else
        KeepBest(captured, corpus, n, prev, sqrt);
        prev
  }

  /** A best match that the next candidate does not beat stays the first best. */
  lemma {:induction false} KeepBest(captured: seq<real>, corpus: seq<Candidate>, n: nat, prev: Option<Match>, sqrt: real -> real)
    requires 0 < n <= |corpus|
    requires prev.None? ==> forall j :: 0 <= j < n - 1 ==> Similarity(captured, corpus, j, sqrt) <= 0.0
    requires prev.Some? ==> exists i: nat :: (FirstBest(captured, corpus, n - 1, i, sqrt) &&
               prev.value == Match(corpus[i].owner, Similarity(captured, corpus, i, sqrt)))
    requires Similarity(captured, corpus, n - 1, sqrt) <= (if prev.Some? then prev.value.confidence else 0.0)
    ensures prev.None? ==> forall j :: 0 <= j < n ==> Similarity(captured, corpus, j, sqrt) <= 0.0
    ensures prev.Some? ==> exists i: nat :: (FirstBest(captured, corpus, n, i, sqrt) &&
              prev.value == Match(corpus[i].owner, Similarity(captured, corpus, i, sqrt)))
  {
    if prev.Some? {
      var i: nat :| FirstBest(captured, corpus, n - 1, i, sqrt) &&
                    prev.value == Match(corpus[i].owner, Similarity(captured, corpus, i, sqrt));
      assert FirstBest(captured, corpus, n, i, sqrt);
    }
  }

  /** The best match so far bounds every similarity seen so far. */
  lemma {:induction false} PrevBound(captured: seq<real>, corpus: seq<Candidate>, n: nat, prev: Option<Match>, sqrt: real -> real)
    requires n <= |corpus|
    requires prev.None? ==> forall j :: 0 <= j < n ==> Similarity(captured, corpus, j, sqrt) <= 0.0
    requires prev.Some? ==> exists i: nat :: (FirstBest(captured, corpus, n, i, sqrt) &&
               prev.value == Match(corpus[i].owner, Similarity(captured, corpus, i, sqrt)))
    ensures prev.Some? ==> prev.value.confidence > 0.0
    ensures forall j :: 0 <= j < n ==>
              Similarity(captured, corpus, j, sqrt) <= (if prev.Some? then prev.value.confidence else 0.0)
  {
    if prev.Some? {
      var i: nat :| FirstBest(captured, corpus, n, i, sqrt) &&
                    prev.value == Match(corpus[i].owner, Similarity(captured, corpus, i, sqrt));
    }
  }

  /** A candidate strictly above a non-negative bound of all earlier ones is
      the first best. */
  lemma {:induction false} NewBest(captured: seq<real>, corpus: seq<Candidate>, n: nat, highest: real, sqrt: real -> real)
    requires 0 < n <= |corpus| && highest >= 0.0
    requires forall j :: 0 <= j < n - 1 ==> Similarity(captured, corpus, j, sqrt) <= highest
    requires Similarity(captured, corpus, n - 1, sqrt) > highest
    ensures FirstBest(captured, corpus, n, n - 1, sqrt)
  {
  }

  /** The scan followed by the threshold gate, on a given candidate list. */
  function BestMatch(captured: seq<real>, corpus: seq<Candidate>, threshold: real,
                        sqrt: real -> real): (r: Option<Match>)
    ensures |corpus| == 0 ==> r.None?
    ensures r.Some? ==> r.value.confidence >= threshold && r.value.confidence > 0.0
    ensures r.Some? ==> exists i: nat :: (FirstBest(captured, corpus, |corpus|, i, sqrt) &&
              r.value == Match(corpus[i].owner, Similarity(captured, corpus, i, sqrt)))
  {
    if |corpus| == 0 then None
    else
      var best := Scan(captured, corpus, |corpus|, sqrt);
      if best.Some? && best.value.confidence >= threshold then best else None
  }

  /** A match is found exactly when some candidate's similarity is both
      positive and at least the threshold; so all similarities at or below
      0 give no match even for a threshold at or below 0. */
  lemma {:induction false} BestMatchExists(captured: seq<real>, corpus: seq<Candidate>, threshold: real, sqrt: real -> real)
    ensures BestMatch(captured, corpus, threshold, sqrt).Some? <==>
            exists i :: 0 <= i < |corpus| && Similarity(captured, corpus, i, sqrt) > 0.0 &&
                        Similarity(captured, corpus, i, sqrt) >= threshold
  {
    if |corpus| > 0 {
      var best := Scan(captured, corpus, |corpus|, sqrt);
      if exists i :: 0 <= i < |corpus| && Similarity(captured, corpus, i, sqrt) > 0.0 &&
                     Similarity(captured, corpus, i, sqrt) >= threshold {
        var i :| 0 <= i < |corpus| && Similarity(captured, corpus, i, sqrt) > 0.0 &&
                 Similarity(captured, corpus, i, sqrt) >= threshold;
        assert best.Some?;
        var k: nat :| FirstBest(captured, corpus, |corpus|, k, sqrt) &&
                 best.value == Match(corpus[k].owner, Similarity(captured, corpus, k, sqrt));
        assert Similarity(captured, corpus, i, sqrt) <= Similarity(captured, corpus, k, sqrt);
      }
    }
  }

  /** An embedding row together with its owner's `activo` flag. */
  datatype StoredEmbedding = StoredEmbedding(owner: Owner, ownerActive: bool, vector: seq<real>)

  /** The query of active employees' embeddings, in storage order. */
  function ActiveCandidates(stored: seq<StoredEmbedding>): (r: seq<Candidate>)
    ensures |r| <= |stored|
    ensures forall c :: c in r <==> exists e :: e in stored && e.ownerActive && c == Candidate(e.owner, e.vector)
    decreases |stored|
  {
    if |stored| == 0 then []
    else
      var e := stored[|stored| - 1];
      var prefix := stored[..|stored| - 1];
      assert forall x :: x in stored <==> x in prefix || x == e;
      ActiveCandidates(prefix) + (if e.ownerActive then [Candidate(e.owner, e.vector)] else [])
  }

  /** Default threshold of `findBestMatch`. */
  const BackendDefaultThreshold: real := 0.5

  /** `findBestMatch(embedding, threshold)` over the stored embeddings:
      only active employees' embeddings take part. */
  function FindBestMatch(captured: seq<real>, stored: seq<StoredEmbedding>, threshold: real,
                            sqrt: real -> real): (r: Option<Match>)
    ensures r.Some? ==> r.value.confidence >= threshold && r.value.confidence > 0.0
    ensures r.Some? ==> exists e :: e in stored && e.ownerActive && e.owner == r.value.owner
    ensures (forall e :: e in stored ==> !e.ownerActive) ==> r.None?
  {
    var corpus := ActiveCandidates(stored);
    MatchFromCorpus(captured, corpus, threshold, sqrt);
    BestMatch(captured, corpus, threshold, sqrt)
  }

  /** A match belongs to the owner of some candidate. */
  lemma {:induction false} MatchFromCorpus(captured: seq<real>, corpus: seq<Candidate>, threshold: real, sqrt: real -> real)
    ensures var r := BestMatch(captured, corpus, threshold, sqrt);
            r.Some? ==> exists c :: c in corpus && c.owner == r.value.owner
  {
    var r := BestMatch(captured, corpus, threshold, sqrt);
    if r.Some? {
      var i: nat :| FirstBest(captured, corpus, |corpus|, i, sqrt) &&
               r.value == Match(corpus[i].owner, Similarity(captured, corpus, i, sqrt));
      assert corpus[i] in corpus;
    }
  }
}
