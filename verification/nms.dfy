/** Greedy non-maximum suppression
    (backend/src/services/face_detection_service.ts `nms`).

    The boxes are first put in non-increasing score order by a stable sort
    (`Array.prototype.sort` is stable). Then the head is repeatedly kept,
    and every remaining box whose IoU with it exceeds the threshold is
    removed, the others keeping their order.
 */
module Nms {

  import opened Boxes

  /** Non-increasing score order. */
  ghost predicate SortedByScore(s: seq<Box>) {
    forall i, j :: 0 <= i < j < |s| ==> s[i].score >= s[j].score
  }

  /** `a` is obtained from `b` by deleting elements. */
  predicate IsSubsequence(a: seq<Box>, b: seq<Box>)
    decreases |b|
  {
    if |a| == 0 then true
    else if |b| == 0 then false
    else if a[0] == b[0] then IsSubsequence(a[1..], b[1..])
    else IsSubsequence(a, b[1..])
  }

  /** Inserts `x` before the first box whose score does not exceed its own,
      so that `x` precedes the equal-scored boxes that came after it. */
  function Insert(x: Box, s: seq<Box>): (r: seq<Box>)
    ensures |r| == |s| + 1
    ensures multiset(r) == multiset(s) + multiset{x}
    decreases |s|
  {
    if |s| == 0 || s[0].score <= x.score then [x] + s
    else
      assert s == [s[0]] + s[1..];
      [s[0]] + Insert(x, s[1..])
  }

  /** `[...boxes].sort((a, b) => b.score - a.score)`. */
  function SortByScore(boxes: seq<Box>): (r: seq<Box>)
    ensures |r| == |boxes|
    ensures multiset(r) == multiset(boxes)
    decreases |boxes|
  {
    if |boxes| == 0 then []
    else
      assert boxes == [boxes[0]] + boxes[1..];
      Insert(boxes[0], SortByScore(boxes[1..]))
  }

  /** The boxes `box` does not suppress, in their original order. */
  function Survivors(box: Box, rest: seq<Box>, threshold: real): (r: seq<Box>)
    ensures |r| <= |rest|
    ensures forall b :: b in r <==> b in rest && !(Iou(box, b) > threshold)
    decreases |rest|
  {
    if |rest| == 0 then []
    else
      var tail := Survivors(box, rest[1..], threshold);
      assert forall b :: b in rest <==> b == rest[0] || b in rest[1..];
      if Iou(box, rest[0]) > threshold then tail else [rest[0]] + tail
  }

  /** The `while (sorted.length > 0)` loop on an already sorted list. */
  function Greedy(sorted: seq<Box>, threshold: real): (kept: seq<Box>)
    ensures |kept| <= |sorted|
    ensures |sorted| > 0 ==> |kept| > 0 && kept[0] == sorted[0]
    decreases |sorted|
  {
    if |sorted| == 0 then []
    else [sorted[0]] + Greedy(Survivors(sorted[0], sorted[1..], threshold), threshold)
  }

  /** `nms(boxes, iouThreshold)`. */
  function Suppress(boxes: seq<Box>, threshold: real): (kept: seq<Box>)
    ensures |kept| <= |boxes|
    ensures |kept| > 0 <==> |boxes| > 0
  {
    Greedy(SortByScore(boxes), threshold)
  }

  // ----- sorting -----

  /** Inserting a box no higher than `m` into boxes no higher than `m`
      yields boxes no higher than `m`. */
  lemma {:induction false} InsertBelow(x: Box, s: seq<Box>, m: real)
    requires x.score <= m
    requires forall i :: 0 <= i < |s| ==> s[i].score <= m
    ensures forall i :: 0 <= i < |Insert(x, s)| ==> Insert(x, s)[i].score <= m
    decreases |s|
  {
    if |s| > 0 && s[0].score > x.score {
      InsertBelow(x, s[1..], m);
      assert Insert(x, s) == [s[0]] + Insert(x, s[1..]);
    }
  }

  lemma {:induction false} InsertSorted(x: Box, s: seq<Box>)
    requires SortedByScore(s)
    ensures SortedByScore(Insert(x, s))
    decreases |s|
  {
    if |s| > 0 && s[0].score > x.score {
      var tail := Insert(x, s[1..]);
      InsertSorted(x, s[1..]);
      InsertBelow(x, s[1..], s[0].score);
      var r := Insert(x, s);
      assert r == [s[0]] + tail;
      forall i, j | 0 <= i < j < |r|
        ensures r[i].score >= r[j].score
      {
        assert r[j] == tail[j - 1];
        if i > 0 {
          assert r[i] == tail[i - 1];
        }
      }
    }
  }

  lemma {:induction false} SortByScoreSorted(boxes: seq<Box>)
    ensures SortedByScore(SortByScore(boxes))
    decreases |boxes|
  {
    if |boxes| > 0 {
      SortByScoreSorted(boxes[1..]);
      InsertSorted(boxes[0], SortByScore(boxes[1..]));
    }
  }

  /** The head of the sorted list carries the highest score. */
  lemma {:induction false} SortedHeadIsMax(boxes: seq<Box>)
    requires |boxes| > 0
    ensures forall b :: b in boxes ==> b.score <= SortByScore(boxes)[0].score
  {
    var r := SortByScore(boxes);
    SortByScoreSorted(boxes);
    forall b | b in boxes
      ensures b.score <= r[0].score
    {
      assert b in multiset(boxes);
      assert b in multiset(r);
      var k :| 0 <= k < |r| && r[k] == b;
    }
  }

  /** Stability at the head: the first box of the sorted list is the
      earliest input box that reaches the highest score. */
  lemma {:induction false} SortedHeadIsFirstMax(boxes: seq<Box>)
    requires |boxes| > 0
    ensures exists i :: 0 <= i < |boxes| && SortByScore(boxes)[0] == boxes[i] && FirstMax(boxes, i)
    decreases |boxes|
  {
    var r := SortByScore(boxes);
    SortedHeadIsMax(boxes);
    if |boxes| == 1 {
      assert FirstMax(boxes, 0);
    } else {
      var rest := SortByScore(boxes[1..]);
      SortedHeadIsMax(boxes[1..]);
      if rest[0].score <= boxes[0].score {
        assert r[0] == boxes[0];
        forall j | 0 <= j < |boxes|
          ensures boxes[j].score <= boxes[0].score
        {
          if j > 0 {
            assert boxes[j] == boxes[1..][j - 1];
            assert boxes[1..][j - 1] in boxes[1..];
          }
        }
        assert FirstMax(boxes, 0);
      } else {
        assert r[0] == rest[0];
        SortedHeadIsFirstMax(boxes[1..]);
        var i :| 0 <= i < |boxes[1..]| && rest[0] == boxes[1..][i] && FirstMax(boxes[1..], i);
        forall j | 0 <= j < |boxes|
          ensures boxes[j].score <= boxes[i + 1].score
          ensures j < i + 1 ==> boxes[j].score < boxes[i + 1].score
        {
          if j > 0 {
            assert boxes[j] == boxes[1..][j - 1];
          }
        }
        assert FirstMax(boxes, i + 1);
      }
    }
  }

  /** `boxes[i]` has the highest score and every earlier box scores less. */
  ghost predicate FirstMax(boxes: seq<Box>, i: int)
    requires 0 <= i < |boxes|
  {
    (forall j :: 0 <= j < |boxes| ==> boxes[j].score <= boxes[i].score) &&
    (forall j :: 0 <= j < i ==> boxes[j].score < boxes[i].score)
  }

  // ----- subsequences -----

  lemma {:induction false} SubsequenceMembers(a: seq<Box>, b: seq<Box>)
    requires IsSubsequence(a, b)
    ensures forall x :: x in a ==> x in b
    decreases |b|
  {
    if |a| > 0 && |b| > 0 {
      if a[0] == b[0] {
        SubsequenceMembers(a[1..], b[1..]);
        assert forall x :: x in a ==> x == a[0] || x in a[1..];
      } else {
        SubsequenceMembers(a, b[1..]);
      }
    }
  }

  lemma {:induction false} SubsequenceSorted(a: seq<Box>, b: seq<Box>)
    requires IsSubsequence(a, b) && SortedByScore(b)
    ensures SortedByScore(a)
    decreases |b|
  {
    if |a| > 0 && |b| > 0 {
      if a[0] == b[0] {
        SubsequenceSorted(a[1..], b[1..]);
        SubsequenceMembers(a[1..], b[1..]);
        forall i, j | 0 <= i < j < |a|
          ensures a[i].score >= a[j].score
        {
          assert a[j] == a[1..][j - 1];
          assert a[1..][j - 1] in a[1..];
          var k :| 0 <= k < |b[1..]| && b[1..][k] == a[j];
          assert b[k + 1] == a[j];
          if i > 0 {
            assert a[i] == a[1..][i - 1];
          }
        }
      } else {
        SubsequenceSorted(a, b[1..]);
      }
    }
  }

  lemma {:induction false} SurvivorsSubsequence(box: Box, rest: seq<Box>, threshold: real)
    ensures IsSubsequence(Survivors(box, rest, threshold), rest)
    decreases |rest|
  {
    if |rest| > 0 {
      SurvivorsSubsequence(box, rest[1..], threshold);
      var tail := Survivors(box, rest[1..], threshold);
      if !(Iou(box, rest[0]) > threshold) {
        assert ([rest[0]] + tail)[1..] == tail;
      } else {
        SkipHead(tail, rest);
      }
    }
  }

  /** A subsequence of `b[1..]` is a subsequence of `b`. */
  lemma {:induction false} SkipHead(a: seq<Box>, b: seq<Box>)
    requires |b| > 0 && IsSubsequence(a, b[1..])
    ensures IsSubsequence(a, b)
    decreases |b|, 0
  {
    if |a| > 0 && a[0] == b[0] {
      SubsequenceTail(a, b[1..]);
    }
  }

  /** Dropping the head of a subsequence keeps a subsequence. */
  lemma {:induction false} SubsequenceTail(a: seq<Box>, b: seq<Box>)
    requires |a| > 0 && IsSubsequence(a, b)
    ensures IsSubsequence(a[1..], b)
    decreases |b|, 1
  {
    if a[0] == b[0] {
      SkipHead(a[1..], b);
    } else {
      SubsequenceTail(a, b[1..]);
      SkipHead(a[1..], b);
    }
  }

  lemma {:induction false} SubsequenceTransitive(a: seq<Box>, b: seq<Box>, c: seq<Box>)
    requires IsSubsequence(a, b) && IsSubsequence(b, c)
    ensures IsSubsequence(a, c)
    decreases |c|
  {
    if |a| > 0 && |c| > 0 {
      if b[0] == c[0] {
        if a[0] == b[0] {
          SubsequenceTransitive(a[1..], b[1..], c[1..]);
        } else {
          SubsequenceTransitive(a, b[1..], c[1..]);
          SkipHead(a, c);
        }
      } else {
        SubsequenceTransitive(a, b, c[1..]);
        SkipHead(a, c);
      }
    }
  }

  lemma {:induction false} GreedySubsequence(sorted: seq<Box>, threshold: real)
    ensures IsSubsequence(Greedy(sorted, threshold), sorted)
    decreases |sorted|
  {
    if |sorted| > 0 {
      var rest := Survivors(sorted[0], sorted[1..], threshold);
      GreedySubsequence(rest, threshold);
      SurvivorsSubsequence(sorted[0], sorted[1..], threshold);
      SubsequenceTransitive(Greedy(rest, threshold), rest, sorted[1..]);
      assert Greedy(sorted, threshold)[1..] == Greedy(rest, threshold);
    }
  }

  // ----- suppression guarantees -----

  /** Every two kept boxes overlap by at most the threshold; an overlap of
      exactly the threshold is not suppressed. */
  lemma {:induction false} GreedyPairwise(sorted: seq<Box>, threshold: real)
    ensures forall i, j :: 0 <= i < j < |Greedy(sorted, threshold)| ==>
              Iou(Greedy(sorted, threshold)[i], Greedy(sorted, threshold)[j]) <= threshold
    decreases |sorted|
  {
    if |sorted| > 0 {
      var rest := Survivors(sorted[0], sorted[1..], threshold);
      var tail := Greedy(rest, threshold);
      var kept := Greedy(sorted, threshold);
      GreedyPairwise(rest, threshold);
      GreedySubsequence(rest, threshold);
      SubsequenceMembers(tail, rest);
      forall i, j | 0 <= i < j < |kept|
        ensures Iou(kept[i], kept[j]) <= threshold
      {
        assert kept[j] == tail[j - 1];
        if i == 0 {
          assert tail[j - 1] in tail;
        } else {
          assert kept[i] == tail[i - 1];
        }
      }
    }
  }

  /** Every input box is either kept or overlaps, beyond the threshold, a
      kept box whose score is at least its own. */
  lemma {:induction false} GreedyCovers(sorted: seq<Box>, threshold: real)
    requires SortedByScore(sorted)
    ensures forall b :: b in sorted ==> Covered(b, Greedy(sorted, threshold), threshold)
    decreases |sorted|
  {
    if |sorted| > 0 {
      var rest := Survivors(sorted[0], sorted[1..], threshold);
      var kept := Greedy(sorted, threshold);
      var tail := Greedy(rest, threshold);
      assert kept == [sorted[0]] + tail;
      SurvivorsSubsequence(sorted[0], sorted[1..], threshold);
      SubsequenceSorted(rest, sorted[1..]);
      GreedyCovers(rest, threshold);
      forall b | b in sorted
        ensures Covered(b, kept, threshold)
      {
        if b == sorted[0] {
          assert b in kept;
        } else {
          var k :| 0 <= k < |sorted| && sorted[k] == b;
          assert b in sorted[1..] by {
            assert sorted[1..][k - 1] == b;
          }
          if Iou(sorted[0], b) > threshold {
            assert sorted[0] in kept;
          } else {
            assert b in rest;
            var c := CoveringWitness(b, tail, threshold);
            assert c in kept;
          }
        }
      }
    }
  }

  /** `b` survives in `kept`, or some kept box suppressed it. */
  ghost predicate Covered(b: Box, kept: seq<Box>, threshold: real) {
    b in kept || exists c :: c in kept && Iou(c, b) > threshold && c.score >= b.score
  }

  lemma {:induction false} CoveringWitness(b: Box, kept: seq<Box>, threshold: real) returns (c: Box)
    requires Covered(b, kept, threshold)
    ensures c in kept && (c == b || (Iou(c, b) > threshold && c.score >= b.score))
  {
    if b in kept {
      c := b;
    } else {
      c :| c in kept && Iou(c, b) > threshold && c.score >= b.score;
    }
  }

  // ----- the properties of `nms` -----

  /** The result is an order-preserving selection of the score-sorted input,
      hence itself in non-increasing score order and drawn from the input. */
  lemma {:induction false} SuppressSelection(boxes: seq<Box>, threshold: real)
    ensures IsSubsequence(Suppress(boxes, threshold), SortByScore(boxes))
    ensures SortedByScore(Suppress(boxes, threshold))
    ensures forall b :: b in Suppress(boxes, threshold) ==> b in boxes
  {
    var sorted := SortByScore(boxes);
    GreedySubsequence(sorted, threshold);
    SortByScoreSorted(boxes);
    SubsequenceSorted(Suppress(boxes, threshold), sorted);
    SubsequenceMembers(Suppress(boxes, threshold), sorted);
    forall b | b in sorted
      ensures b in boxes
    {
      assert b in multiset(sorted);
    }
  }

  /** The first kept box is the earliest input box of highest score. */
  lemma {:induction false} SuppressHead(boxes: seq<Box>, threshold: real)
    requires |boxes| > 0
    ensures forall b :: b in boxes ==> b.score <= Suppress(boxes, threshold)[0].score
    ensures exists i :: 0 <= i < |boxes| && Suppress(boxes, threshold)[0] == boxes[i] && FirstMax(boxes, i)
  {
    SortedHeadIsMax(boxes);
    SortedHeadIsFirstMax(boxes);
  }

  /** The suppression guarantees of `nms`: kept boxes pairwise overlap by at
      most the threshold, and every input box is kept or was suppressed by a
      kept box of at least its score. */
  lemma {:induction false} SuppressGuarantees(boxes: seq<Box>, threshold: real)
    ensures forall i, j :: 0 <= i < j < |Suppress(boxes, threshold)| ==>
              Iou(Suppress(boxes, threshold)[i], Suppress(boxes, threshold)[j]) <= threshold
    ensures forall b :: b in boxes ==> Covered(b, Suppress(boxes, threshold), threshold)
  {
    var sorted := SortByScore(boxes);
    GreedyPairwise(sorted, threshold);
    SortByScoreSorted(boxes);
    GreedyCovers(sorted, threshold);
    forall b | b in boxes
      ensures b in sorted
    {
      assert b in multiset(boxes);
    }
  }
}
