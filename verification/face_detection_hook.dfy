/** The browser's face detector hook (frontend/src/hooks/useFaceDetection.ts):
    the landmark descriptor, its normalisation, the detection result, and
    the throttle of the continuous-detection loop. The landmark model is
    foreign; its result is an input.
 */
module FaceDetectionHook {

  import opened Wrappers
  import opened Vectors
  import opened FaceEmbedding

  /** A MediaPipe landmark. */
  datatype Landmark = Landmark(x: real, y: real, z: real)

  const Origin: Landmark := Landmark(0.0, 0.0, 0.0)

  /** The `flatValues` of `landmarksToEmbedding`: x, y, z per landmark. */
  function Flatten(landmarks: seq<Landmark>): (r: seq<real>)
    ensures |r| == 3 * |landmarks|
    ensures forall i :: 0 <= i < |landmarks| ==>
              r[3 * i] == landmarks[i].x && r[3 * i + 1] == landmarks[i].y && r[3 * i + 2] == landmarks[i].z
    decreases |landmarks|
  {
    if |landmarks| == 0 then []
    else
      var rest := Flatten(landmarks[1..]);
      var r := [landmarks[0].x, landmarks[0].y, landmarks[0].z] + rest;
      assert forall i :: 1 <= i < |landmarks| ==> landmarks[1..][i - 1] == landmarks[i];
      assert forall i :: 1 <= i < |landmarks| ==> r[3 * i] == rest[3 * (i - 1)];
      r
  }

  /** `normalizeVector(vector)`: a zero-norm vector is returned as is. */
  function NormalizeVector(v: seq<real>, sqrt: real -> real): (r: seq<real>)
    ensures sqrt(SumSq(v)) == 0.0 ==> r == v
    ensures |r| == |v|
    ensures sqrt(SumSq(v)) != 0.0 ==> forall i :: 0 <= i < |v| ==> r[i] * sqrt(SumSq(v)) == v[i]
  {
    var norm := sqrt(SumSq(v));
    if norm == 0.0 then v else DivideAll(v, norm)
  }

  /** The browser's normalisation agrees with the backend's, which divides
      a zero-norm vector by 1 instead. */
  lemma {:induction false} NormalizeMatchesBackend(v: seq<real>, sqrt: real -> real)
    ensures NormalizeVector(v, sqrt) == L2Normalize(v, sqrt)
  {
    if sqrt(SumSq(v)) == 0.0 {
      assert forall i :: 0 <= i < |v| ==> L2Normalize(v, sqrt)[i] == v[i];
    }
  }

  /** `landmarksToEmbedding(landmarks)`: unit length unless every
      landmark sits at the origin. */
  function LandmarksToEmbedding(landmarks: seq<Landmark>, sqrt: real -> real): (r: seq<real>)
    ensures |r| == 3 * |landmarks|
    ensures IsSqrt(sqrt) && (exists i :: 0 <= i < |landmarks| && landmarks[i] != Origin) ==> SumSq(r) == 1.0
  {
    var flat := Flatten(landmarks);
    NonZeroLandmark(landmarks, sqrt);
    NormalizeVector(flat, sqrt)
  }

  lemma {:induction false} NonZeroLandmark(landmarks: seq<Landmark>, sqrt: real -> real)
    ensures IsSqrt(sqrt) && (exists i :: 0 <= i < |landmarks| && landmarks[i] != Origin) ==>
              SumSq(NormalizeVector(Flatten(landmarks), sqrt)) == 1.0
  {
    var flat := Flatten(landmarks);
    if IsSqrt(sqrt) && exists i :: 0 <= i < |landmarks| && landmarks[i] != Origin {
      var i :| 0 <= i < |landmarks| && landmarks[i] != Origin;
      assert flat[3 * i] != 0.0 || flat[3 * i + 1] != 0.0 || flat[3 * i + 2] != 0.0;
      NormalizeMatchesBackend(flat, sqrt);
      L2NormalizeUnit(flat, sqrt);
    }
  }

  /** `DetectedFace`. */
  datatype DetectedFace = DetectedFace(landmarks: seq<Landmark>, embedding: seq<real>, confidence: real)

  /** Confidence reported for every face. */
  const FixedConfidence: real := 0.9

  /** `detectFace(video)`: `ready` says the landmarker was created, and
      `detected` is the landmark lists `detectForVideo` returned, or `None`
      where it threw. */
  function DetectFace(ready: bool, hasVideo: bool, detected: Option<seq<seq<Landmark>>>,
                      sqrt: real -> real): (r: Option<DetectedFace>)
    ensures r.Some? <==> ready && hasVideo && detected.Some? && |detected.value| > 0
    ensures r.Some? ==> && r.value.confidence == FixedConfidence
                        && r.value.landmarks == detected.value[0]
                        && r.value.embedding == LandmarksToEmbedding(detected.value[0], sqrt)
  {
    if !ready || !hasVideo then None
    else
      match detected
      case None => None
      case Some(faces) =>
        if |faces| == 0 then None
        else Some(DetectedFace(faces[0], LandmarksToEmbedding(faces[0], sqrt), FixedConfidence))
  }

  /** The continuous-detection state: the `isDetecting` flag and the time
      of the last detection of the running loop. */
  datatype LoopState = LoopState(detecting: bool, last: real)

  /** Default `intervalMs`. */
  const DefaultInterval: real := 1000.0

  /** `startContinuousDetection`: a no-op while a loop runs; otherwise a
      loop starts whose last detection time is 0. */
  function StartDetection(s: LoopState): (s': LoopState)
    ensures s.detecting ==> s' == s
    ensures !s.detecting ==> s'.detecting && s'.last == 0.0
    ensures s'.detecting
  {
    if s.detecting then s else LoopState(true, 0.0)
  }

  /** `stopContinuousDetection`. */
  function StopDetection(s: LoopState): (s': LoopState)
    ensures !s'.detecting && s'.last == s.last
  {
    s.(detecting := false)
  }

  /** One animation frame at time `now`: whether `onDetection` is called,
      and the state afterwards. */
  function Frame(s: LoopState, now: real, interval: real): (r: (bool, LoopState))
    ensures r.0 <==> now - s.last >= interval
    ensures r.1.detecting == s.detecting
    ensures r.1.last == (if r.0 then now else s.last)
  {
    if now - s.last >= interval then (true, s.(last := now)) else (false, s)
  }

  /** The frames at the given times, and the times at which `onDetection`
      fired. */
  function Frames(s: LoopState, times: seq<real>, interval: real): (r: (seq<real>, LoopState))
    ensures forall t :: t in r.0 ==> t in times
    ensures r.1.detecting == s.detecting
    decreases |times|
  {
    if |times| == 0 then ([], s)
    else
      var (fired, s1) := Frame(s, times[0], interval);
      var (rest, s2) := Frames(s1, times[1..], interval);
      ((if fired then [times[0]] else []) + rest, s2)
  }

  /** Consecutive detections are at least `interval` apart, and the first
      is at least `interval` after the loop's last detection. */
  lemma {:induction false} FramesSpaced(s: LoopState, times: seq<real>, interval: real)
    ensures var fired := Frames(s, times, interval).0;
            && (|fired| > 0 ==> fired[0] - s.last >= interval)
            && forall i :: 0 <= i < |fired| - 1 ==> fired[i + 1] - fired[i] >= interval
    ensures var r := Frames(s, times, interval);
            r.1.last == (if |r.0| > 0 then r.0[|r.0| - 1] else s.last)
    decreases |times|
  {
    if |times| > 0 {
      var (fired, s1) := Frame(s, times[0], interval);
      FramesSpaced(s1, times[1..], interval);
    }
  }
}
