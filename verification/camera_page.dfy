/** The kiosk camera page's reaction to one detection
    (frontend/src/pages/Camera.tsx `handleFaceDetection`): the status line,
    the per-employee cooldown map and the list of recent attendances.
    The backend call, canvas capture and time formatting are inputs.
 */
module CameraPage {

  import opened Wrappers

  /** An entry of the recent-attendance list. */
  datatype RecentRecord = RecentRecord(id: string, employeeName: string, kind: string, time: string, confidence: real)

  /** The page state `handleFaceDetection` changes. */
  datatype CameraState = CameraState(status: string, lastSeen: map<string, int>, recent: seq<RecentRecord>)

  /** The backend's answer to `recognizeAndRecord`; an absent or empty
      string field is `None` or "". */
  datatype Reply = Reply(matched: bool, employeeId: Option<string>, employeeName: Option<string>,
                         kind: Option<string>, timestamp: Option<string>, attendanceId: Option<string>,
                         confidence: Option<real>)

  /** What happens around one detection: whether the video element and the
      canvas context exist, whether `toBlob` produced an image, and the
      reply, `None` when the request threw. `now` is `Date.now()`; `time`
      is the formatted time of the reply's timestamp. */
  datatype Frame = Frame(hasVideo: bool, hasCanvas: bool, hasBlob: bool, reply: Option<Reply>, now: int, time: string)

  const CooldownMs: int := 30000
  const RecentLimit: nat := 10

  const NoFace: string := "No se detecta ningún rostro"
  const NoVideo: string := "Video no disponible"
  const Identifying: string := "Rostro detectado, identificando..."
  const CaptureError: string := "Error al capturar imagen"
  const Unrecognised: string := "Rostro no reconocido"
  const Incomplete: string := "Error en datos de reconocimiento"
  const Failure: string := "Error al identificar"

  /** A JavaScript truthiness test on an optional string. */
  predicate Present(s: Option<string>) {
    s.Some? && s.value != ""
  }

  /** The reply carries everything a record needs. */
  predicate Complete(r: Reply) {
    Present(r.employeeId) && Present(r.employeeName) && Present(r.kind) && Present(r.timestamp) && Present(r.attendanceId)
  }

  /** A previous detection of the employee less than 30 s ago; a stored 0
      is falsy and counts as none. */
  predicate InCooldown(lastSeen: map<string, int>, id: string, now: int) {
    id in lastSeen && lastSeen[id] != 0 && now - lastSeen[id] < CooldownMs
  }

  /** `[newRecord, ...prev.slice(0, 9)]`. */
  function PushRecent(r: RecentRecord, prev: seq<RecentRecord>): (list: seq<RecentRecord>)
    ensures |list| >= 1 && list[0] == r
    ensures |list| <= RecentLimit
    ensures |prev| < RecentLimit ==> list[1..] == prev
    ensures |prev| >= RecentLimit ==> |list| == RecentLimit
    ensures forall i :: 1 <= i < |list| ==> list[i] == prev[i - 1]
  {
    [r] + prev[..if |prev| < 9 then |prev| else 9]
  }

  /** A frame reached the backend: a face was reported, and the video,
      the canvas context and the JPEG blob all exist. */
  predicate Sent(faceFound: bool, f: Frame) {
    faceFound && f.hasVideo && f.hasCanvas && f.hasBlob
  }

  /** The reply names an employee that was not seen in the last 30 s. */
  predicate Accepted(s: CameraState, f: Frame) {
    f.reply.Some? && f.reply.value.matched && Complete(f.reply.value) &&
    !InCooldown(s.lastSeen, f.reply.value.employeeId.value, f.now)
  }

  /** `handleFaceDetection(face)`: the state afterwards, and whether the
      backend was asked. Each way out leaves its own status; only an
      accepted reply touches the cooldown map and the recent list. */
  function HandleDetection(s: CameraState, faceFound: bool, f: Frame): (r: (CameraState, bool))
    ensures r.1 <==> Sent(faceFound, f)
    ensures !faceFound ==> r.0 == s.(status := NoFace)
    ensures faceFound && !f.hasVideo ==> r.0 == s.(status := NoVideo)
    ensures faceFound && f.hasVideo && !f.hasCanvas ==> r.0 == s.(status := CaptureError)
    ensures faceFound && f.hasVideo && f.hasCanvas && !f.hasBlob ==> r.0 == s.(status := Failure)
    ensures Sent(faceFound, f) && f.reply.None? ==> r.0 == s.(status := Failure)
    ensures Sent(faceFound, f) && f.reply.Some? && !f.reply.value.matched ==> r.0 == s.(status := Unrecognised)
    ensures Sent(faceFound, f) && f.reply.Some? && f.reply.value.matched && !Complete(f.reply.value) ==>
              r.0 == s.(status := Incomplete)
    ensures Sent(faceFound, f) && f.reply.Some? && f.reply.value.matched && Complete(f.reply.value) &&
            InCooldown(s.lastSeen, f.reply.value.employeeId.value, f.now) ==>
              r.0 == s.(status := Identifying)
    ensures Sent(faceFound, f) && Accepted(s, f) ==>
              RecordAdded(s, f, r.0) && r.0.status == "Identificado: " + f.reply.value.employeeName.value
    ensures r.0.lastSeen != s.lastSeen || r.0.recent != s.recent ==> Sent(faceFound, f) && RecordAdded(s, f, r.0)
  {
    if !faceFound then (s.(status := NoFace), false)
    else if !f.hasVideo then (s.(status := NoVideo), false)
    else if !f.hasCanvas then (s.(status := CaptureError), false)
    else if !f.hasBlob then (s.(status := Failure), false)
    else
      match f.reply
      case None => (s.(status := Failure), true)
      case Some(reply) =>
        if !reply.matched then (s.(status := Unrecognised), true)
        else if !Complete(reply) then (s.(status := Incomplete), true)
        else
          var id := reply.employeeId.value;
          if InCooldown(s.lastSeen, id, f.now) then (s.(status := Identifying), true)
          else
            var record := RecentRecord(reply.attendanceId.value, reply.employeeName.value, reply.kind.value,
                                       f.time, reply.confidence.GetOr(0.0));
            (CameraState("Identificado: " + reply.employeeName.value, s.lastSeen[id := f.now],
                         PushRecent(record, s.recent)), true)
  }

  /** A record was added: the reply was a complete match outside the
      cooldown; the employee's time is now, and the new record, with the
      confidence defaulting to 0, heads the capped list. */
  ghost predicate RecordAdded(s: CameraState, f: Frame, s': CameraState) {
    && f.reply.Some? && f.reply.value.matched && Complete(f.reply.value)
    && !InCooldown(s.lastSeen, f.reply.value.employeeId.value, f.now)
    && s'.lastSeen == s.lastSeen[f.reply.value.employeeId.value := f.now]
    && s'.recent == PushRecent(RecentRecord(f.reply.value.attendanceId.value, f.reply.value.employeeName.value,
                                            f.reply.value.kind.value, f.time,
                                            f.reply.value.confidence.GetOr(0.0)), s.recent)
  }

  /** The cooldown suppresses a repeat within 30 s of a recorded detection,
      even though the backend has already written the attendance row. */
  lemma {:induction false} CooldownSuppressesRepeat(s: CameraState, f1: Frame, f2: Frame)
    requires f1.hasVideo && f1.hasCanvas && f1.hasBlob && f1.reply.Some? && f1.reply.value.matched && Complete(f1.reply.value)
    requires !InCooldown(s.lastSeen, f1.reply.value.employeeId.value, f1.now)
    requires f1.now != 0 && f1.now <= f2.now < f1.now + CooldownMs
    requires f2.hasVideo && f2.hasCanvas && f2.hasBlob && f2.reply.Some? && f2.reply.value.matched && Complete(f2.reply.value)
    requires f2.reply.value.employeeId == f1.reply.value.employeeId
    ensures var (s1, _) := HandleDetection(s, true, f1);
            var (s2, called) := HandleDetection(s1, true, f2);
            called && s2.recent == s1.recent && s2.lastSeen == s1.lastSeen
  {
  }
}
