/** Attendance recording (backend/src/services/attendance_service.ts):
    the recognition flow that decides and writes an ENTRADA or SALIDA
    event, the manual `record` operation, and the CSV export.
 */
module Attendance {

  import opened Wrappers
  import opened RealArith
  import opened Text
  import opened Constants
  import opened FaceDetection
  import opened FaceEmbedding
  import opened Recognition
  import opened Store

  /** Threshold `recognizeAndRecord` passes to `findBestMatch`. */
  const RecognitionThreshold: real := 0.6

  /** Area shown for an employee without one. */
  const NoArea: string := "Sin área"

  /** The kind of the user's most recent event, if any (`findFirst` ordered
      by timestamp, newest first). */
  function LatestKind(rows: seq<AttendanceRow>, userId: string): (r: Option<string>)
    ensures r.None? <==> forall row :: row in rows ==> row.userId != userId
    ensures r.Some? ==> exists i :: 0 <= i < |rows| && rows[i].userId == userId && rows[i].kind == r.value &&
                          forall j :: i < j < |rows| ==> rows[j].userId != userId
    decreases |rows|
  {
    if |rows| == 0 then None
    else
      var last := rows[|rows| - 1];
      var prefix := rows[..|rows| - 1];
      assert forall x :: x in rows <==> x in prefix || x == last;
      if last.userId == userId then Some(last.kind)
      else
        var r := LatestKind(prefix, userId);
        if r.Some? then
          var i :| 0 <= i < |prefix| && prefix[i].userId == userId && prefix[i].kind == r.value &&
                   forall j :: i < j < |prefix| ==> prefix[j].userId != userId;
          assert rows[i] == prefix[i];
          r
        else r
  }

  /** ENTRADA when there is no previous event or it was a SALIDA, else SALIDA. */
  function NextKind(latest: Option<string>): (k: string)
    ensures IsValidAttendanceType(k)
    ensures latest == Some(Entry) ==> k == Exit
    ensures latest == None || latest == Some(Exit) ==> k == Entry
  {
    if latest.None? || latest.value == Exit then Entry else Exit
  }

  /** `usuario.area || 'Sin área'`: an absent or empty area shows the default. */
  function AreaOrDefault(area: Option<string>): (r: string)
    ensures |r| > 0
    ensures area.Some? && area.value != "" ==> r == area.value
    ensures area.None? || area.value == "" ==> r == NoArea
  {
    if area.Some? && area.value != "" then area.value else NoArea
  }

  /** `RecognitionResult`. */
  datatype RecognitionResult =
    | NoMatch(message: string)
    | Matched(employeeId: string, employeeName: string, employeeArea: string, confidence: real,
              attendanceId: string, kind: string, timestamp: int)

  /** The inputs of one recognition request: the model runs on the
      captured image and on the aligned crop, the ArcFace output for the
      crop, and the clock and row id the database supplies. */
  datatype Request = Request(capture: ModelRun, aligned: ModelRun, arcface: ArcFaceOutput,
                             now: int, newId: string)

  ghost predicate ValidRequest(req: Request) {
    ValidRun(req.capture, DefaultSizes) && ValidRun(req.aligned, DefaultSizes)
  }

  /** `recognizeAndRecord(imageBuffer)`: the response and the database
      afterwards, or the error a step throws. */
  function RecognizeAndRecord(db: Db, req: Request, sigmoid: real -> real, sqrt: real -> real)
    : (r: Result<(RecognitionResult, Db)>)
    requires ValidRequest(req)
    ensures DetectMainFace(req.capture, DefaultSizes, DefaultScoreThreshold, DefaultNmsThreshold, sigmoid) == Ok(None) ==>
              r == Ok((NoMatch("No se detectó rostro"), db))
    ensures r.Ok? && r.value.0.NoMatch? ==> r.value.1 == db
    ensures r.Ok? && r.value.0.Matched? ==> MatchedRecord(db, req, sigmoid, sqrt, r.value.0, r.value.1)
    ensures DetectMainFace(req.capture, DefaultSizes, DefaultScoreThreshold, DefaultNmsThreshold, sigmoid).Err? ==> r.Err?
    ensures var face := DetectMainFace(req.capture, DefaultSizes, DefaultScoreThreshold, DefaultNmsThreshold, sigmoid);
            var emb := ComputeEmbeddingFromImage(req.aligned, req.arcface, sigmoid, sqrt);
            face.Ok? && face.value.Some? ==>
              && (emb.Err? ==> r.Err?)
              && (emb.Ok? ==> RepliesToMatch(db, req, FindBestMatch(emb.value, StoredEmbeddings(db), RecognitionThreshold, sqrt), r))
  {
    var face :- DetectMainFace(req.capture, DefaultSizes, DefaultScoreThreshold, DefaultNmsThreshold, sigmoid);
    if face.None? then Ok((NoMatch("No se detectó rostro"), db))
    else
      var embedding :- ComputeEmbeddingFromImage(req.aligned, req.arcface, sigmoid, sqrt);
      var found := FindBestMatch(embedding, StoredEmbeddings(db), RecognitionThreshold, sqrt);
      if found.None? then Ok((NoMatch("Rostro no reconocido"), db))
      else
        var id := found.value.owner.id;
        if id !in db.users then Ok((NoMatch("Empleado no encontrado"), db))
        else if !db.users[id].active then Ok((NoMatch("Empleado inactivo"), db))
        else
          var kind := NextKind(LatestKind(db.attendance, id));
          var row := AttendanceRow(req.newId, id, kind, req.now, found.value.confidence);
          var user := db.users[id];
          Ok((Matched(id, user.name, AreaOrDefault(user.area), found.value.confidence, req.newId, kind, req.now),
              db.(attendance := db.attendance + [row])))
  }

  /** The reply once a face was found and its embedding computed, checked
      in order: no match, unknown employee, inactive employee, and otherwise
      an event recorded for the matched employee with the match's confidence. */
  predicate RepliesToMatch(db: Db, req: Request, found: Option<Match>, r: Result<(RecognitionResult, Db)>) {
    && (found.None? ==> r == Ok((NoMatch("Rostro no reconocido"), db)))
    && (found.Some? && found.value.owner.id !in db.users ==> r == Ok((NoMatch("Empleado no encontrado"), db)))
    && (found.Some? && found.value.owner.id in db.users && !db.users[found.value.owner.id].active ==>
          r == Ok((NoMatch("Empleado inactivo"), db)))
    && (found.Some? && found.value.owner.id in db.users && db.users[found.value.owner.id].active ==>
          var user := db.users[found.value.owner.id];
          && r.Ok? && r.value.0.Matched?
          && r.value.0.employeeId == found.value.owner.id
          && r.value.0.confidence == found.value.confidence
          && r.value.0.employeeName == user.name
          && r.value.0.employeeArea == AreaOrDefault(user.area)
          && r.value.0.attendanceId == req.newId
          && r.value.0.timestamp == req.now)
  }

  /** With one database snapshot the matched owner always exists and is
      active: the code's "Empleado no encontrado" and "Empleado inactivo"
      replies need the employee to be deleted or deactivated between the
      match and the lookup, which one snapshot cannot express. */
  lemma {:induction false} StaleLookupUnreachable(db: Db, req: Request, sigmoid: real -> real, sqrt: real -> real)
    requires ValidRequest(req)
    ensures RecognizeAndRecord(db, req, sigmoid, sqrt) != Ok((NoMatch("Empleado no encontrado"), db))
    ensures RecognizeAndRecord(db, req, sigmoid, sqrt) != Ok((NoMatch("Empleado inactivo"), db))
  {
    var face := DetectMainFace(req.capture, DefaultSizes, DefaultScoreThreshold, DefaultNmsThreshold, sigmoid);
    var emb := ComputeEmbeddingFromImage(req.aligned, req.arcface, sigmoid, sqrt);
    if face.Ok? && face.value.Some? && emb.Ok? {
      var stored := StoredEmbeddings(db);
      var found := FindBestMatch(emb.value, stored, RecognitionThreshold, sqrt);
      if found.Some? {
        var e :| e in stored && e.ownerActive && e.owner == found.value.owner;
        var row :| row in db.embeddings && OwnerOf(db.images, db.users, row).Some? &&
                   e == Joined(db.users, OwnerOf(db.images, db.users, row).value, row.vector);
        assert found.value.owner.id in db.users && db.users[found.value.owner.id].active;
      }
    }
  }

  /** What a successful recognition guarantees: a face was found both in
      the capture and again in the aligned crop; the employee exists and is
      active; the match reached the threshold; exactly one row was
      appended, of the kind that alternates with the previous one; and
      nothing else changed. */
  ghost predicate MatchedRecord(db: Db, req: Request, sigmoid: real -> real, sqrt: real -> real,
                                res: RecognitionResult, db': Db)
    requires ValidRequest(req) && res.Matched?
  {
    && DetectMainFace(req.capture, DefaultSizes, DefaultScoreThreshold, DefaultNmsThreshold, sigmoid).Ok?
    && DetectMainFace(req.capture, DefaultSizes, DefaultScoreThreshold, DefaultNmsThreshold, sigmoid).value.Some?
    && DetectAndAlignFace(req.aligned, sigmoid).Ok?
    && DetectAndAlignFace(req.aligned, sigmoid).value.Some?
    && res.employeeId in db.users && db.users[res.employeeId].active
    && res.confidence >= RecognitionThreshold
    && res.kind == NextKind(LatestKind(db.attendance, res.employeeId))
    && db' == db.(attendance := db.attendance +
                  [AttendanceRow(req.newId, res.employeeId, res.kind, req.now, res.confidence)])
  }

  /** After a recorded event the employee's latest kind is that event's. */
  lemma {:induction false} LatestAfterAppend(rows: seq<AttendanceRow>, row: AttendanceRow)
    ensures LatestKind(rows + [row], row.userId) == Some(row.kind)
  {
    assert (rows + [row])[|rows + [row]| - 1] == row;
  }

  /** Consecutive recognitions of the same employee alternate ENTRADA and
      SALIDA, whatever the previous history was. */
  lemma {:induction false} RecognitionsAlternate(db: Db, req1: Request, req2: Request, sigmoid: real -> real, sqrt: real -> real)
    requires ValidRequest(req1) && ValidRequest(req2)
    requires RecognizeAndRecord(db, req1, sigmoid, sqrt).Ok?
    requires RecognizeAndRecord(db, req1, sigmoid, sqrt).value.0.Matched?
    requires var db1 := RecognizeAndRecord(db, req1, sigmoid, sqrt).value.1;
             RecognizeAndRecord(db1, req2, sigmoid, sqrt).Ok? &&
             RecognizeAndRecord(db1, req2, sigmoid, sqrt).value.0.Matched? &&
             RecognizeAndRecord(db1, req2, sigmoid, sqrt).value.0.employeeId ==
               RecognizeAndRecord(db, req1, sigmoid, sqrt).value.0.employeeId
    ensures var (res1, db1) := RecognizeAndRecord(db, req1, sigmoid, sqrt).value;
            var res2 := RecognizeAndRecord(db1, req2, sigmoid, sqrt).value.0;
            {res1.kind, res2.kind} == {Entry, Exit}
  {
    var (res1, db1) := RecognizeAndRecord(db, req1, sigmoid, sqrt).value;
    var res2 := RecognizeAndRecord(db1, req2, sigmoid, sqrt).value.0;
    LatestAfterAppend(db.attendance,
                      AttendanceRow(req1.newId, res1.employeeId, res1.kind, req1.now, res1.confidence));
  }

  /** The first recognition of an employee without history is an ENTRADA. */
  lemma {:induction false} FirstRecognitionIsEntry(db: Db, req: Request, sigmoid: real -> real, sqrt: real -> real)
    requires ValidRequest(req)
    requires RecognizeAndRecord(db, req, sigmoid, sqrt).Ok?
    requires RecognizeAndRecord(db, req, sigmoid, sqrt).value.0.Matched?
    requires forall row :: row in db.attendance ==>
               row.userId != RecognizeAndRecord(db, req, sigmoid, sqrt).value.0.employeeId
    ensures RecognizeAndRecord(db, req, sigmoid, sqrt).value.0.kind == Entry
  {
  }

  /** `record(data)`: the type is validated before any lookup, then the
      employee must exist and be active; only then is the row created. */
  function RecordAttendance(db: Db, employeeId: string, kind: string, confidence: real, now: int, newId: string)
    : (r: Result<(AttendanceView, Db)>)
    ensures !IsValidAttendanceType(kind) ==> r == Err("Tipo de asistencia inválido")
    ensures IsValidAttendanceType(kind) && employeeId !in db.users ==> r == Err("Empleado no encontrado")
    ensures IsValidAttendanceType(kind) && employeeId in db.users && !db.users[employeeId].active ==>
              r == Err("Empleado inactivo")
    ensures r.Ok? <==> IsValidAttendanceType(kind) && employeeId in db.users && db.users[employeeId].active
    ensures r.Ok? ==> var row := AttendanceRow(newId, employeeId, kind, now, confidence);
                      r.value.1 == db.(attendance := db.attendance + [row]) &&
                      r.value.0 == ToView(db.users, row)
  {
    if !IsValidAttendanceType(kind) then Err("Tipo de asistencia inválido")
    else if employeeId !in db.users then Err("Empleado no encontrado")
    else if !db.users[employeeId].active then Err("Empleado inactivo")
    else
      var row := AttendanceRow(newId, employeeId, kind, now, confidence);
      Ok((ToView(db.users, row), db.(attendance := db.attendance + [row])))
  }

  /** The filters of `getAll`: a name fragment and inclusive timestamp
      bounds, already parsed to milliseconds. An empty name filter is the
      same as none. */
  datatype Filters = Filters(employeeName: Option<string>, start: Option<int>, end: Option<int>)

  /** The `where` clause of `getAll`: the row's employee exists, the
      employee's name contains the fragment, and the timestamp lies within
      the bounds that are given. */
  predicate Selected(users: map<string, User>, f: Filters, row: AttendanceRow) {
    && row.userId in users
    && (f.employeeName.None? || Contains(users[row.userId].name, f.employeeName.value))
    && (f.start.None? || row.timestamp >= f.start.value)
    && (f.end.None? || row.timestamp <= f.end.value)
  }

  function SelectRows(rows: seq<AttendanceRow>, users: map<string, User>, f: Filters): (r: seq<AttendanceRow>)
    ensures forall row :: row in r <==> row in rows && Selected(users, f, row)
    ensures multiset(r) <= multiset(rows)
    decreases |rows|
  {
    if |rows| == 0 then []
    else
      var last := rows[|rows| - 1];
      var prefix := rows[..|rows| - 1];
      assert rows == prefix + [last];
      SelectRows(prefix, users, f) + (if Selected(users, f, last) then [last] else [])
  }

  /** A selected row occurs in the selection as often as it is stored. */
  lemma {:induction false} SelectRowsKeepsCount(rows: seq<AttendanceRow>, users: map<string, User>, f: Filters,
                                                row: AttendanceRow)
    requires Selected(users, f, row)
    ensures multiset(SelectRows(rows, users, f))[row] == multiset(rows)[row]
    decreases |rows|
  {
    if |rows| > 0 {
      var last := rows[|rows| - 1];
      var prefix := rows[..|rows| - 1];
      assert rows == prefix + [last];
      SelectRowsKeepsCount(prefix, users, f, row);
    }
  }

  /** `orderBy: { timestamp: 'desc' }`. */
  ghost predicate NewestFirst(rows: seq<AttendanceRow>) {
    forall i, j :: 0 <= i < j < |rows| ==> rows[i].timestamp >= rows[j].timestamp
  }

  /** Places `x` before the first row no newer than it. */
  function InsertNewestFirst(x: AttendanceRow, s: seq<AttendanceRow>): (r: seq<AttendanceRow>)
    ensures |r| == |s| + 1
    ensures multiset(r) == multiset(s) + multiset{x}
    decreases |s|
  {
    if |s| == 0 || s[0].timestamp <= x.timestamp then [x] + s
    else
      assert s == [s[0]] + s[1..];
      [s[0]] + InsertNewestFirst(x, s[1..])
  }

  function SortNewestFirst(rows: seq<AttendanceRow>): (r: seq<AttendanceRow>)
    ensures multiset(r) == multiset(rows)
    decreases |rows|
  {
    if |rows| == 0 then []
    else
      assert rows == [rows[0]] + rows[1..];
      InsertNewestFirst(rows[0], SortNewestFirst(rows[1..]))
  }

  /** Inserting a row no newer than `t` into rows no newer than `t` yields
      rows no newer than `t`. */
  lemma {:induction false} InsertNewestFirstBelow(x: AttendanceRow, s: seq<AttendanceRow>, t: int)
    requires x.timestamp <= t
    requires forall i :: 0 <= i < |s| ==> s[i].timestamp <= t
    ensures forall i :: 0 <= i < |InsertNewestFirst(x, s)| ==> InsertNewestFirst(x, s)[i].timestamp <= t
    decreases |s|
  {
    if |s| > 0 && s[0].timestamp > x.timestamp {
      InsertNewestFirstBelow(x, s[1..], t);
      assert InsertNewestFirst(x, s) == [s[0]] + InsertNewestFirst(x, s[1..]);
    }
  }

  lemma {:induction false} InsertNewestFirstSorted(x: AttendanceRow, s: seq<AttendanceRow>)
    requires NewestFirst(s)
    ensures NewestFirst(InsertNewestFirst(x, s))
    decreases |s|
  {
    if |s| > 0 && s[0].timestamp > x.timestamp {
      var tail := InsertNewestFirst(x, s[1..]);
      InsertNewestFirstSorted(x, s[1..]);
      InsertNewestFirstBelow(x, s[1..], s[0].timestamp);
      var r := InsertNewestFirst(x, s);
      assert r == [s[0]] + tail;
      forall i, j | 0 <= i < j < |r|
        ensures r[i].timestamp >= r[j].timestamp
      {
        assert r[j] == tail[j - 1];
        if i > 0 {
          assert r[i] == tail[i - 1];
        }
      }
    }
  }

  lemma {:induction false} SortNewestFirstSorted(rows: seq<AttendanceRow>)
    ensures NewestFirst(SortNewestFirst(rows))
    decreases |rows|
  {
    if |rows| > 0 {
      SortNewestFirstSorted(rows[1..]);
      InsertNewestFirstSorted(rows[0], SortNewestFirst(rows[1..]));
    }
  }

  /** A row of `getAll`. */
  datatype AttendanceView = AttendanceView(id: string, employeeName: string, employeeArea: string,
                                           kind: string, timestamp: int, confidence: real)

  function ToView(users: map<string, User>, row: AttendanceRow): (v: AttendanceView)
    requires row.userId in users
    ensures v.id == row.id && v.kind == row.kind && v.timestamp == row.timestamp && v.confidence == row.confidence
    ensures v.employeeName == users[row.userId].name && v.employeeArea == AreaOrDefault(users[row.userId].area)
  {
    var u := users[row.userId];
    AttendanceView(row.id, u.name, AreaOrDefault(u.area), row.kind, row.timestamp, row.confidence)
  }

  function ToViews(users: map<string, User>, rows: seq<AttendanceRow>): (r: seq<AttendanceView>)
    requires forall row :: row in rows ==> row.userId in users
    ensures |r| == |rows|
    ensures forall i :: 0 <= i < |rows| ==> r[i] == ToView(users, rows[i])
    decreases |rows|
  {
    if |rows| == 0 then [] else [ToView(users, rows[0])] + ToViews(users, rows[1..])
  }

  /** The rows `getAll(filters)` returns, newest first. */
  function SelectedRows(db: Db, f: Filters): (r: seq<AttendanceRow>)
    ensures forall row :: row in r ==> row.userId in db.users
  {
    var selected := SelectRows(db.attendance, db.users, f);
    var sorted := SortNewestFirst(selected);
    forall row | row in sorted
      ensures row.userId in db.users
    {
      assert row in multiset(sorted);
      assert row in selected;
      assert Selected(db.users, f, row);
    }
    sorted
  }

  /** `getAll(filters)`. */
  function GetAll(db: Db, f: Filters): (r: seq<AttendanceView>)
    ensures |r| == |SelectedRows(db, f)|
  {
    ToViews(db.users, SelectedRows(db, f))
  }

  /** `getAll` returns every selected row exactly as often as it is stored,
      nothing else, newest first. */
  lemma {:induction false} GetAllSelects(db: Db, f: Filters)
    ensures multiset(SelectedRows(db, f)) == multiset(SelectRows(db.attendance, db.users, f))
    ensures forall row :: row in SelectedRows(db, f) <==> row in db.attendance && Selected(db.users, f, row)
    ensures NewestFirst(SelectedRows(db, f))
    ensures forall i, j :: 0 <= i < j < |GetAll(db, f)| ==> GetAll(db, f)[i].timestamp >= GetAll(db, f)[j].timestamp
  {
    var selected := SelectRows(db.attendance, db.users, f);
    SortNewestFirstSorted(selected);
    assert forall row :: row in SelectedRows(db, f) <==> row in multiset(selected);
  }

  const CsvHeader: string := "Empleado,Área,Tipo,Fecha y Hora,Confianza"

  /** `${Math.round(confidence * 100)}%`. */
  function Percent(confidence: real): (s: string)
    ensures |s| >= 2 && s[|s| - 1] == '%'
    ensures ',' !in s && '\n' !in s
  {
    var digits := IntToString(Round(confidence * 100.0));
    IntToStringPlain(Round(confidence * 100.0));
    digits + "%"
  }

  /** The decimal form of an integer holds no separator character. */
  lemma IntToStringPlain(n: int)
    ensures ',' !in IntToString(n) && '\n' !in IntToString(n)
  {
    var s := IntToString(n);
    var digits := NatToString(if n < 0 then -n else n);
    assert forall i :: 0 <= i < |digits| ==> digits[i] != ',' && digits[i] != '\n';
    assert forall i :: 0 <= i < |s| ==> s[i] == '-' || s[i] in digits;
  }

  /** The five fields of a record's CSV line. */
  function CsvFields(v: AttendanceView, iso: int -> string): (fields: seq<string>)
    ensures |fields| == 5
    ensures fields[0] == v.employeeName && fields[1] == v.employeeArea && fields[2] == v.kind
    ensures fields[3] == iso(v.timestamp) && fields[4] == Percent(v.confidence)
  {
    [v.employeeName, v.employeeArea, v.kind, iso(v.timestamp), Percent(v.confidence)]
  }

  function CsvLines(records: seq<AttendanceView>, iso: int -> string): (lines: seq<string>)
    ensures |lines| == |records|
    decreases |records|
  {
    if |records| == 0 then []
    else [Join(CsvFields(records[0], iso), ',')] + CsvLines(records[1..], iso)
  }

  /** `exportCSV(filters)` over the rows `getAll` returned; `iso` is
      `Date.prototype.toISOString`. */
  function ExportCsv(records: seq<AttendanceView>, iso: int -> string): (csv: string)
    ensures StartsWith(csv, CsvHeader)
  {
    var lines := [CsvHeader] + CsvLines(records, iso);
    assert lines[0] == CsvHeader;
    JoinStartsWithFirst(lines, '\n');
    Join(lines, '\n')
  }

  lemma {:induction false} JoinStartsWithFirst(lines: seq<string>, sep: char)
    requires |lines| >= 1
    ensures StartsWith(Join(lines, sep), lines[0])
  {
    if |lines| > 1 {
      assert Join(lines, sep) == lines[0] + [sep] + Join(lines[1..], sep);
    }
  }

  /** No text field of a record holds a comma or a line break. */
  predicate PlainFields(v: AttendanceView, iso: int -> string) {
    && ',' !in v.employeeName && ',' !in v.employeeArea && ',' !in v.kind && ',' !in iso(v.timestamp)
    && '\n' !in v.employeeName && '\n' !in v.employeeArea && '\n' !in v.kind && '\n' !in iso(v.timestamp)
  }

  /** Reading the export back: the header, then one line per record whose
      comma-separated fields are the record's, as long as no field holds a
      comma or line break (the export does no quoting). */
  lemma {:induction false} ExportCsvRoundTrip(records: seq<AttendanceView>, iso: int -> string)
    requires forall i :: 0 <= i < |records| ==> PlainFields(records[i], iso)
    ensures var lines := Split(ExportCsv(records, iso), '\n');
            && |lines| == |records| + 1
            && lines[0] == CsvHeader
            && forall i :: 0 <= i < |records| ==> Split(lines[i + 1], ',') == CsvFields(records[i], iso)
  {
    var body := CsvLines(records, iso);
    var lines := [CsvHeader] + body;
    assert ExportCsv(records, iso) == Join(lines, '\n');
    CsvLinesPlain(records, iso);
    HeaderPlain();
    assert forall i :: 0 <= i < |lines| ==> '\n' !in lines[i] by {
      assert lines[0] == CsvHeader;
      assert forall i :: 1 <= i < |lines| ==> lines[i] == body[i - 1];
    }
    SplitJoin(lines, '\n');
    forall i | 0 <= i < |records|
      ensures Split(lines[i + 1], ',') == CsvFields(records[i], iso)
    {
      assert lines[i + 1] == body[i];
      CsvLineAt(records, iso, i);
      CsvLineRoundTrip(records[i], iso);
    }
  }

  lemma HeaderPlain()
    ensures '\n' !in CsvHeader
  {
    assert forall k :: 0 <= k < |CsvHeader| ==> CsvHeader[k] != '\n';
  }

  /** No line of the body holds a line break. */
  lemma {:induction false} CsvLinesPlain(records: seq<AttendanceView>, iso: int -> string)
    requires forall i :: 0 <= i < |records| ==> PlainFields(records[i], iso)
    ensures forall i :: 0 <= i < |records| ==> '\n' !in CsvLines(records, iso)[i]
  {
    forall i | 0 <= i < |records|
      ensures '\n' !in CsvLines(records, iso)[i]
    {
      CsvLineAt(records, iso, i);
      CsvLineRoundTrip(records[i], iso);
    }
  }

  /** One record's line holds no line break and splits back into its fields. */
  lemma CsvLineRoundTrip(v: AttendanceView, iso: int -> string)
    requires PlainFields(v, iso)
    ensures '\n' !in Join(CsvFields(v, iso), ',')
    ensures Split(Join(CsvFields(v, iso), ','), ',') == CsvFields(v, iso)
  {
    FieldsPlain(v, iso);
    JoinFree(CsvFields(v, iso), ',', '\n');
    SplitJoin(CsvFields(v, iso), ',');
  }

  lemma FieldsPlain(v: AttendanceView, iso: int -> string)
    requires PlainFields(v, iso)
    ensures forall k :: 0 <= k < 5 ==> ',' !in CsvFields(v, iso)[k] && '\n' !in CsvFields(v, iso)[k]
  {
  }

  /** Line `i` of the body is the joined fields of record `i`. */
  lemma {:induction false} CsvLineAt(records: seq<AttendanceView>, iso: int -> string, i: nat)
    requires i < |records|
    ensures CsvLines(records, iso)[i] == Join(CsvFields(records[i], iso), ',')
    decreases i
  {
    var rest := CsvLines(records[1..], iso);
    assert CsvLines(records, iso) == [Join(CsvFields(records[0], iso), ',')] + rest;
    if i > 0 {
      CsvLineAt(records[1..], iso, i - 1);
      assert records[1..][i - 1] == records[i];
      assert CsvLines(records, iso)[i] == rest[i - 1];
    }
  }

  /** Joining lines free of `c` with a separator other than `c` gives text free of `c`. */
  lemma {:induction false} JoinFree(lines: seq<string>, sep: char, c: char)
    requires sep != c && forall i :: 0 <= i < |lines| ==> c !in lines[i]
    ensures c !in Join(lines, sep)
    decreases |lines|
  {
    if |lines| > 1 {
      JoinFree(lines[1..], sep, c);
    }
  }
}
