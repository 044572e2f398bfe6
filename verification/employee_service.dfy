/** Employee administration (backend/src/services/employee_service.ts):
    the `activo` form parsing, the role guard of `getById`, `toggleStatus`,
    and the per-image bookkeeping of `generateEmbeddingsForEmployee`.
 */
module EmployeeService {

  import opened Wrappers
  import opened Constants
  import opened FaceDetection
  import opened FaceEmbedding
  import opened Store

  /** The `activo` field of a create or update request as the backend
      receives it: missing, a multipart form string, or a JSON boolean.
      The edit form sends JSON when no new photo was picked
      (frontend/src/services/employees.ts). */
  datatype FieldValue = Absent | Text(text: string) | Flag(flag: bool)

  /** JavaScript's `String(b)`, which the multipart form sends. */
  function BoolText(b: bool): (s: string)
    ensures s == "true" || s == "false"
    ensures s == "false" <==> !b
  {
    if b then "true" else "false"
  }

  /** `data.activo !== 'false'` as written: every value other than the
      exact string "false", a missing one and a JSON boolean included,
      means active. */
  function ParseActive(value: FieldValue): (active: bool)
    ensures !active <==> value == Text("false")
  {
    !(value.Text? && value.text == "false")
  }

  /** A form string sent with `String(activo)` reads back as the flag. */
  lemma ParseActiveFormRoundTrip(b: bool)
    ensures ParseActive(Text(BoolText(b))) == b
  {
  }

  /** A JSON `false` is not the string "false": an edit without new photos
      that clears the flag keeps the employee active. */
  lemma ParseActiveJsonFalse()
    ensures ParseActive(Flag(false))
    ensures !ParseActiveIntended(Flag(false))
  {
  }

  /** The reading both encodings of the edit form call for: a JSON boolean
      is taken as it is, a string as before. */
  function ParseActiveIntended(value: FieldValue): (active: bool)
    ensures value.Flag? ==> active == value.flag
    ensures value.Text? ==> (active <==> value.text != "false")
    ensures value.Absent? ==> active
  {
    match value
    case Absent => true
    case Text(t) => t != "false"
    case Flag(b) => b
  }

  /** Under the intended reading both encodings of a flag read back as the
      flag, and it agrees with the code on every non-boolean value. */
  lemma ParseActiveIntendedRoundTrip(b: bool, value: FieldValue)
    ensures ParseActiveIntended(Text(BoolText(b))) == b
    ensures ParseActiveIntended(Flag(b)) == b
    ensures !value.Flag? ==> ParseActiveIntended(value) == ParseActive(value)
  {
  }

  /** The object `getById` returns. */
  datatype EmployeeView = EmployeeView(id: string, name: string, position: Option<string>,
                                       area: Option<string>, active: bool, imageCount: nat,
                                       images: seq<ImageRow>)

  const NotFound: string := "Empleado no encontrado"
  const NoImages: string := "El empleado no tiene imágenes registradas"

  /** `getById(id)`: only users whose role is EMPLEADO are employees. */
  function GetById(db: Db, id: string): (r: Result<EmployeeView>)
    ensures r.Ok? <==> id in db.users && db.users[id].rol == Employee
    ensures r.Err? ==> r.error == NotFound
    ensures r.Ok? ==> && r.value.id == id && r.value.active == db.users[id].active
                      && r.value.name == db.users[id].name
                      && r.value.imageCount == |r.value.images|
                      && (forall img :: img in r.value.images <==> img in db.images && img.ownerId == id)
  {
    if id !in db.users || db.users[id].rol != Employee then Err(NotFound)
    else
      var u := db.users[id];
      var images := UserImages(db.images, id);
      Ok(EmployeeView(id, u.name, u.position, u.area, u.active, |images|, images))
  }

  /** `toggleStatus(id)`: the database afterwards and the response. The
      flag is flipped for any existing user; the response then goes
      through `getById`, so toggling an administrator changes the database
      and still answers "not found". */
  function ToggleStatus(db: Db, id: string): (r: (Result<EmployeeView>, Db))
    ensures id !in db.users ==> r == (Err(NotFound), db)
    ensures id in db.users ==> && r.1 == db.(users := db.users[id := db.users[id].(active := !db.users[id].active)])
                               && r.0 == GetById(r.1, id)
  {
    if id !in db.users then (Err(NotFound), db)
    else
      var u := db.users[id];
      var db' := db.(users := db.users[id := u.(active := !u.active)]);
      (GetById(db', id), db')
  }

  /** Toggling twice restores the database. */
  lemma {:induction false} ToggleTwice(db: Db, id: string)
    ensures ToggleStatus(ToggleStatus(db, id).1, id).1 == db
  {
    if id in db.users {
      var db1 := ToggleStatus(db, id).1;
      assert db1.users[id].(active := !db1.users[id].active) == db.users[id];
      assert db1.users[id := db.users[id]] == db.users;
    }
  }

  /** The toggle changes nothing but the one flag, and the response reports
      the new value for an employee. */
  lemma {:induction false} ToggleFlipsOnlyFlag(db: Db, id: string)
    requires id in db.users
    ensures var db' := ToggleStatus(db, id).1;
            && db'.users.Keys == db.users.Keys
            && db'.users[id].active != db.users[id].active
            && (forall other :: other in db.users && other != id ==> db'.users[other] == db.users[other])
            && db'.images == db.images && db'.embeddings == db.embeddings && db'.attendance == db.attendance
    ensures db.users[id].rol == Employee ==>
              ToggleStatus(db, id).0.Ok? && ToggleStatus(db, id).0.value.active == !db.users[id].active
  {
  }

  /** What one stored image yields: the model runs on the photograph and
      on its aligned crop, and the ArcFace output for the crop. A uri
      without an entry is a file that cannot be read. */
  datatype ImageInputs = ImageInputs(capture: ModelRun, aligned: ModelRun, arcface: ArcFaceOutput)

  ghost predicate ValidFiles(files: map<string, ImageInputs>) {
    forall uri :: uri in files ==> ValidRun(files[uri].capture, DefaultSizes) && ValidRun(files[uri].aligned, DefaultSizes)
  }

  /** How one image is handled inside the loop. */
  datatype ImageOutcome = Skipped | Failed | Embedded(vector: seq<real>)

  /** The ids of images that already had an embedding when the call began. */
  function EmbeddedIds(embeddings: seq<EmbeddingRow>): (ids: set<string>)
    ensures forall id :: id in ids <==> exists e :: e in embeddings && e.imageId == id
  {
    set e | e in embeddings :: e.imageId
  }

  /** The body of the `for` loop for one image: skip an embedded one; any
      step that throws (reading the file, finding no face, the second
      detection inside the embedding, a bad model output) marks it failed. */
  function Outcome(img: ImageRow, embedded: set<string>, files: map<string, ImageInputs>,
                   sigmoid: real -> real, sqrt: real -> real): (o: ImageOutcome)
    requires ValidFiles(files)
    ensures o.Skipped? <==> img.id in embedded
    ensures img.id !in embedded && img.uri !in files ==> o.Failed?
    ensures o.Embedded? ==> && img.uri in files
                            && DetectMainFace(files[img.uri].capture, DefaultSizes, DefaultScoreThreshold,
                                              DefaultNmsThreshold, sigmoid).Ok?
                            && DetectMainFace(files[img.uri].capture, DefaultSizes, DefaultScoreThreshold,
                                              DefaultNmsThreshold, sigmoid).value.Some?
                            && files[img.uri].arcface.Some?
                            && o.vector == L2Normalize(files[img.uri].arcface.value, sqrt)
  {
    if img.id in embedded then Skipped
    else if img.uri !in files then Failed
    else
      var inputs := files[img.uri];
      match DetectMainFace(inputs.capture, DefaultSizes, DefaultScoreThreshold, DefaultNmsThreshold, sigmoid)
      case Err(_) => Failed
      case Ok(None) => Failed
      case Ok(Some(_)) =>
        match ComputeEmbeddingFromImage(inputs.aligned, inputs.arcface, sigmoid, sqrt)
        case Err(_) => Failed
        case Ok(v) => Embedded(v)
  }

  /** Reference definitions of the loop's results over a list of images. */
  function FailedIds(images: seq<ImageRow>, embedded: set<string>, files: map<string, ImageInputs>,
                     sigmoid: real -> real, sqrt: real -> real): (ids: seq<string>)
    requires ValidFiles(files)
    ensures forall id :: id in ids ==> exists img :: img in images && img.id == id && img.id !in embedded
    decreases |images|
  {
    if |images| == 0 then []
    else
      var last := images[|images| - 1];
      var prefix := images[..|images| - 1];
      assert forall x :: x in prefix ==> x in images;
      FailedIds(prefix, embedded, files, sigmoid, sqrt) +
        (if Outcome(last, embedded, files, sigmoid, sqrt).Failed? then [last.id] else [])
  }

  function CreatedRows(images: seq<ImageRow>, embedded: set<string>, files: map<string, ImageInputs>,
                       sigmoid: real -> real, sqrt: real -> real): (rows: seq<EmbeddingRow>)
    requires ValidFiles(files)
    ensures forall row :: row in rows ==> exists img :: img in images && img.id == row.imageId && img.id !in embedded
    decreases |images|
  {
    if |images| == 0 then []
    else
      var last := images[|images| - 1];
      var prefix := images[..|images| - 1];
      assert forall x :: x in prefix ==> x in images;
      var o := Outcome(last, embedded, files, sigmoid, sqrt);
      CreatedRows(prefix, embedded, files, sigmoid, sqrt) +
        (if o.Embedded? then [EmbeddingRow(last.id, o.vector)] else [])
  }

  function SkippedCount(images: seq<ImageRow>, embedded: set<string>): (n: nat)
    ensures n <= |images|
    ensures n == 0 <==> forall img :: img in images ==> img.id !in embedded
    decreases |images|
  {
    if |images| == 0 then 0
    else
      var last := images[|images| - 1];
      var prefix := images[..|images| - 1];
      assert forall x :: x in images <==> x in prefix || x == last;
      SkippedCount(prefix, embedded) + (if last.id in embedded then 1 else 0)
  }

  /** Every image is exactly one of created, failed or skipped. */
  lemma {:induction false} OutcomesPartition(images: seq<ImageRow>, embedded: set<string>,
                                             files: map<string, ImageInputs>, sigmoid: real -> real, sqrt: real -> real)
    requires ValidFiles(files)
    ensures |CreatedRows(images, embedded, files, sigmoid, sqrt)| + |FailedIds(images, embedded, files, sigmoid, sqrt)|
              + SkippedCount(images, embedded) == |images|
    decreases |images|
  {
    if |images| > 0 {
      OutcomesPartition(images[..|images| - 1], embedded, files, sigmoid, sqrt);
    }
  }

  /** The report `generateEmbeddingsForEmployee` returns. */
  datatype Report = Report(employeeId: string, imagesFound: nat, embeddingsCreated: nat, imagesWithError: seq<string>)

  /** `generateEmbeddingsForEmployee(employeeId)`: the report, or the guard
      that threw, and the database afterwards. Images are visited in
      storage order; each failure is recorded and the loop goes on. */
  method GenerateEmbeddings(db: Db, employeeId: string, files: map<string, ImageInputs>,
                            sigmoid: real -> real, sqrt: real -> real)
    returns (r: Result<Report>, db': Db)
    requires ValidFiles(files)
    ensures employeeId !in db.users || db.users[employeeId].rol != Employee ==> r == Err(NotFound) && db' == db
    ensures employeeId in db.users && db.users[employeeId].rol == Employee && UserImages(db.images, employeeId) == [] ==>
              r == Err(NoImages) && db' == db
    ensures r.Err? ==> db' == db
    ensures r.Ok? ==>
              var images := UserImages(db.images, employeeId);
              var embedded := EmbeddedIds(db.embeddings);
              && employeeId in db.users && db.users[employeeId].rol == Employee && |images| > 0
              && r.value.employeeId == employeeId
              && r.value.imagesFound == |images|
              && r.value.imagesWithError == FailedIds(images, embedded, files, sigmoid, sqrt)
              && r.value.embeddingsCreated == |CreatedRows(images, embedded, files, sigmoid, sqrt)|
              && r.value.embeddingsCreated + |r.value.imagesWithError| + SkippedCount(images, embedded) == r.value.imagesFound
              && db' == db.(embeddings := db.embeddings + CreatedRows(images, embedded, files, sigmoid, sqrt))
  {
    if employeeId !in db.users || db.users[employeeId].rol != Employee {
      return Err(NotFound), db;
    }
    var images := UserImages(db.images, employeeId);
    if |images| == 0 {
      return Err(NoImages), db;
    }
    var embedded := EmbeddedIds(db.embeddings);
    var created: nat := 0;
    var errors: seq<string> := [];
    var newRows: seq<EmbeddingRow> := [];
    for i := 0 to |images|
      invariant errors == FailedIds(images[..i], embedded, files, sigmoid, sqrt)
      invariant newRows == CreatedRows(images[..i], embedded, files, sigmoid, sqrt)
      invariant created == |newRows|
    {
      var img := images[i];
      var o := Outcome(img, embedded, files, sigmoid, sqrt);
      ExtendPrefix(images, i, embedded, files, sigmoid, sqrt);
      if o.Skipped? {
        continue;
      }
      if o.Failed? {
        errors := errors + [img.id];
      } else {
        newRows := newRows + [EmbeddingRow(img.id, o.vector)];
        created := created + 1;
      }
    }
    assert images[..|images|] == images;
    OutcomesPartition(images, embedded, files, sigmoid, sqrt);
    r := Ok(Report(employeeId, |images|, created, errors));
    db' := db.(embeddings := db.embeddings + newRows);
  }

  /** The reference results for one more image. */
  lemma {:induction false} ExtendPrefix(images: seq<ImageRow>, i: nat, embedded: set<string>,
                     files: map<string, ImageInputs>, sigmoid: real -> real, sqrt: real -> real)
    requires ValidFiles(files) && i < |images|
    ensures var o := Outcome(images[i], embedded, files, sigmoid, sqrt);
            && FailedIds(images[..i + 1], embedded, files, sigmoid, sqrt) ==
                 FailedIds(images[..i], embedded, files, sigmoid, sqrt) + (if o.Failed? then [images[i].id] else [])
            && CreatedRows(images[..i + 1], embedded, files, sigmoid, sqrt) ==
                 CreatedRows(images[..i], embedded, files, sigmoid, sqrt) +
                 (if o.Embedded? then [EmbeddingRow(images[i].id, o.vector)] else [])
  {
    assert images[..i + 1][..i] == images[..i];
  }

  /** A second run creates nothing: every image either got its embedding in
      the first run or fails again. */
  lemma {:induction false} RerunCreatesNothing(images: seq<ImageRow>, embedded: set<string>,
                                               files: map<string, ImageInputs>, sigmoid: real -> real, sqrt: real -> real)
    requires ValidFiles(files)
    ensures var again := embedded + set row | row in CreatedRows(images, embedded, files, sigmoid, sqrt) :: row.imageId;
            CreatedRows(images, again, files, sigmoid, sqrt) == []
    decreases |images|
  {
    if |images| > 0 {
      var last := images[|images| - 1];
      var prefix := images[..|images| - 1];
      var rows := CreatedRows(images, embedded, files, sigmoid, sqrt);
      var again := embedded + set row | row in rows :: row.imageId;
      var prefixRows := CreatedRows(prefix, embedded, files, sigmoid, sqrt);
      var againPrefix := embedded + set row | row in prefixRows :: row.imageId;
      RerunCreatesNothing(prefix, embedded, files, sigmoid, sqrt);
      assert againPrefix <= again;
      MoreEmbeddedCreatesNothing(prefix, againPrefix, again, files, sigmoid, sqrt);
      var o := Outcome(last, embedded, files, sigmoid, sqrt);
      if o.Embedded? {
        assert EmbeddingRow(last.id, o.vector) in rows;
        assert last.id in again;
      }
    }
  }

  /** Knowing more embedded ids never adds created rows where there were none. */
  lemma {:induction false} MoreEmbeddedCreatesNothing(images: seq<ImageRow>, small: set<string>, large: set<string>,
                                                      files: map<string, ImageInputs>, sigmoid: real -> real, sqrt: real -> real)
    requires ValidFiles(files)
    requires small <= large
    requires CreatedRows(images, small, files, sigmoid, sqrt) == []
    ensures CreatedRows(images, large, files, sigmoid, sqrt) == []
    decreases |images|
  {
    if |images| > 0 {
      var prefix := images[..|images| - 1];
      MoreEmbeddedCreatesNothing(prefix, small, large, files, sigmoid, sqrt);
    }
  }
}
