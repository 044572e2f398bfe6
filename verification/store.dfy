/** The persisted state the backend services read and write through Prisma
    (backend/prisma schema: `usuario`, `imagen`, `embedding`, `asistencia`),
    held as one immutable value. Identifiers the database generates and the
    clock are supplied by the caller of each operation.
 */
module Store {

  import opened Wrappers
  import opened Recognition

  /** A `usuario` row; `rol` is stored as a string. */
  datatype User = User(id: string, name: string, rol: string, active: bool,
                       area: Option<string>, position: Option<string>,
                       email: Option<string>, passwordHash: Option<string>)

  /** An `imagen` row: a stored photograph of an employee. */
  datatype ImageRow = ImageRow(id: string, ownerId: string, uri: string)

  /** An `embedding` row: the vector computed from one image. */
  datatype EmbeddingRow = EmbeddingRow(imageId: string, vector: seq<real>)

  /** An `asistencia` row; `timestamp` is in milliseconds. */
  datatype AttendanceRow = AttendanceRow(id: string, userId: string, kind: string, timestamp: int, confidence: real)

  /** The database. Rows of each table are kept in insertion order, and
      attendance rows are inserted with non-decreasing timestamps. */
  datatype Db = Db(users: map<string, User>, images: seq<ImageRow>,
                   embeddings: seq<EmbeddingRow>, attendance: seq<AttendanceRow>)

  /** The owner of the image with id `imageId`, searching from the end. */
  function ImageOwner(images: seq<ImageRow>, imageId: string): (r: Option<string>)
    ensures r.Some? ==> exists img :: img in images && img.id == imageId && img.ownerId == r.value
    ensures r.None? ==> forall img :: img in images ==> img.id != imageId
    decreases |images|
  {
    if |images| == 0 then None
    else
      var last := images[|images| - 1];
      var prefix := images[..|images| - 1];
      assert forall x :: x in images <==> x in prefix || x == last;
      if last.id == imageId then Some(last.ownerId) else ImageOwner(prefix, imageId)
  }

  /** `usuario.imagenes`: the images of one user, in insertion order. */
  function UserImages(images: seq<ImageRow>, userId: string): (r: seq<ImageRow>)
    ensures forall img :: img in r <==> img in images && img.ownerId == userId
    ensures |r| <= |images|
    decreases |images|
  {
    if |images| == 0 then []
    else
      var last := images[|images| - 1];
      var prefix := images[..|images| - 1];
      assert forall x :: x in images <==> x in prefix || x == last;
      UserImages(prefix, userId) + (if last.ownerId == userId then [last] else [])
  }

  /** The embeddings joined with their image's owner: the rows
      `findBestMatch` filters on `usuario.activo`. Rows whose image or user
      is missing do not join. */
  function StoredEmbeddings(db: Db): (r: seq<StoredEmbedding>)
    ensures |r| <= |db.embeddings|
    ensures forall row :: row in db.embeddings && OwnerOf(db.images, db.users, row).Some? ==>
              Joined(db.users, OwnerOf(db.images, db.users, row).value, row.vector) in r
    ensures forall e :: e in r ==>
              exists row :: row in db.embeddings && OwnerOf(db.images, db.users, row).Some? &&
                            e == Joined(db.users, OwnerOf(db.images, db.users, row).value, row.vector)
  {
    JoinOwners(db.embeddings, db.images, db.users)
  }

  /** The owner of an embedding's image, when both the image and the user
      exist. */
  function OwnerOf(images: seq<ImageRow>, users: map<string, User>, row: EmbeddingRow): (r: Option<string>)
    ensures r.Some? ==> r.value in users
  {
    match ImageOwner(images, row.imageId)
    case None => None
    case Some(uid) => if uid in users then Some(uid) else None
  }

  /** An embedding joined with its owner's row. */
  function Joined(users: map<string, User>, uid: string, vector: seq<real>): (e: StoredEmbedding)
    requires uid in users
    ensures e.owner.id == uid && e.ownerActive == users[uid].active && e.vector == vector
  {
    StoredEmbedding(Owner(uid, users[uid].name, users[uid].area), users[uid].active, vector)
  }

  function JoinOwners(rows: seq<EmbeddingRow>, images: seq<ImageRow>, users: map<string, User>): (r: seq<StoredEmbedding>)
    ensures |r| <= |rows|
    ensures forall e :: e in r ==> e.owner.id in users && e.ownerActive == users[e.owner.id].active
    ensures forall row :: row in rows && OwnerOf(images, users, row).Some? ==>
              Joined(users, OwnerOf(images, users, row).value, row.vector) in r
    ensures forall e :: e in r ==>
              exists row :: row in rows && OwnerOf(images, users, row).Some? &&
                            e == Joined(users, OwnerOf(images, users, row).value, row.vector)
    decreases |rows|
  {
    if |rows| == 0 then []
    else
      var last := rows[|rows| - 1];
      assert forall x :: x in rows <==> x in rows[..|rows| - 1] || x == last;
      var prefix := JoinOwners(rows[..|rows| - 1], images, users);
      match OwnerOf(images, users, last)
      case None => prefix
      case Some(uid) => prefix + [Joined(users, uid, last.vector)]
  }
}
