/**
 * The state both upload handlers work on: the `uploads` table of the
 * metadata store, the object-store bucket, and the temp directory in which
 * the multipart middleware stages each incoming file.
 */
module Storage {
  import opened Common

  /** The `status` column, ENUM('original','duplikat'). */
  datatype Status = Original | Duplikat

  /** The text the database returns for a status value. */
  function StatusText(s: Status): string
  {
    match s
    case Original => "original"
    case Duplikat => "duplikat"
  }

  /**
   * One row of `uploads` (columns of the CREATE TABLE in app.js).
   * `status` is None when the inserting handler did not supply the column.
   * `uploadDate` is the server timestamp the row received at insert time.
   */
  datatype Row = Row(
    id: nat,
    nama: string,
    nrp: string,
    originalFilename: string,
    s3Filename: string,
    s3Url: string,
    fileSize: nat,
    uploadDate: int,
    status: Option<Status>)

  /** The values a handler passes to INSERT; the table adds `id` and `upload_date`. */
  datatype InsertValues = InsertValues(
    nama: string,
    nrp: string,
    originalFilename: string,
    s3Filename: string,
    s3Url: string,
    fileSize: nat,
    status: Option<Status>)

  /**
   * A snapshot of the three stores: table rows in insertion order, bucket
   * contents by key, the paths of staged temp files, and the next
   * AUTO_INCREMENT id.
   */
  datatype Stores = Stores(
    rows: seq<Row>,
    objects: map<string, seq<Byte>>,
    staged: set<string>,
    nextId: nat)

  /** The application-level admission rule: no two rows share `original_filename`. */
  predicate UniqueOriginalNames(rows: seq<Row>)
  {
    forall i, j :: 0 <= i < j < |rows| ==> rows[i].originalFilename != rows[j].originalFilename
  }

  /** Every row points at an object that exists in the bucket. */
  predicate RowsBacked(s: Stores)
  {
    forall i :: 0 <= i < |s.rows| ==> s.rows[i].s3Filename in s.objects
  }

  /** AUTO_INCREMENT ids: strictly increasing in insertion order, all below `nextId`. */
  predicate IdsAscending(s: Stores)
  {
    && (forall i :: 0 <= i < |s.rows| ==> s.rows[i].id < s.nextId)
    && (forall i, j :: 0 <= i < j < |s.rows| ==> s.rows[i].id < s.rows[j].id)
  }

  /**
   * `SELECT id FROM uploads WHERE original_filename = ? LIMIT 1`: the id of a
   * matching row, or None when there is none.
   */
  function FindByOriginalName(rows: seq<Row>, name: string): (r: Option<nat>)
    ensures r.None? <==> forall i :: 0 <= i < |rows| ==> rows[i].originalFilename != name
    ensures r.Some? ==> exists i :: 0 <= i < |rows| && rows[i].originalFilename == name && rows[i].id == r.value
    decreases |rows|
  {
    if rows == [] then None
    else if rows[0].originalFilename == name then Some(rows[0].id)
    else
      var r := FindByOriginalName(rows[1..], name);
      assert forall i :: 1 <= i < |rows| ==> rows[i] == rows[1..][i - 1];
      r
  }

  /** `s3.upload`: stores `content` under `key`, replacing any object already there. */
  function Put(s: Stores, key: string, content: seq<Byte>): Stores
  {
    s.(objects := s.objects[key := content])
  }

  /** INSERT INTO uploads: appends one row with the next id and the current time. */
  function Insert(s: Stores, v: InsertValues, now: int): Stores
  {
    var row := Row(s.nextId, v.nama, v.nrp, v.originalFilename, v.s3Filename, v.s3Url, v.fileSize, now, v.status);
    s.(rows := s.rows + [row], nextId := s.nextId + 1)
  }

  /**
   * Removing a staged file. The calls guarded by `fs.existsSync` skip a path
   * that is already gone; an unguarded `fs.unlinkSync` would throw instead,
   * which the model does not represent.
   */
  function Unlinked(s: Stores, path: string): Stores
  {
    s.(staged := s.staged - {path})
  }

  lemma InsertKeepsIds(s: Stores, v: InsertValues, now: int)
    requires IdsAscending(s)
    ensures IdsAscending(Insert(s, v, now))
    ensures Insert(s, v, now).rows[|s.rows|].id == s.nextId
  {
  }

  /**
   * The live stores as one object whose fields the handlers update in
   * place. Each method is one call into a store.
   */
  class Backend {
    var rows: seq<Row>
    var objects: map<string, seq<Byte>>
    var staged: set<string>
    var nextId: nat

    /** The row ids are the ones AUTO_INCREMENT hands out. */
    ghost predicate Valid()
      reads this
    {
      IdsAscending(Snapshot())
    }

    function Snapshot(): Stores
      reads this
    {
      Stores(rows, objects, staged, nextId)
    }

    /** Empty table and bucket; `staged` holds the files already staged. */
    constructor (staged: set<string>)
      ensures Valid()
      ensures Snapshot() == Stores([], map[], staged, 1)
    {
      this.rows := [];
      this.objects := map[];
      this.staged := staged;
      this.nextId := 1;
    }

    method PutObject(key: string, content: seq<Byte>)
      modifies this`objects
      ensures Snapshot() == Put(old(Snapshot()), key, content)
    {
      objects := objects[key := content];
    }

    method InsertRow(v: InsertValues, now: int)
      requires Valid()
      modifies this`rows, this`nextId
      ensures Valid()
      ensures Snapshot() == Insert(old(Snapshot()), v, now)
    {
      InsertKeepsIds(Snapshot(), v, now);
      rows := rows + [Row(nextId, v.nama, v.nrp, v.originalFilename, v.s3Filename, v.s3Url, v.fileSize, now, v.status)];
      nextId := nextId + 1;
    }

    method Unlink(path: string)
      modifies this`staged
      ensures Snapshot() == Unlinked(old(Snapshot()), path)
    {
      staged := staged - {path};
    }
  }
}
