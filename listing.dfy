/**
 * `GET /api/files`: list the rows of `uploads`; only when reading them throws,
 * list the bucket instead; when both throw, report one error. The outcome of
 * each store call is an input. `rows == None` stands for a try block that
 * threw: the SELECT itself, or the `connection.end()` after it. `objects ==
 * None` stands for a bucket listing that threw.
 */
module Listing {
  import opened Common
  import opened Storage
  import FileSize

  /**
   * One record of the JSON list. Properties a record does not carry are
   * None. `uploadDate` keeps the timestamp the record is built from.
   */
  datatype FileView = FileView(
    id: Option<nat>,
    name: string,
    originalName: string,
    nama: string,
    nrp: string,
    size: string,
    uploadDate: int,
    url: string,
    status: Option<string>)

  /** One entry of the bucket listing's `Contents`. */
  datatype S3Object = S3Object(key: string, size: nat, lastModified: int)

  /** Bucket name and region, as configured for the process. */
  datatype BucketConfig = BucketConfig(bucket: string, region: string)

  /** What the endpoint answers: which store the records come from, or the 500 error. */
  datatype Listing = Primary(records: seq<FileView>) | Fallback(records: seq<FileView>) | BothFailed

  /** `Array.prototype.map`. */
  function MapSeq<A, B>(f: A -> B, s: seq<A>): (r: seq<B>)
    ensures |r| == |s|
    ensures forall i :: 0 <= i < |s| ==> r[i] == f(s[i])
  {
    if s == [] then [] else [f(s[0])] + MapSeq(f, s[1..])
  }

  /** `row.status || 'original'`. */
  function StatusOrDefault(status: Option<Status>): string
  {
    match status
    case Some(s) => StatusText(s)
    case None => "original"
  }

  /** The row mapping of app.js, which adds `status`. */
  function AppRowView(row: Row): FileView
  {
    FileView(Some(row.id), row.s3Filename, row.originalFilename, row.nama, row.nrp,
      FileSize.FormatFileSize(row.fileSize), row.uploadDate, row.s3Url, Some(StatusOrDefault(row.status)))
  }

  /** The row mapping of index.js, which has no `status`. */
  function LegacyRowView(row: Row): FileView
  {
    FileView(Some(row.id), row.s3Filename, row.originalFilename, row.nama, row.nrp,
      FileSize.FormatFileSize(row.fileSize), row.uploadDate, row.s3Url, None)
  }

  /** The public URL the fallback builds from bucket, region and key. */
  function ObjectUrl(cfg: BucketConfig, key: string): string
  {
    "https://" + cfg.bucket + ".s3." + cfg.region + ".amazonaws.com/" + key
  }

  /** The object mapping of the fallback: the key stands in for both names, submitter unknown. */
  function ObjectView(cfg: BucketConfig, obj: S3Object): FileView
  {
    FileView(None, obj.key, obj.key, "Unknown", "Unknown",
      FileSize.FormatFileSize(obj.size), obj.lastModified, ObjectUrl(cfg, obj.key), None)
  }

  /** The handler body shared by both files, given its row mapping. */
  function ListFiles(rowView: Row -> FileView, cfg: BucketConfig,
                     rows: Option<seq<Row>>, objects: Option<seq<S3Object>>): Listing
  {
    match rows
    case Some(rs) => Primary(MapSeq(rowView, rs))
    case None =>
      match objects
      case Some(os) => Fallback(MapSeq(o => ObjectView(cfg, o), os))
      case None => BothFailed
  }

  function AppListFiles(cfg: BucketConfig, rows: Option<seq<Row>>, objects: Option<seq<S3Object>>): Listing
  {
    ListFiles(AppRowView, cfg, rows, objects)
  }

  function LegacyListFiles(cfg: BucketConfig, rows: Option<seq<Row>>, objects: Option<seq<S3Object>>): Listing
  {
    ListFiles(LegacyRowView, cfg, rows, objects)
  }

  /** The query's order: `ORDER BY upload_date DESC`. */
  predicate NewestFirst(rows: seq<Row>)
  {
    forall i, j :: 0 <= i < j < |rows| ==> rows[i].uploadDate >= rows[j].uploadDate
  }

  predicate RecordsNewestFirst(records: seq<FileView>)
  {
    forall i, j :: 0 <= i < j < |records| ==> records[i].uploadDate >= records[j].uploadDate
  }

  /**
   * A successful query, even one returning no rows, is answered from the
   * rows: one record per row, in the same order, fields copied, size
   * formatted, status defaulting to 'original'.
   */
  lemma AppListingFromRows(cfg: BucketConfig, rows: seq<Row>, objects: Option<seq<S3Object>>)
    ensures var l := AppListFiles(cfg, Some(rows), objects);
      && l.Primary?
      && |l.records| == |rows|
      && forall i :: 0 <= i < |rows| ==>
        var r, v := rows[i], l.records[i];
        && v.id == Some(r.id) && v.name == r.s3Filename && v.originalName == r.originalFilename
        && v.nama == r.nama && v.nrp == r.nrp && v.size == FileSize.FormatFileSize(r.fileSize)
        && v.uploadDate == r.uploadDate && v.url == r.s3Url
        && v.status == Some(if r.status == Some(Duplikat) then "duplikat" else "original")
  {
  }

  /** index.js answers a successful query the same way, without `status`. */
  lemma LegacyListingFromRows(cfg: BucketConfig, rows: seq<Row>, objects: Option<seq<S3Object>>)
    ensures var l := LegacyListFiles(cfg, Some(rows), objects);
      && l.Primary?
      && |l.records| == |rows|
      && forall i :: 0 <= i < |rows| ==>
        var r, v := rows[i], l.records[i];
        && v.id == Some(r.id) && v.name == r.s3Filename && v.originalName == r.originalFilename
        && v.nama == r.nama && v.nrp == r.nrp && v.size == FileSize.FormatFileSize(r.fileSize)
        && v.uploadDate == r.uploadDate && v.url == r.s3Url && v.status == None
  {
  }

  /** An empty table is a valid answer: the bucket is not consulted. */
  lemma EmptyTableIsNotFallback(cfg: BucketConfig, objects: Option<seq<S3Object>>)
    ensures AppListFiles(cfg, Some([]), objects) == Primary([])
    ensures LegacyListFiles(cfg, Some([]), objects) == Primary([])
  {
  }

  /**
   * When the query threw and the bucket listing did not, every object
   * becomes one record, in the listing's order: key as both names, 'Unknown'
   * submitter, the constructed URL, no id and no status.
   */
  lemma ListingFromObjects(cfg: BucketConfig, objects: seq<S3Object>)
    ensures AppListFiles(cfg, None, Some(objects)) == LegacyListFiles(cfg, None, Some(objects))
    ensures var l := AppListFiles(cfg, None, Some(objects));
      && l.Fallback?
      && |l.records| == |objects|
      && forall i :: 0 <= i < |objects| ==>
        var o, v := objects[i], l.records[i];
        && v.id == None && v.name == o.key && v.originalName == o.key
        && v.nama == "Unknown" && v.nrp == "Unknown" && v.size == FileSize.FormatFileSize(o.size)
        && v.uploadDate == o.lastModified && v.url == ObjectUrl(cfg, o.key) && v.status == None
  {
  }

  /**
   * Which answer is given depends only on which calls threw: the fallback
   * exactly when the query threw and the bucket listing did not, the error
   * exactly when both threw.
   */
  lemma ListingSource(rowView: Row -> FileView, cfg: BucketConfig, rows: Option<seq<Row>>, objects: Option<seq<S3Object>>)
    ensures var l := ListFiles(rowView, cfg, rows, objects);
      && (l.Primary? <==> rows.Some?)
      && (l.Fallback? <==> rows.None? && objects.Some?)
      && (l.BothFailed? <==> rows.None? && objects.None?)
  {
  }

  /**
   * Never a mixed list: every record of a primary answer carries a row id,
   * no record of a fallback answer does.
   */
  lemma ListingNeverMixed(cfg: BucketConfig, rows: Option<seq<Row>>, objects: Option<seq<S3Object>>)
    ensures var l := AppListFiles(cfg, rows, objects);
      && (l.Primary? ==> forall i :: 0 <= i < |l.records| ==> l.records[i].id.Some?)
      && (l.Fallback? ==> forall i :: 0 <= i < |l.records| ==> l.records[i].id.None? && l.records[i].nama == "Unknown")
  {
  }

  /** The primary answer keeps the query's newest-first order. */
  lemma PrimaryNewestFirst(cfg: BucketConfig, rows: seq<Row>, objects: Option<seq<S3Object>>)
    requires NewestFirst(rows)
    ensures RecordsNewestFirst(AppListFiles(cfg, Some(rows), objects).records)
    ensures RecordsNewestFirst(LegacyListFiles(cfg, Some(rows), objects).records)
  {
    var a := AppListFiles(cfg, Some(rows), objects).records;
    var b := LegacyListFiles(cfg, Some(rows), objects).records;
    forall i, j | 0 <= i < j < |a|
      ensures a[i].uploadDate >= a[j].uploadDate && b[i].uploadDate >= b[j].uploadDate
    {
      assert a[i] == AppRowView(rows[i]) && a[j] == AppRowView(rows[j]);
      assert b[i] == LegacyRowView(rows[i]) && b[j] == LegacyRowView(rows[j]);
    }
  }

  /** A record with its `status` property dropped. */
  function WithoutStatus(v: FileView): FileView
  {
    v.(status := None)
  }

  /** The two versions differ only in the `status` property of primary records. */
  lemma LegacyListingIsAppWithoutStatus(cfg: BucketConfig, rows: Option<seq<Row>>, objects: Option<seq<S3Object>>)
    ensures var a, b := AppListFiles(cfg, rows, objects), LegacyListFiles(cfg, rows, objects);
      match a
      case Primary(rs) => b == Primary(MapSeq(WithoutStatus, rs))
      case _ => b == a
  {
    if rows.Some? {
      var rs := AppListFiles(cfg, rows, objects).records;
      var ls := LegacyListFiles(cfg, rows, objects).records;
      var ws := MapSeq(WithoutStatus, rs);
      assert |ls| == |ws|;
      forall i | 0 <= i < |ls| ensures ls[i] == ws[i] {
        assert ls[i] == LegacyRowView(rows.value[i]);
        assert ws[i] == WithoutStatus(AppRowView(rows.value[i]));
      }
      assert ls == ws;
    }
  }

  /** The database is down and the bucket holds one 2048-byte object "x.pdf". */
  lemma FallbackExample(cfg: BucketConfig, t: int)
    ensures var l := AppListFiles(cfg, None, Some([S3Object("x.pdf", 2048, t)]));
      && l.Fallback? && |l.records| == 1
      && l.records[0].size == "2 KB" && l.records[0].nama == "Unknown" && l.records[0].nrp == "Unknown"
      && l.records[0].originalName == "x.pdf"
  {
    FileSize.ExampleTwoKB();
  }
}
