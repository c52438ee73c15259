/**
 * What both `POST /upload` handlers receive and answer: the multipart
 * request, the replies of the stores during the request, the outcome
 * and the HTTP response built from it.
 */
module Requests {
  import opened Common
  import opened Storage

  /** The file the multipart middleware staged: temp path, client file name, bytes. */
  datatype StagedFile = StagedFile(path: string, originalname: string, content: seq<Byte>)

  /** `req.file` and the `nama` and `nrp` fields of `req.body`; None when absent. */
  datatype Request = Request(file: Option<StagedFile>, nama: Option<string>, nrp: Option<string>)

  /**
   * The outside world during one request: the location the object store
   * returns for a put, the server time of an insert, and which store calls
   * throw (the duplicate lookup, the object put, the row insert).
   */
  datatype Env = Env(location: string, now: int, lookupFails: bool, s3Fails: bool, dbFails: bool)

  /** One request together with the world it meets; a run is a sequence of these. */
  datatype Call = Call(req: Request, env: Env)

  datatype Rejection = NoFile | MissingFields

  /** Which store call threw. */
  datatype ErrorKind = LookupFailed | PutFailed | InsertFailed

  datatype Outcome =
    | ValidationRejected(reason: Rejection)
    | Duplicate(nama: string, nrp: string, fileName: string)
    | Admitted(nama: string, nrp: string, fileName: string, key: string, location: string)
    | Error(kind: ErrorKind)

  /** The stores after one request, and its outcome. */
  datatype Step = Step(stores: Stores, outcome: Outcome)

  /** JavaScript truthiness of a form field: present and not the empty string. */
  predicate Truthy(field: Option<string>)
  {
    field.Some? && field.value != ""
  }

  /** The two early returns: no file first, then a falsy `nama` or `nrp`. */
  function Validate(req: Request): Option<Rejection>
  {
    if req.file.None? then Some(NoFile)
    else if !Truthy(req.nama) || !Truthy(req.nrp) then Some(MissingFields)
    else None
  }

  /** A request passes validation exactly when it has a file and non-empty `nama` and `nrp`. */
  lemma ValidateMeaning(req: Request)
    ensures Validate(req) == None <==> req.file.Some? && Truthy(req.nama) && Truthy(req.nrp)
    ensures Validate(req) == Some(NoFile) <==> req.file.None?
  {
  }

  /** The JSON response: HTTP status, `success`, `message`, and `plagiarismChecked` when sent. */
  datatype Response = Response(code: int, success: bool, message: string, plagiarismChecked: Option<bool>)

  const NoFileMessage := "No file uploaded"
  const MissingFieldsMessage := "Nama dan NRP harus diisi"
  const ErrorPrefix := "Error saat mengunggah file: "

  function RejectionMessage(why: Rejection): string
  {
    match why
    case NoFile => NoFileMessage
    case MissingFields => MissingFieldsMessage
  }
}
