/**
 * `POST /upload` of index.js, the older handler: validate, derive the key,
 * put the object, try to insert a row (a failed insert is logged and
 * ignored), remove the staged file, report success. It never looks for
 * duplicates and does not supply `status`.
 */
module LegacyUpload {
  import opened Common
  import opened Storage
  import opened Requests
  import Naming
  import AppUpload

  /** The effect and outcome of one request, as a function of the stores before it. */
  function LegacyStep(s: Stores, req: Request, env: Env): Step
  {
    match Validate(req)
    case Some(why) => Step(s, ValidationRejected(why))
    case None =>
      var f, nama, nrp := req.file.value, req.nama.value, req.nrp.value;
      var key := Naming.StorageKey(nama, nrp, f.originalname);
      if env.s3Fails then
        Step(Unlinked(s, f.path), Error(PutFailed))
      else
        var put := Put(s, key, f.content);
        var saved := if env.dbFails then put
                     else Insert(put, InsertValues(nama, nrp, f.originalname, key, env.location, |f.content|, None), env.now);
        Step(Unlinked(saved, f.path), Admitted(nama, nrp, f.originalname, key, env.location))
  }

  /** The handler, one store call at a time, in the order of the source. */
  method Upload(b: Backend, req: Request, env: Env) returns (o: Outcome)
    requires b.Valid()
    modifies b
    ensures b.Valid()
    ensures Step(b.Snapshot(), o) == LegacyStep(old(b.Snapshot()), req, env)
  {
    if req.file.None? {
      return ValidationRejected(NoFile);
    }
    if !Truthy(req.nama) || !Truthy(req.nrp) {
      return ValidationRejected(MissingFields);
    }
    var file, nama, nrp := req.file.value, req.nama.value, req.nrp.value;
    var key := Naming.StorageKey(nama, nrp, file.originalname);
    if env.s3Fails {
      b.Unlink(file.path);
      return Error(PutFailed);
    }
    b.PutObject(key, file.content);
    if !env.dbFails {
      b.InsertRow(InsertValues(nama, nrp, file.originalname, key, env.location, |file.content|, None), env.now);
    }
    b.Unlink(file.path);
    o := Admitted(nama, nrp, file.originalname, key, env.location);
  }

  const SuccessMessage := "Tugas berhasil diupload ke S3!"

  /**
   * The JSON response for an outcome of this handler, which never reports a
   * duplicate; `detail` is the message of the error thrown.
   */
  function LegacyResponse(o: Outcome, detail: string): Response
    requires !o.Duplicate?
  {
    if o.ValidationRejected? then Response(400, false, RejectionMessage(o.reason), None)
    else if o.Admitted? then Response(200, true, SuccessMessage, None)
    else Response(500, false, ErrorPrefix + detail, None)
  }

  /** The older handler never reports a duplicate and never looks at the table. */
  lemma LegacyNeverDuplicate(s: Stores, req: Request, env: Env)
    ensures !LegacyStep(s, req, env).outcome.Duplicate?
    ensures LegacyStep(s, req, env).outcome == LegacyStep(s.(rows := []), req, env).outcome
    ensures LegacyStep(s, req, env) == LegacyStep(s, req, env.(lookupFails := !env.lookupFails))
  {
  }

  /**
   * Reading a response of index.js: 400 with the validation message exactly
   * when validation fails, success exactly when the put succeeded, and
   * otherwise a 500 carrying the error's message; no `plagiarismChecked`.
   */
  lemma LegacyResponseMeaning(s: Stores, req: Request, env: Env, detail: string)
    ensures !LegacyStep(s, req, env).outcome.Duplicate?
    ensures var o := LegacyStep(s, req, env).outcome;
      var r := LegacyResponse(o, detail);
      && (r.code == 400 <==> Validate(req).Some?)
      && (Validate(req).Some? ==> r.message == RejectionMessage(Validate(req).value) && !r.success)
      && (r.success <==> Validate(req) == None && !env.s3Fails)
      && (r.success ==> r.code == 200 && r.message == SuccessMessage)
      && (r.code == 500 <==> Validate(req) == None && env.s3Fails)
      && (r.code == 500 ==> r.message == ErrorPrefix + detail)
      && r.plagiarismChecked == None
  {
    LegacyNeverDuplicate(s, req, env);
    LegacyAdmittedIff(s, req, env);
  }

  /** A rejected request changes nothing, not even the staged file. */
  lemma LegacyValidationNoEffect(s: Stores, req: Request, env: Env)
    requires Validate(req).Some?
    ensures LegacyStep(s, req, env) == Step(s, ValidationRejected(Validate(req).value))
  {
  }

  /**
   * With both stores answering, any valid upload is admitted and appends a
   * row, whether or not its file name is already in the table.
   */
  lemma LegacyAdmissionEffects(s: Stores, req: Request, env: Env)
    requires Validate(req) == None && !env.s3Fails && !env.dbFails
    ensures var f, nama, nrp := req.file.value, req.nama.value, req.nrp.value;
      var key := Naming.StorageKey(nama, nrp, f.originalname);
      var st := LegacyStep(s, req, env);
      && st.outcome == Admitted(nama, nrp, f.originalname, key, env.location)
      && st.stores.objects == s.objects[key := f.content]
      && st.stores.rows == s.rows + [Row(s.nextId, nama, nrp, f.originalname, key, env.location, |f.content|, env.now, None)]
      && st.stores.staged == s.staged - {f.path}
  {
  }

  /**
   * A failed insert after a successful put is swallowed: the object stays,
   * no row is added, and the response is still a success with the location.
   */
  lemma LegacySwallowsInsertFailure(s: Stores, req: Request, env: Env, detail: string)
    requires Validate(req) == None && !env.s3Fails && env.dbFails
    ensures var f := req.file.value;
      var key := Naming.StorageKey(req.nama.value, req.nrp.value, f.originalname);
      var st := LegacyStep(s, req, env);
      && st.outcome == Admitted(req.nama.value, req.nrp.value, f.originalname, key, env.location)
      && LegacyResponse(st.outcome, detail).success
      && st.stores.rows == s.rows
      && st.stores.objects == s.objects[key := f.content]
      && st.stores.staged == s.staged - {f.path}
  {
  }

  /** A failed put: a 500 error, no insert attempted, the staged file removed. */
  lemma LegacyPutFailure(s: Stores, req: Request, env: Env, detail: string)
    requires Validate(req) == None && env.s3Fails
    ensures var st := LegacyStep(s, req, env);
      && st.outcome == Error(PutFailed)
      && LegacyResponse(st.outcome, detail).code == 500
      && st.stores == Unlinked(s, req.file.value.path)
  {
  }

  /** After validation passes, both paths remove the staged file; before, none does. */
  lemma LegacyCleanup(s: Stores, req: Request, env: Env)
    ensures var t := LegacyStep(s, req, env).stores;
      if Validate(req) == None then t.staged == s.staged - {req.file.value.path} else t.staged == s.staged
  {
  }

  /** Success is reported exactly when the request is valid and the put succeeds. */
  lemma LegacyAdmittedIff(s: Stores, req: Request, env: Env)
    ensures LegacyStep(s, req, env).outcome.Admitted? <==> Validate(req) == None && !env.s3Fails
  {
  }

  /** The stores after processing `calls` one at a time, in order. */
  function LegacyRun(s: Stores, calls: seq<Call>): Stores
    decreases |calls|
  {
    if calls == [] then s else LegacyRun(LegacyStep(s, calls[0].req, calls[0].env).stores, calls[1..])
  }

  /** index.js still keeps every row backed by its object and the ids fresh; rows are only appended. */
  lemma {:induction false} LegacyRunKeepsBacked(s: Stores, calls: seq<Call>)
    requires RowsBacked(s) && IdsAscending(s)
    ensures RowsBacked(LegacyRun(s, calls)) && IdsAscending(LegacyRun(s, calls))
    ensures s.rows <= LegacyRun(s, calls).rows
    decreases |calls|
  {
    if calls != [] {
      var t := LegacyStep(s, calls[0].req, calls[0].env).stores;
      assert RowsBacked(t) && IdsAscending(t) && s.rows <= t.rows;
      LegacyRunKeepsBacked(t, calls[1..]);
    }
  }

  /**
   * The same original file name uploaded twice: index.js admits both and the
   * table ends with two rows of that name, while app.js rejects the second
   * as a duplicate and writes nothing for it.
   */
  lemma VersionsDifferOnRepeat(s: Stores, f1: StagedFile, f2: StagedFile, nama: string, nrp: string, e1: Env, e2: Env)
    requires f1.originalname == f2.originalname
    requires nama != "" && nrp != ""
    requires forall i :: 0 <= i < |s.rows| ==> s.rows[i].originalFilename != f1.originalname
    requires !e1.lookupFails && !e1.s3Fails && !e1.dbFails
    requires !e2.lookupFails && !e2.s3Fails && !e2.dbFails
    ensures var r1 := Request(Some(f1), Some(nama), Some(nrp));
      var r2 := Request(Some(f2), Some(nama), Some(nrp));
      var l1 := LegacyStep(s, r1, e1);
      var l2 := LegacyStep(l1.stores, r2, e2);
      var a1 := AppUpload.AppStep(s, r1, e1);
      var a2 := AppUpload.AppStep(a1.stores, r2, e2);
      && l1.outcome.Admitted? && l2.outcome.Admitted?
      && |l2.stores.rows| == |s.rows| + 2
      && !UniqueOriginalNames(l2.stores.rows)
      && a1.outcome.Admitted? && a2.outcome.Duplicate?
      && |a2.stores.rows| == |s.rows| + 1
      && a2.stores.objects == a1.stores.objects
  {
    var r1 := Request(Some(f1), Some(nama), Some(nrp));
    var r2 := Request(Some(f2), Some(nama), Some(nrp));
    LegacyAdmissionEffects(s, r1, e1);
    var l1 := LegacyStep(s, r1, e1);
    LegacyAdmissionEffects(l1.stores, r2, e2);
    var rows := LegacyStep(l1.stores, r2, e2).stores.rows;
    assert rows[|s.rows|].originalFilename == rows[|s.rows| + 1].originalFilename;
    AppUpload.AppAdmissionEffects(s, r1, e1);
    var a1 := AppUpload.AppStep(s, r1, e1);
    AppUpload.AppDuplicateRejected(a1.stores, r2, e2, |s.rows|);
  }

  /**
   * For a new file name with both stores answering, the two handlers put
   * the same object under the same key and append the same row, except
   * that app.js supplies status 'original'.
   */
  lemma VersionsAgreeOnNewName(s: Stores, req: Request, env: Env)
    requires Validate(req) == None && !env.lookupFails && !env.s3Fails && !env.dbFails
    requires forall i :: 0 <= i < |s.rows| ==> s.rows[i].originalFilename != req.file.value.originalname
    ensures var a, l := AppUpload.AppStep(s, req, env), LegacyStep(s, req, env);
      && a.outcome == l.outcome
      && a.stores.objects == l.stores.objects
      && a.stores.staged == l.stores.staged
      && a.stores.rows[..|s.rows|] == l.stores.rows[..|s.rows|] == s.rows
      && |a.stores.rows| == |l.stores.rows| == |s.rows| + 1
      && a.stores.rows[|s.rows|] == l.stores.rows[|s.rows|].(status := Some(Original))
  {
    AppUpload.AppAdmissionEffects(s, req, env);
    LegacyAdmissionEffects(s, req, env);
  }
}
