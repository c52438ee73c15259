/**
 * `POST /upload` of app.js: validate, look for any row with the same
 * original file name, reject the upload as `duplikat` or derive the key,
 * put the object and insert a row with status `original`, and remove the
 * staged file on every path after validation.
 */
module AppUpload {
  import opened Common
  import opened Storage
  import opened Requests
  import Naming

  /** The effect and outcome of one request, as a function of the stores before it. */
  function AppStep(s: Stores, req: Request, env: Env): Step
  {
    match Validate(req)
    case Some(why) => Step(s, ValidationRejected(why))
    case None =>
      var f, nama, nrp := req.file.value, req.nama.value, req.nrp.value;
      if env.lookupFails then
        Step(Unlinked(s, f.path), Error(LookupFailed))
      else if FindByOriginalName(s.rows, f.originalname).Some? then
        Step(Unlinked(s, f.path), Duplicate(nama, nrp, f.originalname))
      else
        var key := Naming.StorageKey(nama, nrp, f.originalname);
        if env.s3Fails then
          Step(Unlinked(s, f.path), Error(PutFailed))
        else
          var put := Put(s, key, f.content);
          if env.dbFails then
            Step(Unlinked(put, f.path), Error(InsertFailed))
          else
            var values := InsertValues(nama, nrp, f.originalname, key, env.location, |f.content|, Some(Original));
            Step(Unlinked(Insert(put, values, env.now), f.path), Admitted(nama, nrp, f.originalname, key, env.location))
  }

  /** The handler, one store call at a time, in the order of the source. */
  method Upload(b: Backend, req: Request, env: Env) returns (o: Outcome)
    requires b.Valid()
    modifies b
    ensures b.Valid()
    ensures Step(b.Snapshot(), o) == AppStep(old(b.Snapshot()), req, env)
  {
    if req.file.None? {
      return ValidationRejected(NoFile);
    }
    if !Truthy(req.nama) || !Truthy(req.nrp) {
      return ValidationRejected(MissingFields);
    }
    var file, nama, nrp := req.file.value, req.nama.value, req.nrp.value;
    if env.lookupFails {
      b.Unlink(file.path);
      return Error(LookupFailed);
    }
    var found := FindByOriginalName(b.rows, file.originalname);
    if found.Some? {
      b.Unlink(file.path);
      return Duplicate(nama, nrp, file.originalname);
    }
    var key := Naming.StorageKey(nama, nrp, file.originalname);
    if env.s3Fails {
      b.Unlink(file.path);
      return Error(PutFailed);
    }
    b.PutObject(key, file.content);
    if env.dbFails {
      b.Unlink(file.path);
      return Error(InsertFailed);
    }
    b.InsertRow(InsertValues(nama, nrp, file.originalname, key, env.location, |file.content|, Some(Original)), env.now);
    b.Unlink(file.path);
    o := Admitted(nama, nrp, file.originalname, key, env.location);
  }

  const DuplicateMessage := "File dengan nama yang sama sudah pernah diupload oleh mahasiswa lain. Upload dibatalkan. Status: Duplikat."
  const SuccessMessage := "Tugas berhasil diupload!"

  /** The JSON response for an outcome; `detail` is the message of the error thrown. */
  function AppResponse(o: Outcome, detail: string): Response
  {
    match o
    case ValidationRejected(why) => Response(400, false, RejectionMessage(why), None)
    case Duplicate(_, _, _) => Response(200, false, DuplicateMessage, Some(true))
    case Admitted(_, _, _, _, _) => Response(200, true, SuccessMessage, Some(true))
    case Error(kind) => Response(500, false, ErrorPrefix + detail, Some(kind != LookupFailed))
  }

  /**
   * Reading a response: success only for an admitted file, 400 only for a
   * validation rejection, 500 only for a store error; a duplicate is a
   * 200 failure after the check ran.
   */
  lemma AppResponseMeaning(o: Outcome, detail: string)
    ensures var r := AppResponse(o, detail);
      && (r.success <==> o.Admitted?)
      && (r.code == 400 <==> o.ValidationRejected?)
      && (r.code == 500 <==> o.Error?)
      && (o.Duplicate? ==> r.code == 200 && !r.success && r.plagiarismChecked == Some(true))
      && (r.plagiarismChecked == Some(false) <==> o == Error(LookupFailed))
  {
  }

  /** A rejected request changes nothing, not even the staged file. */
  lemma AppValidationNoEffect(s: Stores, req: Request, env: Env)
    requires Validate(req).Some?
    ensures AppStep(s, req, env) == Step(s, ValidationRejected(Validate(req).value))
  {
  }

  /**
   * A file name already in the table, whoever uploaded it, is rejected as
   * a duplicate: no object is put, no row inserted, the staged file removed.
   */
  lemma AppDuplicateRejected(s: Stores, req: Request, env: Env, i: nat)
    requires Validate(req) == None && !env.lookupFails
    requires i < |s.rows| && s.rows[i].originalFilename == req.file.value.originalname
    ensures var st := AppStep(s, req, env);
      && st.outcome == Duplicate(req.nama.value, req.nrp.value, req.file.value.originalname)
      && st.stores.rows == s.rows && st.stores.objects == s.objects && st.stores.nextId == s.nextId
      && st.stores.staged == s.staged - {req.file.value.path}
  {
  }

  /**
   * A fresh file name with both stores answering: one object under the
   * derived key, one row appended with that key, the returned location, the
   * payload size, the insert time and status original; earlier rows kept.
   */
  lemma AppAdmissionEffects(s: Stores, req: Request, env: Env)
    requires Validate(req) == None && !env.lookupFails && !env.s3Fails && !env.dbFails
    requires forall i :: 0 <= i < |s.rows| ==> s.rows[i].originalFilename != req.file.value.originalname
    ensures var f, nama, nrp := req.file.value, req.nama.value, req.nrp.value;
      var key := Naming.StorageKey(nama, nrp, f.originalname);
      var st := AppStep(s, req, env);
      && st.outcome == Admitted(nama, nrp, f.originalname, key, env.location)
      && st.stores.objects == s.objects[key := f.content]
      && st.stores.rows == s.rows + [Row(s.nextId, nama, nrp, f.originalname, key, env.location, |f.content|, env.now, Some(Original))]
      && st.stores.staged == s.staged - {f.path}
  {
  }

  /** The duplicate lookup threw: a 500 error before anything is written. */
  lemma AppLookupFailure(s: Stores, req: Request, env: Env)
    requires Validate(req) == None && env.lookupFails
    ensures var st := AppStep(s, req, env);
      && st.outcome == Error(LookupFailed)
      && st.stores == Unlinked(s, req.file.value.path)
  {
  }

  /** The put threw: a 500 error and no row. */
  lemma AppPutFailure(s: Stores, req: Request, env: Env)
    requires Validate(req) == None && !env.lookupFails && env.s3Fails
    requires FindByOriginalName(s.rows, req.file.value.originalname) == None
    ensures var st := AppStep(s, req, env);
      && st.outcome == Error(PutFailed)
      && st.stores == Unlinked(s, req.file.value.path)
  {
  }

  /** The insert threw after the put: a 500 error and the object stays (no rollback). */
  lemma AppInsertFailure(s: Stores, req: Request, env: Env)
    requires Validate(req) == None && !env.lookupFails && !env.s3Fails && env.dbFails
    requires FindByOriginalName(s.rows, req.file.value.originalname) == None
    ensures var f := req.file.value;
      var key := Naming.StorageKey(req.nama.value, req.nrp.value, f.originalname);
      var st := AppStep(s, req, env);
      && st.outcome == Error(InsertFailed)
      && st.stores.rows == s.rows
      && st.stores.objects == s.objects[key := f.content]
      && st.stores.staged == s.staged - {f.path}
  {
  }

  /** After validation passes, every path removes the staged file; before, none does. */
  lemma AppCleanup(s: Stores, req: Request, env: Env)
    ensures var t := AppStep(s, req, env).stores;
      if Validate(req) == None then t.staged == s.staged - {req.file.value.path} else t.staged == s.staged
  {
  }

  /** A file is admitted exactly when it passes validation, its name is new, and every store call succeeds. */
  lemma AppAdmittedIff(s: Stores, req: Request, env: Env)
    ensures AppStep(s, req, env).outcome.Admitted? <==>
      && Validate(req) == None
      && !env.lookupFails
      && (forall i :: 0 <= i < |s.rows| ==> s.rows[i].originalFilename != req.file.value.originalname)
      && !env.s3Fails && !env.dbFails
  {
  }

  /** The invariant a sequence of requests keeps: the admission rule, no row without its object, fresh ids. */
  predicate Consistent(s: Stores)
  {
    UniqueOriginalNames(s.rows) && RowsBacked(s) && IdsAscending(s)
  }

  /** One request keeps the invariant; the only insert follows a lookup that found nothing. */
  lemma AppStepKeepsConsistent(s: Stores, req: Request, env: Env)
    requires Consistent(s)
    ensures Consistent(AppStep(s, req, env).stores)
    ensures s.rows <= AppStep(s, req, env).stores.rows
  {
    AppAdmittedIff(s, req, env);
    if AppStep(s, req, env).outcome.Admitted? {
      var f, nama, nrp := req.file.value, req.nama.value, req.nrp.value;
      var key := Naming.StorageKey(nama, nrp, f.originalname);
      AppAdmissionEffects(s, req, env);
      AppendFreshName(s.rows, Row(s.nextId, nama, nrp, f.originalname, key, env.location, |f.content|, env.now, Some(Original)));
      InsertKeepsIds(Put(s, key, f.content), InsertValues(nama, nrp, f.originalname, key, env.location, |f.content|, Some(Original)), env.now);
    }
  }

  lemma AppendFreshName(rows: seq<Row>, r: Row)
    requires UniqueOriginalNames(rows)
    requires forall i :: 0 <= i < |rows| ==> rows[i].originalFilename != r.originalFilename
    ensures UniqueOriginalNames(rows + [r])
  {
    var t := rows + [r];
    forall i, j | 0 <= i < j < |t| ensures t[i].originalFilename != t[j].originalFilename {
      if j == |rows| {
        assert t[i] == rows[i] && t[j] == r;
      } else {
        assert t[i] == rows[i] && t[j] == rows[j];
      }
    }
  }

  /** The stores after processing `calls` one at a time, in order. */
  function AppRun(s: Stores, calls: seq<Call>): Stores
    decreases |calls|
  {
    if calls == [] then s else AppRun(AppStep(s, calls[0].req, calls[0].env).stores, calls[1..])
  }

  /**
   * Under sequential requests no two rows ever share an original file name,
   * every row's object exists, and rows are only appended.
   */
  lemma {:induction false} AppRunKeepsConsistent(s: Stores, calls: seq<Call>)
    requires Consistent(s)
    ensures Consistent(AppRun(s, calls))
    ensures s.rows <= AppRun(s, calls).rows
    decreases |calls|
  {
    if calls != [] {
      var t := AppStep(s, calls[0].req, calls[0].env).stores;
      AppStepKeepsConsistent(s, calls[0].req, calls[0].env);
      AppRunKeepsConsistent(t, calls[1..]);
    }
  }

  /**
   * Two submissions of one file name by different students: the first is
   * admitted under key "Budi_Santoso_5001_tugas1.pdf", the second is a
   * duplicate and writes nothing.
   */
  lemma AppScenarioDuplicate(s: Stores, c1: seq<Byte>, c2: seq<Byte>, e1: Env, e2: Env)
    requires forall i :: 0 <= i < |s.rows| ==> s.rows[i].originalFilename != "tugas1.pdf"
    requires !e1.lookupFails && !e1.s3Fails && !e1.dbFails && !e2.lookupFails
    ensures var r1 := Request(Some(StagedFile("tmp1", "tugas1.pdf", c1)), Some("Budi Santoso"), Some("5001"));
      var r2 := Request(Some(StagedFile("tmp2", "tugas1.pdf", c2)), Some("Siti"), Some("5002"));
      var st1 := AppStep(s, r1, e1);
      var st2 := AppStep(st1.stores, r2, e2);
      && st1.outcome == Admitted("Budi Santoso", "5001", "tugas1.pdf", "Budi_Santoso_5001_tugas1.pdf", e1.location)
      && st2.outcome == Duplicate("Siti", "5002", "tugas1.pdf")
      && st2.stores.objects == st1.stores.objects
      && st2.stores.rows == st1.stores.rows
  {
    Naming.StorageKeyExample();
    var r1 := Request(Some(StagedFile("tmp1", "tugas1.pdf", c1)), Some("Budi Santoso"), Some("5001"));
    var st1 := AppStep(s, r1, e1);
    AppAdmissionEffects(s, r1, e1);
    assert st1.stores.rows[|s.rows|].originalFilename == "tugas1.pdf";
  }

  /**
   * Keys can collide although the duplicate rule holds: two different file
   * names, both admitted, share one key, and the second put replaces the
   * first file's bytes under the first row's `s3_filename`.
   */
  lemma AppKeyCollision(c1: seq<Byte>, c2: seq<Byte>, e1: Env, e2: Env)
    requires !e1.lookupFails && !e1.s3Fails && !e1.dbFails
    requires !e2.lookupFails && !e2.s3Fails && !e2.dbFails
    ensures var s := Stores([], map[], {"tmp1", "tmp2"}, 1);
      var r1 := Request(Some(StagedFile("tmp1", "x", c1)), Some("a_1"), Some("b"));
      var r2 := Request(Some(StagedFile("tmp2", "b_x", c2)), Some("a"), Some("1"));
      var st1 := AppStep(s, r1, e1);
      var st2 := AppStep(st1.stores, r2, e2);
      && st1.outcome.Admitted? && st2.outcome.Admitted?
      && |st2.stores.rows| == 2
      && UniqueOriginalNames(st2.stores.rows)
      && st2.stores.rows[0].s3Filename == st2.stores.rows[1].s3Filename
      && st2.stores.objects[st2.stores.rows[0].s3Filename] == c2
  {
    Naming.StorageKeyCollides();
    var s := Stores([], map[], {"tmp1", "tmp2"}, 1);
    var r1 := Request(Some(StagedFile("tmp1", "x", c1)), Some("a_1"), Some("b"));
    AppAdmissionEffects(s, r1, e1);
    var t := AppStep(s, r1, e1).stores;
    var r2 := Request(Some(StagedFile("tmp2", "b_x", c2)), Some("a"), Some("1"));
    assert t.rows[0].originalFilename == "x";
    AppAdmissionEffects(t, r2, e2);
  }
}
