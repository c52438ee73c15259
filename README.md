# Assignment upload service — Dafny model

A model of the decision logic of a student assignment-upload service. The
service has two versions of one Express application: `app.js` (current) and
`index.js` (older). Each is wired to a MySQL table `uploads` and an S3
bucket. The model replaces the table, the bucket and the multipart temp
directory with Dafny state. Each store call is a boolean input that says
whether the call throws. The model then proves what each handler does on
every branch.

Modules, by source component:

- `Storage` (storage.dfy) holds the `uploads` row (`Row`), a snapshot of the
  three stores (`Stores`), and the pure store steps `Put`, `Insert` and
  `Unlinked`. It also has the duplicate lookup `FindByOriginalName` and the
  class `Backend`. `Backend` has the fields `rows`, `objects`, `staged` and
  `nextId`; its methods are the store calls.
- `Naming` (naming.dfy) derives the storage key:
  `sanitize(nama) + "_" + nrp + "_" + originalname`.
- `FileSize` (filesize.dfy) is `formatFileSize`, computed over integers.
- `Listing` (listing.dfy) is `GET /api/files` for both versions. It is a
  pure function from "did the row query throw, and what did it return" and
  "did the bucket listing throw, and what did it return" to
  `Primary(records) | Fallback(records) | BothFailed`.
- `Requests` (requests.dfy) holds the request, the store replies (`Env`),
  the outcome `ValidationRejected | Duplicate | Admitted | Error`,
  validation and the response type. Both handlers share these.
- `AppUpload` (app_upload.dfy) is `POST /upload` of app.js. `AppStep` gives
  the effect of one request as a function of the stores. The method
  `Upload` runs the handler on a `Backend`, one store call at a time, in
  source order, and is proved equal to `AppStep`.
- `LegacyUpload` (legacy_upload.dfy) is `POST /upload` of index.js, built
  the same way. It also holds the lemmas that contrast the two versions.

Two properties of the code are worth knowing before the table:

- Both handlers leave the staged temp file in place on their validation
  early returns (app.js:89-95, index.js:123-137). Every later exit removes
  it (`AppCleanup`, `LegacyCleanup`).
- Storage keys can collide. Uploads ("a_1", "b", "x") and ("a", "1", "b_x")
  have different original names, so app.js admits both. Both get the key
  `a_1_b_x`, and the second put replaces the first file's bytes
  (`AppKeyCollision`).

## Model

| member | source | states |
|---|---|---|
| Storage.FindByOriginalName | app.js:103-108 | The lookup finds nothing exactly when no row has that original file name. A result is the id of a row that has it. |
| Storage.Put | app.js:128-133 | No contract of its own. It is the store step of `s3.upload`; `Backend.PutObject` is proved to perform it, and `AppAdmissionEffects` states its effect. |
| Storage.Insert | app.js:136-138 | No contract of its own. It is the store step of the INSERT; `Backend.InsertRow` is proved to perform it, and `InsertKeepsIds` states that ids stay ascending. |
| Storage.Unlinked | app.js:111-112 | No contract of its own. It is the store step of removing the staged file; `Backend.Unlink` is proved to perform it, and `AppCleanup` states when it happens. |
| Storage.Backend.constructor | app.js:167-178 | The stores start with an empty table, an empty bucket and the given staged files, and ids start at 1. |
| Storage.Backend.PutObject | app.js:128-133 | The put stores the bytes under the key and replaces any object already there. Nothing else changes. |
| Storage.Backend.InsertRow | app.js:136-138 | The insert appends exactly one row with the next AUTO_INCREMENT id and the insert time. Earlier rows are unchanged and ids stay ascending. |
| Storage.Backend.Unlink | app.js:141 | Unlinking removes exactly that path from the staged files. |
| Naming.Sanitize | app.js:126 | Sanitizing keeps the length. Each character of `[A-Za-z0-9]` stays and every other character becomes `_`. |
| Naming.StorageKey | app.js:126-127 | No contract of its own. `StorageKeyParts` states its layout, and `StorageKeyCollides` shows it is not injective. |
| Naming.SanitizedIsSafe | app.js:126 | A sanitized name holds only letters, digits and `_`. |
| Naming.SanitizeIdempotent | index.js:142 | Sanitizing an already sanitized name changes nothing. |
| Naming.SanitizeKeepsAlnum | app.js:126 | A purely alphanumeric name is kept unchanged. |
| Naming.StorageKeyParts | app.js:126-127 | The key splits back into the sanitized name, `_`, nrp, `_` and the unchanged original name, at the positions set by the input lengths. |
| Naming.StorageKeyCollides | index.js:142-143 | The key is not injective. Shifting `_` between fields, or sanitizing away a space, gives two submissions one key. |
| Naming.StorageKeyExample | app.js:126-127 | ("Budi Santoso", "5001", "tugas1.pdf") gives the key "Budi_Santoso_5001_tugas1.pdf". |
| FileSize.UnitIndex | app.js:70 | The unit index is the `i` with `1024^i <= bytes < 1024^(i+1)`. |
| FileSize.UnitIndexUnique | app.js:69-70 | Only one index fits a size, so the chosen unit is the largest whose power of 1024 does not exceed the size. |
| FileSize.UnitIndexAtLeast | app.js:69-70 | A size of at least 1024^k gets a unit index of at least k. |
| FileSize.Hundredths | app.js:71 | The hundredths count is the size in that unit, rounded to the nearest hundredth, with ties going up (`toFixed(2)`). |
| FileSize.RoundsToUnique | index.js:106 | The rounding rule leaves exactly one candidate. |
| FileSize.HundredthsRange | app.js:70-71 | For the chosen unit, the printed number lies between 1 and 1024. |
| FileSize.NatText | app.js:71 | A whole number prints as at least one decimal digit, with no leading zero. |
| FileSize.NatTextRoundTrip | app.js:71 | Reading the printed digits back gives the number. |
| FileSize.DecimalText | app.js:71 | The printed number starts with the whole part printed as `NatText`. It has a decimal point exactly when the fraction is non-zero, and then never ends in `0` (what `parseFloat` and printing do). |
| FileSize.DecimalTextRoundTrip | index.js:106 | Reading the printed number back gives the hundredths it was printed from. |
| FileSize.FormatFileSizeMeaning | app.js:66-72 | For a non-zero size, the text is the rounded number in the unit that fits, then a space and the unit name. |
| FileSize.FormatFileSizeBeyondGB | index.js:104-106 | From 1024^4 bytes on, `sizes[i]` is past the array and the text ends in " undefined". |
| FileSize.FormatFileSize | app.js:66-72 | No contract of its own. `FormatFileSizeMeaning` states its meaning for non-zero sizes, `ExampleBytes` the zero case and `FormatFileSizeBeyondGB` the sizes past GB. |
| FileSize.UnitName | app.js:69 | No contract of its own. It is `sizes[i]`, including `undefined` past the array; `FormatFileSizeMeaning` and `FormatFileSizeBeyondGB` state its use. |
| FileSize.ExampleBytes | index.js:101-107 | 0 bytes gives "0 Bytes" and 1 byte gives "1 Bytes". |
| FileSize.ExampleOneKB | index.js:101-107 | 1024 bytes gives "1 KB". |
| FileSize.ExampleOneAndAHalfKB | app.js:66-72 | 1536 bytes gives "1.5 KB": `parseFloat` drops the trailing zero of "1.50". |
| FileSize.ExampleTwoKB | app.js:66-72 | 2048 bytes gives "2 KB". |
| FileSize.ExampleOneMB | index.js:101-107 | 1048576 bytes gives "1 MB". |
| Listing.MapSeq | app.js:32-42 | Mapping gives one result per element, in the same order. |
| Listing.StatusOrDefault | app.js:41 | No contract of its own. It is `row.status \|\| 'original'`; `AppListingFromRows` states the resulting `status`. |
| Listing.AppRowView | app.js:32-42 | No contract of its own. `AppListingFromRows` states every field of the record. |
| Listing.LegacyRowView | index.js:59-68 | No contract of its own. `LegacyListingFromRows` states every field of the record. |
| Listing.ObjectUrl | app.js:56 | No contract of its own. It is the URL template built from bucket, region and key; `ListingFromObjects` states its use. |
| Listing.ObjectView | app.js:49-57 | No contract of its own. `ListingFromObjects` states every field of the record. |
| Listing.ListFiles | app.js:25-63 | No contract of its own. `ListingSource` states which branch answers, and `ListingNeverMixed` that the answers are never mixed. |
| Listing.AppListFiles | app.js:25-63 | No contract of its own. Its meaning is stated by `AppListingFromRows`, `EmptyTableIsNotFallback`, `ListingFromObjects` and `PrimaryNewestFirst`. |
| Listing.LegacyListFiles | index.js:48-98 | No contract of its own. Its meaning is stated by `LegacyListingFromRows`, `ListingFromObjects` and `LegacyListingIsAppWithoutStatus`. |
| Listing.AppListingFromRows | app.js:26-43 | A successful query, even one with no rows, is answered from the rows: one record per row in order, fields copied, size formatted, status defaulting to 'original'. |
| Listing.LegacyListingFromRows | index.js:51-70 | In index.js a successful query maps rows one to one, in order, with no `status`. |
| Listing.EmptyTableIsNotFallback | app.js:26-44 | Zero rows is a primary answer, so the bucket is not consulted. |
| Listing.ListingFromObjects | app.js:44-58 | After a thrown query, each object becomes one record: key as both names, 'Unknown' submitter, URL from bucket, region and key, no id, no status. Both versions do this identically. |
| Listing.ListingSource | app.js:25-63 | The answer is primary exactly when reading the rows succeeded. It is fallback exactly when only that read threw, and the single error exactly when the bucket listing threw too. |
| Listing.ListingNeverMixed | app.js:43-61 | No list is mixed. Every primary record has a row id and no fallback record does. |
| Listing.PrimaryNewestFirst | app.js:28-30 | Rows returned newest first give records newest first. |
| Listing.LegacyListingIsAppWithoutStatus | index.js:59-68 | index.js answers exactly what app.js answers, minus `status` on primary records. |
| Listing.FallbackExample | index.js:80-92 | With the table down and one 2048-byte object "x.pdf", the answer is one record with size "2 KB" and nama "Unknown". |
| Requests.ValidateMeaning | app.js:89-95 | A request passes validation exactly when it has a file and non-empty `nama` and `nrp`. "No file" is reported first. |
| Requests.Validate | app.js:89-95 | No contract of its own. `ValidateMeaning` states both directions of when it passes and which rejection comes first. |
| AppUpload.Upload | app.js:88-158 | The handler's store calls, in order, leave the stores and outcome that `AppStep` defines, and keep ids ascending. |
| AppUpload.AppResponseMeaning | app.js:115-156 | Only an admitted file gives success. 400 means a validation rejection and 500 a store error. A duplicate is a 200 failure. `plagiarismChecked` is false only when the lookup itself threw. |
| AppUpload.AppResponse | app.js:89-156 | No contract of its own. `AppResponseMeaning` states its codes, `success` and `plagiarismChecked`. |
| AppUpload.AppStep | app.js:88-158 | No contract of its own. `Upload` is proved to perform it; the branch lemmas below state each outcome and effect, and `AppStepKeepsConsistent` its invariant. |
| AppUpload.AppValidationNoEffect | app.js:89-95 | A validation rejection changes no store, not even the staged file. |
| AppUpload.AppDuplicateRejected | app.js:103-121 | A name already in the table, from any uploader, is rejected as a duplicate. No object is put, no row is inserted, and the staged file is removed. |
| AppUpload.AppAdmissionEffects | app.js:125-147 | After a fresh name and successful store calls, exactly one object is under the derived key. Exactly one row is appended with that key, the returned location, the payload size, the insert time and status original. |
| AppUpload.AppLookupFailure | app.js:102-106 | If the lookup throws, the result is a 500 error, nothing is written and the staged file is removed. |
| AppUpload.AppPutFailure | app.js:133 | If the put throws, the result is a 500 error, no row is inserted and the staged file is removed. |
| AppUpload.AppInsertFailure | app.js:136-138 | If the insert throws after the put, the result is a 500 error, the object stays (no rollback) and no row is added. |
| AppUpload.AppCleanup | app.js:111-155 | Once validation passes, every path removes the staged file. The validation returns leave it in place. |
| AppUpload.AppAdmittedIff | app.js:88-158 | A file is admitted exactly when it is valid, its name is new and all three store calls succeed. |
| AppUpload.AppStepKeepsConsistent | app.js:101-138 | One request keeps original names unique, every row backed by its object and ids ascending. Rows are only appended. |
| AppUpload.AppRunKeepsConsistent | app.js:101-138 | Any sequence of requests handled one at a time keeps that invariant. |
| AppUpload.AppScenarioDuplicate | app.js:103-147 | The first "tugas1.pdf" is admitted under "Budi_Santoso_5001_tugas1.pdf". A second one from another student is a duplicate that writes nothing. |
| AppUpload.AppKeyCollision | app.js:126-133 | Two admitted uploads with different original names can share one key, and the second put replaces the first row's file. |
| LegacyUpload.Upload | index.js:122-213 | The handler's store calls, in order, leave the stores and outcome that `LegacyStep` defines, and keep ids ascending. |
| LegacyUpload.LegacyStep | index.js:122-213 | No contract of its own. `Upload` is proved to perform it; the branch lemmas below state each outcome and effect, and `LegacyRunKeepsBacked` its invariant. |
| LegacyUpload.LegacyResponse | index.js:123-211 | It requires an outcome other than a duplicate, which this handler never produces. `LegacyResponseMeaning` states its meaning. |
| LegacyUpload.LegacyResponseMeaning | index.js:123-211 | On every request, the answer is 400 with the validation message exactly when validation fails. It is a 200 success with the S3 message exactly when validation passes and the put succeeds, and otherwise a 500 with the error message. There is never a `plagiarismChecked`. |
| LegacyUpload.LegacyNeverDuplicate | index.js:151-176 | The older handler never reports a duplicate. Its outcome does not depend on the table or on any lookup. |
| LegacyUpload.LegacyValidationNoEffect | index.js:123-137 | A validation rejection changes no store, not even the staged file. |
| LegacyUpload.LegacyAdmissionEffects | index.js:151-199 | With both stores answering, any valid upload is admitted, whatever the table holds. One object is put and one row without `status` is appended. |
| LegacyUpload.LegacySwallowsInsertFailure | index.js:179-199 | A failed insert after the put is swallowed. The object stays, no row is added, and the response is still a success. |
| LegacyUpload.LegacyPutFailure | index.js:201-211 | If the put throws, the result is a 500 error, nothing is inserted and the staged file is removed. |
| LegacyUpload.LegacyCleanup | index.js:187-206 | Once validation passes, both paths remove the staged file. The validation returns leave it in place. |
| LegacyUpload.LegacyAdmittedIff | index.js:151-211 | Success is reported exactly when the request is valid and the put succeeds. |
| LegacyUpload.LegacyRunKeepsBacked | index.js:155-176 | Any sequence of requests keeps every row backed by its object and ids ascending. Rows are only appended. |
| LegacyUpload.VersionsDifferOnRepeat | index.js:151-176 | Upload the same file name twice: index.js admits both and the table ends with two rows of that name. app.js rejects the second and writes nothing for it. |
| LegacyUpload.VersionsAgreeOnNewName | index.js:170-171 | For a new name with healthy stores, both versions put the same object and append the same row. The only difference is the `status` that app.js supplies. |

## Left out

- HTTP plumbing: Express routing, static pages (`/`, `/files`), `res.status(...).json(...)`. Responses are the `Outcome` and `Response` datatypes.
- Real MySQL and S3 clients: `createConnection`, the SQL text, `s3.upload`, `listObjectsV2`. The stores are abstract state and each call's failure is a boolean input. The S3 `Location`, the insert time and an error's `err.message` are opaque inputs.
- A throw from `connection.end()` (app.js:114, 139), `fs.readFileSync` (app.js:125, index.js:139) or `fs.unlinkSync` (app.js:141, index.js:188) is not modelled. Such a throw can turn an upload that is already written into a 500 response; at index.js:139 it falls outside the try block altogether.
- At index.js:177, `connection.end()` after a successful insert is inside the inner try, so a throw there is swallowed and the row stays. The `dbFails` input stands only for an insert that wrote nothing.
- Listing.ListingSource: `rows == None` also stands for a SELECT that succeeded but whose `connection.end()` threw (app.js:31, index.js:55). The `end()` call sits in the same try block as the SELECT, so the source then falls back to the bucket although the table answered. The model does not tell these cases apart from a failed SELECT.
- Storage.FindByOriginalName: the lookup compares names by exact string equality, and `AppUpload.AppStep` relies on it. MySQL compares `original_filename = ?` under the column's collation, which may ignore case and trailing spaces.
- Column length limits (VARCHAR(255), VARCHAR(50)) and other insert rejections are folded into the `dbFails` input.
- `/test-db` bootstrap (app.js:161-186, index.js:216-265): it is I/O. Its CREATE TABLE is used only for the row fields.
- create-user.js and test-connection.js: one-off provisioning and connectivity scripts with no logic.
- `formatDate`: it relies on locale formatting. Records keep the raw timestamp in `uploadDate`.
- FileSize.UnitIndex: the model takes the exact floor of log base 1024. The floating-point quotient `Math.log(bytes) / Math.log(1024)` could round differently at exact powers of 1024 from 1024^3 on, and sizes of 2^53 bytes or more are not exact doubles. Neither effect is modelled.
- Naming.Sanitize: it works per Unicode character. JavaScript's regex works per UTF-16 code unit, so the source turns a character outside the Basic Multilingual Plane into two underscores, and the model into one.
- The check-then-insert race between concurrent requests: the model handles requests one at a time.
- The 1000-key page limit of one `listObjectsV2` call: the fallback input is whatever one call returned.
- Ordering of the row query: the table's `ORDER BY upload_date DESC` is the database's job. The listing takes the rows in the order returned and keeps that order.
- Multer's staging of the temp file, file byte reading, logging and environment configuration (bucket and region are a `BucketConfig` value).
- index.js inserts without `status`. The model records that as `status == None`. Under app.js's schema the column default 'original' would apply; the app.js listing's default gives the same text.
