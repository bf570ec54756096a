# Document-management backend: a Dafny model of its core

The system is a small Express/Mongoose backend. Users register and log in,
upload PDF and DOCX files, and have their text extracted. They can list and
fetch their documents, ask for a spoken rendition and delete documents. This
project models the three parts that hold logic:

- **Upload middleware.** This is the multer file filter. It lower-cases
  `path.extname` of the client's file name and tests it against the
  unanchored regular expression `/pdf|docx/`. It also builds the on-disk file
  name `<timestamp>-<original name>`. Node's posix `extname` is modelled in
  full (module `NodePath`). `/pdf|docx/.test` is modelled as a scan, proved
  equal to "contains `pdf` or `docx` as a substring".
- **Document controller.** This is a state machine over a document store,
  held as a sequence of `Doc` records in insertion order.
  - Upload is a loop (`UploadDocument`) checked against a functional
    reference (`Steps`, `SavedDocs`).
  - Every outside effect of one file is an input (`FileWorld`): reading the
    temporary file, the object-store upload, the database write, the new id
    and the upload date.
  - The two text extractors are uninterpreted functions that may fail
    (`Extractors`).
  - Listing filters by owner and sorts newest first. Lookup by id and the
    speech guard match on id alone. Delete removes by id and owner, then
    derives the object-store public id from the stored URL.
- **Auth controller.** Register and login run over a user store. Password
  hashing, hash comparison and token signing are uninterpreted functions.

The controller sets a `cloudinaryUrl` on new records, but the document schema
(models/document.js:3-13) declares no such field. Mongoose's default strict
mode drops it and builds no accessor for it, so `doc.cloudinaryUrl` is
undefined on every record the database returns, not only on those an upload
created. `Doc.locator` is an `Option`, and every record an upload creates has
`None`. Deleting such a record removes it first, then fails while reading the
URL, so the reply is 500 (`DeleteOfUploadedRecord`). `DeleteDocument` still
models the branch with a locator (destroy, then 200 or 500), as the controller
is written; under the strict schema that branch is never reached.

Behaviours of the code that the model keeps as written:

- Text is extracted first, and the object-store upload comes after it.
- An extraction exception drops the file entirely, so every kept record went
  through a successful extraction.
- The storage URL is never persisted (see above).
- Lookup by id and the speech endpoint do no owner check.
- Past its 404 guard, the speech handler constructs `gTTS`, which the module
  never imports. It therefore always replies 500 and never streams audio.
- When the object-store destroy call rejects, delete replies 500. The record
  is already gone by then.

## Model

| member | source | states |
|---|---|---|
| NodePath.ExtnameNonEmptyIff | middleware/uploadMiddleware.js:23 | The extension is non-empty iff the base name has a dot after its first character and is not "..". |
| NodePath.ExtnameShape | middleware/uploadMiddleware.js:23 | A non-empty extension starts with a dot and holds no other dot. |
| NodePath.ExtnameEndsBasename | middleware/uploadMiddleware.js:23 | The extension is a suffix of the base name. |
| NodePath.ExtnameOfStemAndSuffix | middleware/uploadMiddleware.js:23 | For a slash-free `stem.suffix` with a non-empty stem and a dot-free suffix, the extension is "." + suffix. This includes "." for a trailing dot, with ".." as the one exception. |
| NodePath.ExtnameOfDotFile | middleware/uploadMiddleware.js:23 | A slash-free name whose only dot is its first character has the empty extension. |
| NodePath.ExtnameWithoutDot | middleware/uploadMiddleware.js:23 | A name with no dot has the empty extension. |
| NodePath.ExtnameLower | middleware/uploadMiddleware.js:23 | The extension of the lower-cased name is the lower-cased extension. |
| UploadMiddleware.SearchFrom | middleware/uploadMiddleware.js:22-24 | The regex scan from position i succeeds iff "pdf" or "docx" occurs at some position at or after i. |
| UploadMiddleware.AllowedTypesTest | middleware/uploadMiddleware.js:22-24 | `/pdf|docx/.test(s)` holds iff s contains "pdf" or "docx" as a substring. |
| UploadMiddleware.FileFilter | middleware/uploadMiddleware.js:21-29 | A file is accepted iff its lower-cased extension contains "pdf" or "docx". Every rejection carries "Only PDF and DOCX files are allowed". |
| UploadMiddleware.FilterIgnoresMetadata | middleware/uploadMiddleware.js:21-29 | Files with the same original name get the same decision, whatever their path, size or MIME type. |
| UploadMiddleware.FilterCaseInsensitive | middleware/uploadMiddleware.js:23 | Names that agree once lower-cased get the same decision. |
| UploadMiddleware.FilterOnStemAndSuffix | middleware/uploadMiddleware.js:22-25 | For a plain `stem.suffix` name, acceptance is exactly "the lower-cased suffix contains pdf or docx", with no anchoring. This includes "..", which has no extension and is rejected. |
| UploadMiddleware.UpperCasePdfAccepted | middleware/uploadMiddleware.js:23-25 | "a.PDF" is accepted. |
| UploadMiddleware.PdfxAccepted | middleware/uploadMiddleware.js:22-25 | "notes.pdfx" is accepted: the test is a substring test. |
| UploadMiddleware.XdocxAccepted | middleware/uploadMiddleware.js:22-25 | "x.xdocx" is accepted: the test is a substring test. |
| UploadMiddleware.ShortSuffixRejected | middleware/uploadMiddleware.js:22-28 | A three-letter lower-case suffix other than "pdf" is rejected with the fixed error. |
| UploadMiddleware.DocRejected | middleware/uploadMiddleware.js:26-27 | "a.doc" is rejected with "Only PDF and DOCX files are allowed". |
| UploadMiddleware.FilterRejectsNameWithoutDot | middleware/uploadMiddleware.js:26-27 | A name without an extension is rejected with the same error. |
| UploadMiddleware.DotDotRejected | middleware/uploadMiddleware.js:23-28 | The name ".." has no extension and is rejected with "Only PDF and DOCX files are allowed". |
| Strings.NatToDecimal | middleware/uploadMiddleware.js:17 | The timestamp renders as a non-empty string of digits with no leading zero. |
| Strings.DecimalRoundTrip | middleware/uploadMiddleware.js:17 | Reading the rendered timestamp back gives the timestamp. |
| UploadMiddleware.DiskFilename | middleware/uploadMiddleware.js:17 | The stored name ends with the original name, unchanged. It starts with a digit-only prefix followed by a dash. |
| UploadMiddleware.DiskFilenameRoundTrip | middleware/uploadMiddleware.js:17 | Splitting the stored name at its first dash gives back exactly the timestamp and the original name, whatever dashes the original name holds. |
| DocumentController.ExtractText | controllers/documentController.js:27-33 | The PDF parser is used for ".pdf" and the DOCX extractor for ".docx". Any other extension gets the empty text. |
| DocumentController.ProcessFileOutcome | controllers/documentController.js:20-60 | A file is saved iff it was read, its text extracted, its bytes stored and its record written. The record then has the requester as owner, the file's name, size and MIME type, the lower-cased extension as type, the extractor's text, the new id and date, and no locator. |
| DocumentController.UploadDocument | controllers/documentController.js:9-64 | With no files (or none at all), the reply is 400 "No files uploaded" and the store is unchanged. Otherwise the reply is 201 "Files uploaded" with exactly the records of the files that completed, in order, appended to the store; zero completions still gives 201. Every returned record belongs to the requester. |
| DocumentController.SaveSteps | controllers/documentController.js:20-60 | The per-file loop appends each completed file's record to the store and collects it, in file order, skipping the files that were dropped. |
| DocumentController.SavedDocsAppend | controllers/documentController.js:19-61 | The records saved from a concatenated batch are those of the first part followed by those of the second. |
| DocumentController.SavedIsInOrderSubsequence | controllers/documentController.js:19-61 | The saved records are one per completed file, at strictly increasing input positions, with none left out. |
| DocumentController.UploadBatchComposes | controllers/documentController.js:19-61 | Uploading xs + ys saves what uploading xs and then ys separately saves: with distinct temporary paths, no file's outcome depends on its siblings. |
| DocumentController.FailedFileIsSkipped | controllers/documentController.js:24-60 | A file that fails at any stage, wherever it sits, leaves the other files' records exactly as without it. |
| DocumentController.UploadedRecordsComeFromFiles | controllers/documentController.js:19-61 | The k-th returned record is built from the k-th completed input file, and position i is saved iff file i completes. |
| DocumentController.UploadedRecordsAreOwned | controllers/documentController.js:42-51 | Every record an upload creates is owned by the requester and has no storage locator. |
| DocumentController.UploadPreservesUniqueIds | controllers/documentController.js:42-54 | If the new ids are fresh and distinct, ids stay unique in the store after an upload. |
| DocumentController.InsertByDate | controllers/documentController.js:69 | Inserting into a newest-first sequence keeps it newest first and adds exactly one occurrence of the record. |
| DocumentController.SortByDateDesc | controllers/documentController.js:69 | The result is newest first and is a permutation of the input. |
| DocumentController.GetDocuments | controllers/documentController.js:67-75 | The reply is 200 and lists the requester's records newest first. Each of the requester's records appears exactly as many times as it is stored, and no other record appears. |
| Seqs.FilterCount | controllers/documentController.js:69 | A query filter keeps every stored occurrence of a matching record and none of a non-matching one. |
| DocumentController.FindById | controllers/documentController.js:80 | A found record is in the store with the requested id. Nothing is found iff no record has that id. |
| DocumentController.GetDocumentById | controllers/documentController.js:78-86 | The reply is 200 with a stored record of that id, whoever asks. It is 404 "Document not found" iff no record has that id. |
| DocumentController.GetAudioFromDocument | controllers/documentController.js:88-105 | The reply is 404 "Document not found or no text available" iff the record is missing or its text is empty. Otherwise it is 500 "Failed to convert text to speech". |
| DocumentController.LastSegment | controllers/documentController.js:116 | `split('/').pop()` is the slash-free suffix that is either the whole URL or preceded by a slash. |
| DocumentController.BeforeFirstDot | controllers/documentController.js:116 | `split('.')[0]` is the dot-free prefix that is either the whole string or followed by a dot. |
| DocumentController.PublicId | controllers/documentController.js:116 | The derived public id contains no slash and no dot. |
| DocumentController.DeleteDocument | controllers/documentController.js:108-124 | With no record matching both id and owner, the reply is 404 and the store is unchanged. Otherwise the first such record is removed, whatever happens next. Without a locator, nothing is destroyed and the reply is 500. With one, `dms_documents/<public id>` is destroyed, and the reply is 200 if that call succeeds, else 500. |
| DocumentProperties.LastSegmentOfJoin | controllers/documentController.js:116 | The last segment of prefix/tail is tail when tail has no slash. |
| DocumentProperties.BeforeFirstDotOfJoin | controllers/documentController.js:116 | The text before the first dot of name.rest is name when name has no dot. |
| DocumentProperties.PublicIdOfStorageUrl | controllers/documentController.js:116-117 | For a URL ending in `/<name>.<format>` with a slash- and dot-free name, the public id is name. The destroy target is "dms_documents/" + name. |
| DocumentProperties.AnyoneCanReadById | controllers/documentController.js:80-82 | With unique ids, any requester fetching a stored record's id gets 200 with that record. |
| DocumentProperties.AudioGuardForRecord | controllers/documentController.js:90-91 | With unique ids, the speech request for a stored record is 404 iff that record's text is empty. |
| DocumentProperties.DeleteRequiresOwnership | controllers/documentController.js:110-113 | Deleting an id that is absent or belongs to someone else is 404 and changes nothing. |
| DocumentProperties.RemoveKeepsIdsUnique | controllers/documentController.js:110 | Removing a record keeps ids unique and leaves no record with the removed id. |
| DocumentProperties.DeleteTwice | controllers/documentController.js:110-113 | After a delete that found its record, whatever its reply, the same delete is 404 and changes nothing. |
| DocumentProperties.DeleteWithoutLocator | controllers/documentController.js:110-122 | Deleting an owned record without a locator removes it, destroys nothing and replies 500. |
| DocumentProperties.DeleteOfUploadedRecord | controllers/documentController.js:42-51 | A record created by upload has no locator, since the schema drops it. Its uploader's delete therefore removes it, destroys nothing and replies 500. |
| DocumentProperties.UploadThenGetById | controllers/documentController.js:78-86 | After an upload with fresh ids, fetching a returned record by id, by anyone, serves exactly that record, extracted text included. |
| AuthController.FindUserByEmail | controllers/authController.js:8 | A found user is stored with exactly that email. Nothing is found iff no user has it. |
| AuthController.Register | controllers/authController.js:5-26 | The reply is 400 "Email already exists" iff the email is present, and the store is then unchanged. A new email with a successful write appends exactly one user holding hash(password). The reply is then 201 with a token signed over the new id and a 7-day lifetime, or, when signing throws, 500 "Server error during registration." with the user already stored. A failed write is that 500 and changes nothing. A new email never gets a 400. |
| AuthController.Login | controllers/authController.js:28-45 | The reply is 400 "Invalid credentials" iff the email is unknown or the stored hash rejects the password, and both cases give that same reply. It is 200 iff the first user with that email has a hash accepting the password and its token can be signed. The 200 names that user and carries a token signed over its id and email. When signing throws, the reply is 500 "Login failed". |
| AuthController.RegisterKeepsEmailsUnique | controllers/authController.js:8-13 | Registration keeps emails unique. |
| AuthController.RegisterStoresOne | controllers/authController.js:11-13 | A successful write of a new email leaves exactly one user with that email. |
| AuthController.RegisterTwice | controllers/authController.js:8-23 | The first registration of a new email with a successful write stores the user, replying 201 or, when signing throws, 500. A second registration is 400 and changes nothing, leaving exactly one user with that email. |
| AuthController.RegisterThenLogin | controllers/authController.js:31-41 | If comparison accepts the password the hash was made from and signing succeeds, login right after registering returns the new user and a token over its id and email, whatever registration replied. |
| AuthController.SameReplyForUnknownEmailAndWrongPassword | controllers/authController.js:31-35 | An unknown email and a wrong password produce the identical reply. |
| AuthController.LoginSucceedsIff | controllers/authController.js:31-43 | With unique emails, login is 400 iff no stored user with that email has a hash accepting the password. It succeeds iff such a user exists and its token can be signed. |

## Left out

- Reading the temporary file, the object-store upload and destroy calls, and
  the database writes. These are outcome inputs (`FileWorld`, `destroyOk`,
  `saveOk`). The database queries are operations on the sequence-held stores.
- Database failures of the queries themselves are not modelled. These are the
  500 replies from the `catch` blocks of `getDocuments`, `getDocumentById`,
  `getAudioFromDocument`, `deleteDocument`, `register` and `login`. So are
  ObjectId cast errors for malformed ids: ids are abstract strings.
- Temporary-file removal (controllers/documentController.js:57) runs only
  after a successful save. Its own failure is caught after the record is
  already listed, so it changes no reply or record; no file system is kept.
  The removal can still cost a sibling its record, as the next line says.
- DocumentController.UploadBatchComposes: each file's contents are an
  independent input (`FileWorld.contents`), so the model takes the temporary
  paths of a batch to be distinct. In the program they need not be. The disk
  name is `<Date.now()>-<original name>` (middleware/uploadMiddleware.js:17),
  so two files of one request with the same name, stamped in the same
  millisecond, share one path. When the first completes, line 57 unlinks
  that path, and the second's read at line 25 then fails and drops it,
  although on its own it would have been saved. This collision is not
  modelled, and the composition lemma does not hold for such batches.
- An object stored by the upload call whose record then fails to save is left
  in the object store. Object-store contents are not modelled.
- `pdf-parse` and `mammoth` are uninterpreted, possibly failing functions of
  the file bytes.
- bcrypt and JWT are uninterpreted `hash`, `compare` and `sign`. These are
  fixed, deterministic functions: equal passwords hash equally and equal
  claims sign to equal tokens. bcrypt's random salt, JWT's issue time and the
  signing secret are abstracted away. `sign` may fail (None), as `jwt.sign`
  throws without a secret; `hash` and `compare` are total, so a bcrypt
  exception is not modelled. Login's 500 body also carries the exception text
  (`error`), which is not modelled. Token verification (the auth middleware)
  is not part of this model.
- The text-to-speech stream: the synthesizer is never imported, so only the
  404 guard and the resulting 500 are modelled.
- The check-then-insert race in `register` is a concurrency concern. Calls
  are modelled as atomic.
- Missing request-body fields (`email` or `password` undefined) are not
  modelled. Emails and passwords are strings.
- When the filter rejects, multer aborts the request with that error. Only
  the decision and its message are modelled.
- Clock readings (`Date.now()`, `new Date()`) are inputs.
- models/user.js is not part of this model. The user record's fields are
  taken from how the controller uses them.
- `toLowerCase` is modelled on ASCII letters only. No non-ASCII character
  lower-cases into "pdf" or "docx", so the filter decision is unaffected, but
  a stored `fileType` with non-ASCII letters may differ.
- `path.extname` is modelled with posix separators only, not Windows ones.
- Wiring and configuration are not modelled: server.js, the routes,
  swagger.js, config/cloudinary.js (its multer storage is unused by the
  controller) and the schema's text index.
- DocumentController.GetDocuments: records with equal upload dates come back
  in store order, while the database promises no particular order among them.
  The contract states newest-first order and the count of every record, which
  every tie order satisfies; it does not fix the order among equal dates.
