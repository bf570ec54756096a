/** The document handlers: batch upload, listing, lookup by id, the
    text-to-speech guard and deletion, over a document store held as a
    sequence in insertion order. Everything the handlers ask of the outside
    world (the temporary file, the two text extractors, the object store,
    the database write, the clock, the id generator) is an input. */
module DocumentController {
  import opened Wrappers
  import opened Strings
  import opened Seqs
  import opened NodePath
  import opened Models
  import opened Http
  import UploadMiddleware

  type Bytes = seq<bv8>

  /** The two extraction libraries, `pdf-parse` and `mammoth`'s raw-text
      extraction; None stands for a thrown exception. */
  datatype Extractors = Extractors(
    pdfParse: Bytes -> Option<string>,
    extractRawText: Bytes -> Option<string>)

  /** What the outside world does while one file is processed. */
  datatype FileWorld = FileWorld(
    contents: Option<Bytes>,   // reading the temporary file; None when it throws
    secureUrl: Option<string>, // the object-store upload; None when it rejects
    newId: DocId,              // the id the new record gets
    now: int,                  // the upload date stamped on the record
    saveOk: bool)              // whether the database write succeeds

  datatype Incoming = Incoming(file: UploadedFile, world: FileWorld)

  /** Where the processing of one file stopped. */
  datatype Stage = ReadFailed | ExtractFailed | StorageFailed | SaveFailed

  datatype FileStep = Saved(doc: Doc) | Dropped(stage: Stage)

  datatype UploadBody = UploadBody(message: string, documents: seq<Doc>)

  const NoFilesMessage := "No files uploaded"
  const UploadedMessage := "Files uploaded"
  const NotFoundMessage := "Document not found"
  const NoAudioMessage := "Document not found or no text available"
  const SpeechFailedMessage := "Failed to convert text to speech"
  const DeletedMessage := "Document deleted successfully"
  const DeleteFailedMessage := "Failed to delete document"
  const StorageFolder := "dms_documents"

  // ---------------------------------------------------------------------
  // Upload

  /** The extracted text for a file with lower-cased extension `ext`: the PDF
      parser for ".pdf", the DOCX extractor for ".docx", the empty text for
      anything else. None when the library throws. */
  function ExtractText(ext: string, contents: Bytes, ex: Extractors): (r: Option<string>)
    ensures ext == ".pdf" ==> r == ex.pdfParse(contents)
    ensures ext == ".docx" ==> r == ex.extractRawText(contents)
    ensures ext != ".pdf" && ext != ".docx" ==> r == Some("")
  {
    if ext == ".pdf" then ex.pdfParse(contents)
    else if ext == ".docx" then ex.extractRawText(contents)
    else Some("")
  }

  /** The body of the per-file `try` block: read, extract, upload to the
      object store, save. Any failure drops the file; on success the record
      carries the requester as owner and the file's own metadata. The
      object-store URL is not kept: the schema has no field for it. */
  function ProcessFile(userId: UserId, x: Incoming, ex: Extractors): FileStep
  {
    var ext := UploadMiddleware.LowerExt(x.file.originalName);
    match x.world.contents
    case None => Dropped(ReadFailed)
    case Some(buf) =>
      match ExtractText(ext, buf, ex)
      case None => Dropped(ExtractFailed)
      case Some(text) =>
        if x.world.secureUrl.None? then Dropped(StorageFailed)
        else if !x.world.saveOk then Dropped(SaveFailed)
        else Saved(Doc(x.world.newId, userId, x.file.originalName, ext, x.file.mimetype,
                       x.file.size, text, x.world.now, None))
  }

  /** A file is saved exactly when it was read, its text extracted, its
      bytes stored and its record written; the record then carries the
      requester as owner, the file's own name, size and MIME type, the
      lower-cased extension as type, the text the matching extractor gave,
      and no storage locator. */
  lemma ProcessFileOutcome(userId: UserId, x: Incoming, ex: Extractors)
    ensures ProcessFile(userId, x, ex).Saved? <==>
      && x.world.contents.Some?
      && ExtractText(UploadMiddleware.LowerExt(x.file.originalName), x.world.contents.value, ex).Some?
      && x.world.secureUrl.Some?
      && x.world.saveOk
    ensures ProcessFile(userId, x, ex).Saved? ==>
      var d := ProcessFile(userId, x, ex).doc;
      && d.id == x.world.newId
      && d.user == userId
      && d.originalName == x.file.originalName
      && d.fileType == UploadMiddleware.LowerExt(x.file.originalName)
      && d.size == x.file.size
      && d.mimetype == x.file.mimetype
      && d.uploadDate == x.world.now
      && d.locator.None?
      && Some(d.text) == ExtractText(d.fileType, x.world.contents.value, ex)
  {
  }

  /** The outcome of every file of a batch, each computed on its own. */
  function Steps(userId: UserId, xs: seq<Incoming>, ex: Extractors): seq<FileStep>
  {
    Map(xs, x => ProcessFile(userId, x, ex))
  }

  /** The records of the saved steps, in order. */
  function SavedDocs(steps: seq<FileStep>): seq<Doc>
  {
    if |steps| == 0 then []
    else
      var last := steps[|steps| - 1];
      SavedDocs(steps[..|steps| - 1]) + (if last.Saved? then [last.doc] else [])
  }

  /** The positions of the saved steps, in increasing order. */
  function SavedIndex(steps: seq<FileStep>): seq<nat>
  {
    if |steps| == 0 then []
    else
      var last := |steps| - 1;
      SavedIndex(steps[..last]) + (if steps[last].Saved? then [last] else [])
  }

  /** The loop of `uploadDocument` over already computed outcomes: each
      saved record is appended to the store, in order, and collected. */
  method SaveSteps(store: DocStore, steps: seq<FileStep>) returns (saved: seq<Doc>, store': DocStore)
    ensures saved == SavedDocs(steps)
    ensures store' == store + saved
  {
    saved := [];
    store' := store;
    var i := 0;
    while i < |steps|
      invariant 0 <= i <= |steps|
      invariant saved == SavedDocs(steps[..i])
      invariant store' == store + saved
    {
      var step := steps[i];
      assert steps[..i + 1][..i] == steps[..i];
      if step.Saved? {
        saved := saved + [step.doc];
        store' := store' + [step.doc];
      }
      i := i + 1;
    }
    assert steps[..|steps|] == steps;
  }

  /** `uploadDocument`: 400 without files and nothing stored; otherwise every
      file is processed in turn, the saved records are appended to the store
      and returned, and the status is 201 even when none was saved. */
  method UploadDocument(store: DocStore, userId: UserId, files: Option<seq<Incoming>>, ex: Extractors)
    returns (reply: Reply<UploadBody>, store': DocStore)
    ensures files.None? || |files.value| == 0 ==>
      reply == Message(400, NoFilesMessage) && store' == store
    ensures files.Some? && |files.value| > 0 ==>
      var docs := SavedDocs(Steps(userId, files.value, ex));
      && reply == Json(201, UploadBody(UploadedMessage, docs))
      && store' == store + docs
    ensures reply.Json? ==> forall d :: d in reply.body.documents ==> d.user == userId && d.locator.None?
  {
    if files.None? || |files.value| == 0 {
      return Message(400, NoFilesMessage), store;
    }
    var xs := files.value;
    var saved;
    saved, store' := SaveSteps(store, Steps(userId, xs, ex));
    UploadedRecordsAreOwned(userId, xs, ex);
    reply := Json(201, UploadBody(UploadedMessage, saved));
  }

  /** Batches compose: the records saved from `a + b` are those saved from
      `a` followed by those saved from `b`. */
  lemma {:induction false} SavedDocsAppend(a: seq<FileStep>, b: seq<FileStep>)
    ensures SavedDocs(a + b) == SavedDocs(a) + SavedDocs(b)
    decreases |b|
  {
    if |b| == 0 {
      assert a + b == a;
    } else {
      var b' := b[..|b| - 1];
      assert (a + b)[..|a + b| - 1] == a + b';
      SavedDocsAppend(a, b');
    }
  }

  /** The saved records are exactly the in-order subsequence of the saved
      steps: one record per saved step, at strictly increasing positions,
      and no saved step left out. */
  lemma {:induction false} SavedIsInOrderSubsequence(steps: seq<FileStep>)
    ensures |SavedIndex(steps)| == |SavedDocs(steps)|
    ensures forall k :: 0 <= k < |SavedIndex(steps)| ==>
      && SavedIndex(steps)[k] < |steps|
      && steps[SavedIndex(steps)[k]].Saved?
      && SavedDocs(steps)[k] == steps[SavedIndex(steps)[k]].doc
    ensures forall k, l :: 0 <= k < l < |SavedIndex(steps)| ==> SavedIndex(steps)[k] < SavedIndex(steps)[l]
    ensures forall i :: 0 <= i < |steps| && steps[i].Saved? ==> i in SavedIndex(steps)
  {
    if |steps| > 0 {
      var init := steps[..|steps| - 1];
      SavedIsInOrderSubsequence(init);
      assert forall i :: 0 <= i < |init| ==> init[i] == steps[i];
    }
  }

  /** A file's outcome never depends on its siblings: uploading `xs + ys`
      saves what uploading `xs` and then `ys` separately would. */
  lemma UploadBatchComposes(userId: UserId, xs: seq<Incoming>, ys: seq<Incoming>, ex: Extractors)
    ensures SavedDocs(Steps(userId, xs + ys, ex)) == SavedDocs(Steps(userId, xs, ex)) + SavedDocs(Steps(userId, ys, ex))
  {
    MapAppend(xs, ys, x => ProcessFile(userId, x, ex));
    var a, b := Steps(userId, xs, ex), Steps(userId, ys, ex);
    SavedDocsAppend(a, b);
  }

  /** A file that fails at any stage is simply skipped, wherever it sits in
      the batch: the other files are saved exactly as without it. */
  lemma FailedFileIsSkipped(userId: UserId, xs: seq<Incoming>, bad: Incoming, ys: seq<Incoming>, ex: Extractors)
    requires ProcessFile(userId, bad, ex).Dropped?
    ensures SavedDocs(Steps(userId, xs + [bad] + ys, ex)) == SavedDocs(Steps(userId, xs + ys, ex))
  {
    UploadBatchComposes(userId, xs + [bad], ys, ex);
    UploadBatchComposes(userId, xs, [bad], ex);
    UploadBatchComposes(userId, xs, ys, ex);
    assert SavedDocs(Steps(userId, [bad], ex)) == [] by {
      assert Steps(userId, [bad], ex)[..0] == [];
    }
  }

  /** The response of a batch lists, in input order, one record per file that
      completed every stage, and each record is built from its own file. */
  lemma UploadedRecordsComeFromFiles(userId: UserId, xs: seq<Incoming>, ex: Extractors)
    ensures var steps := Steps(userId, xs, ex);
      var idx := SavedIndex(steps);
      var docs := SavedDocs(steps);
      && |idx| == |docs|
      && (forall k, l :: 0 <= k < l < |idx| ==> idx[k] < idx[l])
      && (forall k :: 0 <= k < |idx| ==> idx[k] < |xs| && ProcessFile(userId, xs[idx[k]], ex).Saved? && docs[k] == ProcessFile(userId, xs[idx[k]], ex).doc)
      && (forall i :: 0 <= i < |xs| ==> (i in idx <==> ProcessFile(userId, xs[i], ex).Saved?))
  {
    SavedIsInOrderSubsequence(Steps(userId, xs, ex));
  }

  /** Uploading keeps ids unique as long as the ids handed out are fresh. */
  lemma UploadPreservesUniqueIds(store: DocStore, userId: UserId, xs: seq<Incoming>, ex: Extractors)
    requires UniqueIds(store)
    requires forall i, j :: 0 <= i < j < |xs| ==> xs[i].world.newId != xs[j].world.newId
    requires forall i, d :: 0 <= i < |xs| && d in store ==> d.id != xs[i].world.newId
    ensures UniqueIds(store + SavedDocs(Steps(userId, xs, ex)))
  {
    var steps := Steps(userId, xs, ex);
    var docs := SavedDocs(steps);
    var idx := SavedIndex(steps);
    SavedIsInOrderSubsequence(steps);
    assert forall k :: 0 <= k < |docs| ==> docs[k].id == xs[idx[k]].world.newId;
    var all := store + docs;
    forall i, j | 0 <= i < j < |all|
      ensures all[i].id != all[j].id
    {
      if j >= |store| {
        if i >= |store| {
          assert idx[i - |store|] < idx[j - |store|];
        } else {
          assert all[i] in store;
        }
      }
    }
  }

  /** Every record an upload creates belongs to the requester and has no
      storage locator. */
  lemma UploadedRecordsAreOwned(userId: UserId, xs: seq<Incoming>, ex: Extractors)
    ensures forall d :: d in SavedDocs(Steps(userId, xs, ex)) ==> d.user == userId && d.locator.None?
  {
    var steps := Steps(userId, xs, ex);
    var docs := SavedDocs(steps);
    UploadedRecordsComeFromFiles(userId, xs, ex);
    forall d | d in docs
      ensures d.user == userId && d.locator.None?
    {
      var k :| 0 <= k < |docs| && docs[k] == d;
      ProcessFileOutcome(userId, xs[SavedIndex(steps)[k]], ex);
    }
  }

  // ---------------------------------------------------------------------
  // Listing

  /** Newest first: upload dates never increase along the sequence. */
  predicate NewestFirst(s: seq<Doc>)
  {
    forall i, j :: 0 <= i < j < |s| ==> s[i].uploadDate >= s[j].uploadDate
  }

  /** Puts `d` in front of the first record that is not newer than it. */
  function InsertByDate(d: Doc, s: seq<Doc>): (r: seq<Doc>)
    requires NewestFirst(s)
    ensures NewestFirst(r)
    ensures multiset(r) == multiset(s) + multiset{d}
    ensures |r| == |s| + 1 && (r[0] == d || (|s| > 0 && r[0] == s[0]))
  {
    if |s| == 0 then [d]
    else if d.uploadDate >= s[0].uploadDate then [d] + s
    else
      var rest := InsertByDate(d, s[1..]);
      assert s == [s[0]] + s[1..];
      assert rest[0].uploadDate <= s[0].uploadDate;
      [s[0]] + rest
  }

  /** The records of `s` reordered newest first. */
  function SortByDateDesc(s: seq<Doc>): (r: seq<Doc>)
    ensures NewestFirst(r)
    ensures multiset(r) == multiset(s)
  {
    if |s| == 0 then []
    else
      assert s == [s[0]] + s[1..];
      InsertByDate(s[0], SortByDateDesc(s[1..]))
  }

  /** `getDocuments`: the requester's records and no one else's, newest
      first. Records with equal dates come in store order; the database
      promises no particular order among them. */
  function GetDocuments(store: DocStore, requester: UserId): (r: Reply<seq<Doc>>)
    ensures r.Json? && r.status == 200
    ensures NewestFirst(r.body)
    ensures forall d :: multiset(r.body)[d] == if d.user == requester then multiset(store)[d] else 0
    ensures forall i :: 0 <= i < |r.body| ==> r.body[i].user == requester
    ensures forall d :: d in store && d.user == requester ==> d in r.body
  {
    var mine := Filter(store, (d: Doc) => d.user == requester);
    var sorted := SortByDateDesc(mine);
    forall d
      ensures multiset(sorted)[d] == if d.user == requester then multiset(store)[d] else 0
    {
      FilterCount(store, (d: Doc) => d.user == requester, d);
    }
    assert forall i :: 0 <= i < |sorted| ==> sorted[i].user == requester by {
      forall i | 0 <= i < |sorted|
        ensures sorted[i].user == requester
      {
        assert sorted[i] in multiset(mine);
        var k :| 0 <= k < |mine| && mine[k] == sorted[i];
      }
    }
    assert forall d :: d in mine ==> d in sorted by {
      forall d | d in mine
        ensures d in sorted
      {
        assert d in multiset(sorted);
      }
    }
    Json(200, sorted)
  }

  // ---------------------------------------------------------------------
  // Lookup by id, text to speech

  /** `findOne({ _id: id })`: the first record with that id; the owner plays
      no part. */
  function FindById(store: DocStore, id: DocId): (r: Option<Doc>)
    ensures r.Some? ==> r.value in store && r.value.id == id
    ensures r.None? <==> forall d :: d in store ==> d.id != id
  {
    match FirstIndex(store, (d: Doc) => d.id == id)
    case None => None
    case Some(i) => Some(store[i])
  }

  /** `getDocumentById`: the record with that id whoever asks, 404 when
      there is none. */
  function GetDocumentById(store: DocStore, requester: UserId, id: DocId): (r: Reply<Doc>)
    ensures r.Json? ==> r.status == 200 && r.body in store && r.body.id == id
    ensures r.Message? ==> r == Message(404, NotFoundMessage)
    ensures r.Message? <==> forall d :: d in store ==> d.id != id
  {
    match FindById(store, id)
    case None => Message(404, NotFoundMessage)
    case Some(d) => Json(200, d)
  }

  /** `getAudioFromDocument`: 404 when the record is missing or its text is
      empty. Past that guard the handler constructs a speech synthesizer
      that the module never binds, so the call throws and the reply is 500;
      no audio is ever produced. */
  function GetAudioFromDocument(store: DocStore, requester: UserId, id: DocId): (r: Reply<Bytes>)
    ensures r.Message?
    ensures r.status == 404 <==> FindById(store, id).None? || FindById(store, id).value.text == ""
    ensures r.status == 404 ==> r.message == NoAudioMessage
    ensures r.status != 404 ==> r == Message(500, SpeechFailedMessage)
  {
    match FindById(store, id)
    case None => Message(404, NoAudioMessage)
    case Some(d) =>
      if d.text == "" then Message(404, NoAudioMessage)
      else Message(500, SpeechFailedMessage)
  }

  // ---------------------------------------------------------------------
  // Deletion

  /** `url.split('/').pop()`: the text after the last slash (all of it when
      there is none). */
  function LastSegment(url: string): (seg: string)
    ensures |seg| <= |url| && seg == url[|url| - |seg|..]
    ensures forall i :: 0 <= i < |seg| ==> seg[i] != '/'
    ensures |seg| == |url| || url[|url| - |seg| - 1] == '/'
  {
    match LastIndexOf(url, '/', 0, |url|)
    case None => url
    case Some(j) => url[j + 1..]
  }

  /** `s.split('.')[0]`: the text before the first dot (all of it when there
      is none). */
  function BeforeFirstDot(s: string): (head: string)
    ensures |head| <= |s| && head == s[..|head|]
    ensures forall i :: 0 <= i < |head| ==> head[i] != '.'
    ensures |head| == |s| || s[|head|] == '.'
  {
    match IndexOf(s, '.', 0)
    case None => s
    case Some(j) => s[..j]
  }

  /** The object-store public id the handler derives from a stored URL: the
      last path segment cut at its first dot. */
  function PublicId(url: string): (id: string)
    ensures forall i :: 0 <= i < |id| ==> id[i] != '/' && id[i] != '.'
  {
    BeforeFirstDot(LastSegment(url))
  }

  /** The name the handler asks the object store to destroy. */
  function DestroyTarget(url: string): string
  {
    StorageFolder + "/" + PublicId(url)
  }

  /** What a delete request did: the reply, the store afterwards and the
      name the object store was asked to destroy, if it was asked. */
  datatype DeleteOutcome = DeleteOutcome(reply: Reply<()>, store: DocStore, destroyed: Option<string>)

  /** The owner-and-id filter `findOneAndDelete` is given. */
  predicate OwnedMatch(d: Doc, id: DocId, requester: UserId)
  {
    d.id == id && d.user == requester
  }

  /** `deleteDocument`: removes the first record with that id owned by the
      requester, or replies 404 and changes nothing. The removal happens
      before the locator is read: a record without a locator is gone and the
      reply is 500 (reading a field of `undefined` throws); with a locator
      the object store is asked to destroy `dms_documents/<public id>`, and
      the reply is 200 when that call succeeds and 500 when it rejects. */
  function DeleteDocument(store: DocStore, requester: UserId, id: DocId, destroyOk: bool): (out: DeleteOutcome)
    ensures (forall d :: d in store ==> !OwnedMatch(d, id, requester)) ==>
      out == DeleteOutcome(Message(404, NotFoundMessage), store, None)
    ensures (exists d :: d in store && OwnedMatch(d, id, requester)) ==>
      exists i :: 0 <= i < |store| && OwnedMatch(store[i], id, requester)
        && (forall j :: 0 <= j < i ==> !OwnedMatch(store[j], id, requester))
        && out.store == RemoveAt(store, i)
        && out.destroyed == (if store[i].locator.Some? then Some(DestroyTarget(store[i].locator.value)) else None)
        && out.reply == (if store[i].locator.Some? && destroyOk then Message(200, DeletedMessage)
                         else Message(500, DeleteFailedMessage))
  {
    match FirstIndex(store, (d: Doc) => OwnedMatch(d, id, requester))
    case None => DeleteOutcome(Message(404, NotFoundMessage), store, None)
    case Some(i) =>
      var rest := RemoveAt(store, i);
      match store[i].locator
      case None => DeleteOutcome(Message(500, DeleteFailedMessage), rest, None)
      case Some(url) =>
        var target := DestroyTarget(url);
        if destroyOk then DeleteOutcome(Message(200, DeletedMessage), rest, Some(target))
        else DeleteOutcome(Message(500, DeleteFailedMessage), rest, Some(target))
  }
}
