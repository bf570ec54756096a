/** Properties that relate several document handlers, or a handler to the
    store invariant that ids are unique. */
module DocumentProperties {
  import opened Wrappers
  import opened Seqs
  import opened Models
  import opened Http
  import opened DocumentController

  /** The last segment of `prefix/tail` is `tail` when `tail` has no slash. */
  lemma LastSegmentOfJoin(prefix: string, tail: string)
    requires forall i :: 0 <= i < |tail| ==> tail[i] != '/'
    ensures LastSegment(prefix + "/" + tail) == tail
  {
    var url := prefix + "/" + tail;
    assert url[|prefix|] == '/';
    assert forall i :: 0 <= i < |tail| ==> url[|prefix| + 1 + i] == tail[i];
    assert url[|url| - |tail|..] == tail;
  }

  /** The text before the first dot of `name.rest` is `name` when `name` has
      no dot. */
  lemma BeforeFirstDotOfJoin(name: string, rest: string)
    requires forall i :: 0 <= i < |name| ==> name[i] != '.'
    ensures BeforeFirstDot(name + "." + rest) == name
  {
    var s := name + "." + rest;
    assert s[|name|] == '.';
    assert forall i :: 0 <= i < |name| ==> s[i] == name[i];
    assert s[..|name|] == name;
  }

  /** For an object-store URL whose last segment is `<name>.<format>`, with
      a name free of slashes and dots, the public id is that name and the
      destroy call names `dms_documents/<name>`. */
  lemma PublicIdOfStorageUrl(prefix: string, name: string, format: string)
    requires forall i :: 0 <= i < |name| ==> name[i] != '/' && name[i] != '.'
    requires forall i :: 0 <= i < |format| ==> format[i] != '/'
    ensures PublicId(prefix + "/" + name + "." + format) == name
    ensures DestroyTarget(prefix + "/" + name + "." + format) == "dms_documents/" + name
  {
    var tail := name + "." + format;
    assert prefix + "/" + name + "." + format == prefix + "/" + tail;
    assert forall i :: 0 <= i < |tail| ==> tail[i] != '/';
    LastSegmentOfJoin(prefix, tail);
    BeforeFirstDotOfJoin(name, format);
  }

  /** Lookup by id ignores ownership: with unique ids, anyone who knows the
      id of a record is served that record. */
  lemma AnyoneCanReadById(store: DocStore, d: Doc, requester: UserId)
    requires UniqueIds(store)
    requires d in store
    ensures GetDocumentById(store, requester, d.id) == Json(200, d)
  {
    var r := GetDocumentById(store, requester, d.id);
    var i :| 0 <= i < |store| && store[i] == d;
    var j :| 0 <= j < |store| && store[j] == r.body;
    assert i == j;
  }

  /** With unique ids, the audio request for an existing record stops at the
      guard exactly when that record's text is empty. */
  lemma AudioGuardForRecord(store: DocStore, d: Doc, requester: UserId)
    requires UniqueIds(store)
    requires d in store
    ensures GetAudioFromDocument(store, requester, d.id).status == 404 <==> d.text == ""
  {
    var r := FindById(store, d.id).value;
    var i :| 0 <= i < |store| && store[i] == d;
    var j :| 0 <= j < |store| && store[j] == r;
    assert i == j;
  }

  /** Deleting someone else's record, or an id that is not stored, is a 404
      that changes nothing. */
  lemma DeleteRequiresOwnership(store: DocStore, requester: UserId, id: DocId, destroyOk: bool)
    requires forall d :: d in store && d.id == id ==> d.user != requester
    ensures DeleteDocument(store, requester, id, destroyOk) == DeleteOutcome(Message(404, NotFoundMessage), store, None)
  {
  }

  /** Removing a record keeps ids unique and leaves no record with its id. */
  lemma RemoveKeepsIdsUnique(store: DocStore, i: nat)
    requires UniqueIds(store)
    requires i < |store|
    ensures UniqueIds(RemoveAt(store, i))
    ensures forall d :: d in RemoveAt(store, i) ==> d.id != store[i].id
  {
    var r := RemoveAt(store, i);
    forall d | d in r
      ensures d.id != store[i].id
    {
      var k :| 0 <= k < |r| && r[k] == d;
      if k < i {
        assert r[k] == store[k];
      } else {
        assert r[k] == store[k + 1];
      }
    }
  }

  /** A delete that finds its record, whatever its reply, leaves ids unique
      and no record with that id, so repeating it is a 404 that changes
      nothing. */
  lemma DeleteTwice(store: DocStore, requester: UserId, id: DocId, ok1: bool, ok2: bool)
    requires UniqueIds(store)
    requires exists k :: 0 <= k < |store| && OwnedMatch(store[k], id, requester)
    ensures var first := DeleteDocument(store, requester, id, ok1);
      && UniqueIds(first.store)
      && DeleteDocument(first.store, requester, id, ok2)
         == DeleteOutcome(Message(404, NotFoundMessage), first.store, None)
  {
    var first := DeleteDocument(store, requester, id, ok1);
    var i :| 0 <= i < |store| && OwnedMatch(store[i], id, requester)
      && first.store == RemoveAt(store, i);
    RemoveKeepsIdsUnique(store, i);
  }

  /** Deleting an owned record that has no locator removes it, asks the
      object store for nothing and replies 500. */
  lemma DeleteWithoutLocator(store: DocStore, d: Doc, destroyOk: bool)
    requires UniqueIds(store)
    requires d in store && d.locator.None?
    ensures var out := DeleteDocument(store, d.user, d.id, destroyOk);
      && out.reply == Message(500, DeleteFailedMessage)
      && out.destroyed.None?
      && |out.store| == |store| - 1
      && d !in out.store
  {
    var k :| 0 <= k < |store| && store[k] == d;
    assert forall j :: 0 <= j < |store| && OwnedMatch(store[j], d.id, d.user) ==> j == k;
    assert FirstIndex(store, (e: Doc) => OwnedMatch(e, d.id, d.user)) == Some(k);
    RemoveKeepsIdsUnique(store, k);
  }

  /** Records created by an upload carry no locator, so deleting one, as its
      uploader, removes it, asks the object store for nothing and replies
      500. */
  lemma DeleteOfUploadedRecord(store: DocStore, userId: UserId, xs: seq<Incoming>, ex: Extractors,
                               d: Doc, destroyOk: bool)
    requires UniqueIds(store + SavedDocs(Steps(userId, xs, ex)))
    requires d in SavedDocs(Steps(userId, xs, ex))
    ensures var all := store + SavedDocs(Steps(userId, xs, ex));
      var out := DeleteDocument(all, userId, d.id, destroyOk);
      && out.reply == Message(500, DeleteFailedMessage)
      && out.destroyed.None?
      && d !in out.store
  {
    UploadedRecordsAreOwned(userId, xs, ex);
    DeleteWithoutLocator(store + SavedDocs(Steps(userId, xs, ex)), d, destroyOk);
  }

  /** After an upload with fresh ids, fetching any returned record by id, by
      anyone, serves exactly that record, extracted text included. */
  lemma UploadThenGetById(store: DocStore, userId: UserId, xs: seq<Incoming>, ex: Extractors,
                          d: Doc, requester: UserId)
    requires UniqueIds(store)
    requires forall i, j :: 0 <= i < j < |xs| ==> xs[i].world.newId != xs[j].world.newId
    requires forall i, e :: 0 <= i < |xs| && e in store ==> e.id != xs[i].world.newId
    requires d in SavedDocs(Steps(userId, xs, ex))
    ensures GetDocumentById(store + SavedDocs(Steps(userId, xs, ex)), requester, d.id) == Json(200, d)
  {
    UploadPreservesUniqueIds(store, userId, xs, ex);
    AnyoneCanReadById(store + SavedDocs(Steps(userId, xs, ex)), d, requester);
  }
}
