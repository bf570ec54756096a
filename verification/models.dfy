/** The records the controllers read and write. Identifiers are the strings
    Mongoose renders ObjectIds as; stores are sequences in insertion order. */
module Models {
  import opened Wrappers

  type UserId = string
  type DocId = string

  /** A stored document record. The schema declares `user`, `originalName`,
      `fileType`, `mimetype`, `size`, `text` and `uploadDate` (plus `filename`
      and `path`, which nothing sets). The storage locator the controller
      reads when deleting is not a schema field, so under Mongoose's strict
      mode it is absent on every record the controller creates; `locator`
      is therefore optional. */
  datatype Doc = Doc(
    id: DocId,
    user: UserId,
    originalName: string,
    fileType: string,
    mimetype: string,
    size: nat,
    text: string,
    uploadDate: int,
    locator: Option<string>)

  type DocStore = seq<Doc>

  /** No two records share an id (Mongo's `_id` index). */
  predicate UniqueIds(store: DocStore)
  {
    forall i, j :: 0 <= i < j < |store| ==> store[i].id != store[j].id
  }

  /** A file as the multipart transport hands it over: the client's file
      name, the temporary path on disk, the byte size and the declared
      MIME type. */
  datatype UploadedFile = UploadedFile(
    originalName: string,
    path: string,
    size: nat,
    mimetype: string)

  /** A stored user: `password` holds the password hash, never the
      plaintext. */
  datatype User = User(id: UserId, email: string, password: string)

  type UserStore = seq<User>

  /** No two users share an email. */
  predicate UniqueEmails(users: UserStore)
  {
    forall i, j :: 0 <= i < j < |users| ==> users[i].email != users[j].email
  }
}
