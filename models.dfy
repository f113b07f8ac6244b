/**
 * The records of the document database (the mongoose schemas) and the
 * response a request handler sends back.
 */
module Models {
  import opened Wrappers

  /** Object ids of documents and users. */
  type DocId = nat
  type UserId = nat

  /** A free-form JSON object (`metadata`, a note's or highlight's `position`). */
  type Json = map<string, string>

  /** What a handler answers: a value (200), 404, 403, or the 500 that an
      exception in the handler (a failed schema validation) turns into. */
  datatype Response<+T> = Ok(value: T) | NotFound | Forbidden | ServerError

  datatype Urgency = High | Medium | Low

  datatype PermissionLevel = View | Edit | Admin

  /** A stored Document. `uploadedBy` is the owner every access check uses. */
  datatype Document = Document(
    id: DocId,
    title: Option<string>,
    summary: Option<string>,
    content: Option<string>,
    urgency: Urgency,
    departmentId: Option<nat>,
    uploadedBy: Option<UserId>,
    fileUrl: Option<string>,
    metadata: Option<Json>,
    createdAt: nat,
    updatedAt: nat)

  /** The fields a create or update request body may carry; None means absent. */
  datatype DocumentBody = DocumentBody(
    title: Option<string>,
    summary: Option<string>,
    content: Option<string>,
    urgency: Option<Urgency>,
    departmentId: Option<nat>,
    uploadedBy: Option<UserId>,
    fileUrl: Option<string>,
    metadata: Option<Json>,
    changeSummary: Option<string>)

  /** A DocumentPermission record; the store keys it by (documentId, userId). */
  datatype Permission = Permission(
    documentId: DocId,
    userId: UserId,
    level: PermissionLevel,
    grantedBy: Option<UserId>,
    createdAt: nat,
    updatedAt: nat)

  /** A DocumentVersion record. */
  datatype Version = Version(
    documentId: DocId,
    versionNumber: nat,
    content: string,
    changedBy: Option<UserId>,
    changeSummary: string,
    createdAt: nat)

  /** A row of an annotation collection: the document and user it belongs to,
      its creation time, and the collection's own fields. */
  datatype Row<+T> = Row(documentId: DocId, userId: UserId, createdAt: nat, data: T)

  datatype CommentData = CommentData(content: string)
  datatype NoteData = NoteData(content: string, position: Json)
  datatype HighlightData = HighlightData(text: string, position: Json, color: string)

  type Comment = Row<CommentData>
  type Note = Row<NoteData>
  type Highlight = Row<HighlightData>
  /** A bookmark is the (user, document) pair and its timestamp, nothing else. */
  type Bookmark = Row<()>

  const DefaultUrgency: Urgency := Medium
  const DefaultLevel: PermissionLevel := View
  const DefaultHighlightColor: string := "#FCD34D"

  /** The url a locally stored upload is served under. */
  function UploadUrl(filename: string): string {
    "/uploads/" + filename
  }

  /** The body with `file_url` replaced when a file came with the request. */
  function WithUpload(body: DocumentBody, upload: Option<string>): (b: DocumentBody)
    ensures upload.Some? ==> b.fileUrl == Some(UploadUrl(upload.value))
    ensures upload.None? ==> b == body
    ensures b.(fileUrl := body.fileUrl) == body
  {
    if upload.Some? then body.(fileUrl := Some(UploadUrl(upload.value))) else body
  }

  /** The document `new Document(payload)` builds on create: the payload's
      fields, the schema default for urgency, and the requester as owner. */
  function NewDocument(id: DocId, owner: UserId, body: DocumentBody, now: nat): (d: Document)
    ensures d.id == id && d.createdAt == now && d.updatedAt == now
    ensures d.uploadedBy == Some(owner)
    ensures body.urgency.None? ==> d.urgency == Medium
    ensures body.urgency.Some? ==> d.urgency == body.urgency.value
    ensures d.title == body.title && d.summary == body.summary && d.content == body.content
    ensures d.departmentId == body.departmentId && d.fileUrl == body.fileUrl
    ensures d.metadata == body.metadata
  {
    Document(id, body.title, body.summary, body.content, body.urgency.GetOr(DefaultUrgency),
             body.departmentId, Some(owner), body.fileUrl, body.metadata, now, now)
  }

  function Pick<T>(given: Option<T>, current: T): T {
    if given.Some? then given.value else current
  }

  function PickOpt<T>(given: Option<T>, current: Option<T>): Option<T> {
    if given.Some? then given else current
  }

  /** The document after `findByIdAndUpdate(id, body)`: every field the body
      carries overwrites the stored one (the owner included), the rest stay. */
  function ApplyBody(doc: Document, body: DocumentBody, now: nat): (d: Document)
    ensures d.id == doc.id && d.createdAt == doc.createdAt && d.updatedAt == now
    ensures body.title.Some? ==> d.title == body.title
    ensures body.title.None? ==> d.title == doc.title
    ensures body.summary.Some? ==> d.summary == body.summary
    ensures body.summary.None? ==> d.summary == doc.summary
    ensures body.content.Some? ==> d.content == body.content
    ensures body.content.None? ==> d.content == doc.content
    ensures body.urgency.Some? ==> d.urgency == body.urgency.value
    ensures body.urgency.None? ==> d.urgency == doc.urgency
    ensures body.departmentId.Some? ==> d.departmentId == body.departmentId
    ensures body.departmentId.None? ==> d.departmentId == doc.departmentId
    ensures body.uploadedBy.Some? ==> d.uploadedBy == body.uploadedBy
    ensures body.uploadedBy.None? ==> d.uploadedBy == doc.uploadedBy
    ensures body.fileUrl.Some? ==> d.fileUrl == body.fileUrl
    ensures body.fileUrl.None? ==> d.fileUrl == doc.fileUrl
    ensures body.metadata.Some? ==> d.metadata == body.metadata
    ensures body.metadata.None? ==> d.metadata == doc.metadata
  {
    Document(doc.id, PickOpt(body.title, doc.title), PickOpt(body.summary, doc.summary),
             PickOpt(body.content, doc.content), Pick(body.urgency, doc.urgency),
             PickOpt(body.departmentId, doc.departmentId), PickOpt(body.uploadedBy, doc.uploadedBy),
             PickOpt(body.fileUrl, doc.fileUrl), PickOpt(body.metadata, doc.metadata),
             doc.createdAt, now)
  }

  /** A DocumentVersion as `DocumentVersion.create` stores it: absent content
      and change summary take the schema default ''. */
  function NewVersion(doc: DocId, number: nat, content: Option<string>, editor: UserId,
                      summary: Option<string>, now: nat): (v: Version)
    ensures v.documentId == doc && v.versionNumber == number && v.changedBy == Some(editor)
    ensures content.None? ==> v.content == ""
    ensures content.Some? ==> v.content == content.value
    ensures summary.None? ==> v.changeSummary == ""
    ensures summary.Some? ==> v.changeSummary == summary.value
  {
    Version(doc, number, content.GetOr(""), Some(editor), summary.GetOr(""), now)
  }

  /** Mongoose's `required` check on a string field: present and non-empty. */
  predicate Required(s: Option<string>) {
    s.Some? && |s.value| > 0
  }
}
