/**
 * The backend's document-access handlers over one in-memory document
 * database. Each handler looks the document up, applies its access check,
 * reads or writes a collection and answers with a Response.
 */
module DocumentStore {
  import opened Wrappers
  import opened Models
  import opened Tables

  /** What toggleBookmark answers: `{message: 'Removed'}` or the new bookmark. */
  datatype BookmarkToggle = Removed | Added(bookmark: Bookmark)

  class Store {
    var docs: map<DocId, Document>
    var perms: map<(DocId, UserId), Permission>
    /** The DocumentVersion collection, grouped by document, oldest first. */
    var versions: map<DocId, seq<Version>>
    var bookmarks: seq<Bookmark>
    var comments: seq<Comment>
    var notes: seq<Note>
    var highlights: seq<Highlight>
    /** Logical time: the source of fresh object ids and `createdAt` stamps. */
    var clock: nat

    ghost predicate Valid()
      reads this
    {
      && TablesValid(docs, perms, versions, clock)
      && RowsValid(bookmarks, comments, notes, highlights, clock)
    }

    constructor ()
      ensures Valid()
      ensures docs == map[] && perms == map[] && versions == map[]
      ensures bookmarks == [] && comments == [] && notes == [] && highlights == []
    {
      docs, perms, versions := map[], map[], map[];
      bookmarks, comments, notes, highlights := [], [], [], [];
      clock := 0;
    }

    /** The lookup-then-gate prefix shared by the annotation handlers. */
    function Admit(d: Option<DocId>, u: UserId): Response<Document>
      reads this
    {
      if d.None? || d.value !in docs then NotFound
      else if !HasAccess(perms, docs[d.value], u) then Forbidden
      else Ok(docs[d.value])
    }

    /** The lookup-then-owner-check prefix of the owner-only handlers. */
    function AdmitOwner(d: Option<DocId>, u: UserId): Response<Document>
      reads this
    {
      if d.None? || d.value !in docs then NotFound
      else if !IsOwner(docs[d.value], u) then Forbidden
      else Ok(docs[d.value])
    }

    // ------------------------------------------------------- documents

    /** createDocument: the requester becomes the owner whatever the body
        says, gets an explicit admin permission granted by themselves, and the
        document starts with version 1 holding its content. */
    method CreateDocument(requester: UserId, body: DocumentBody, upload: Option<string>)
      returns (doc: Document)
      requires Valid()
      modifies this`docs, this`perms, this`versions, this`clock
      ensures Valid()
      ensures doc == NewDocument(old(clock), requester, WithUpload(body, upload), old(clock))
      ensures doc.uploadedBy == Some(requester)
      ensures doc.id !in old(docs) && docs == old(docs)[doc.id := doc]
      ensures perms == old(perms)[(doc.id, requester) :=
                Permission(doc.id, requester, Admin, Some(requester), old(clock), old(clock))]
      ensures forall k :: k in perms && k.0 == doc.id ==> k == (doc.id, requester)
      ensures doc.id !in old(versions)
      ensures versions == old(versions)[doc.id :=
                [NewVersion(doc.id, 1, doc.content, requester, Some("Initial version"), old(clock))]]
      ensures clock == old(clock) + 1
    {
      var id := clock;
      doc := NewDocument(id, requester, WithUpload(body, upload), clock);
      var p := Permission(id, requester, Admin, Some(requester), clock, clock);
      var v := NewVersion(id, 1, doc.content, requester, Some("Initial version"), clock);
      CreateKeepsValid(docs, perms, versions, clock, doc, p, v);
      RowsTick(bookmarks, comments, notes, highlights, clock);
      docs := docs[id := doc];
      perms := perms[(id, requester) := p];
      versions := versions[id := [v]];
      clock := clock + 1;
    }

    /** getDocument: 404 for a missing id, 403 unless the gate admits. */
    method GetDocument(requester: UserId, id: DocId) returns (r: Response<Document>)
      requires Valid()
      ensures r == NotFound <==> id !in docs
      ensures r == Forbidden <==> id in docs && !HasAccess(perms, docs[id], requester)
      ensures r.Ok? <==> id in docs && HasAccess(perms, docs[id], requester)
      ensures r.Ok? ==> r.value == docs[id]
    {
      r := Admit(Some(id), requester);
    }

    /** listDocuments: exactly the documents the gate admits, each once,
        newest first. */
    method ListDocuments(requester: UserId) returns (r: seq<Document>)
      requires Valid()
      ensures forall i :: 0 <= i < |r| ==> r[i].id in docs && docs[r[i].id] == r[i]
      ensures forall i :: 0 <= i < |r| ==> HasAccess(perms, r[i], requester)
      ensures forall d :: d in docs && HasAccess(perms, docs[d], requester) ==> docs[d] in r
      ensures forall i, j :: 0 <= i < j < |r| ==> r[i].createdAt > r[j].createdAt
    {
      r := VisibleDocuments(docs, perms, requester, clock);
    }

    /** updateDocument: gated like a read (any permission level suffices),
        applies the whole body, and appends version n + 1 exactly when the
        body carries new non-empty content. */
    method UpdateDocument(requester: UserId, id: DocId, body: DocumentBody, upload: Option<string>)
      returns (r: Response<Document>)
      requires Valid()
      modifies this`docs, this`versions, this`clock
      ensures Valid()
      ensures r == NotFound <==> id !in old(docs)
      ensures r == Forbidden <==> id in old(docs) && !HasAccess(perms, old(docs)[id], requester)
      ensures r.Ok? <==> id in old(docs) && HasAccess(perms, old(docs)[id], requester)
      ensures !r.Ok? ==> unchanged(this)
      ensures r.Ok? ==> r.value == ApplyBody(old(docs)[id], WithUpload(body, upload), old(clock))
      ensures r.Ok? ==> docs == old(docs)[id := r.value]
      ensures r.Ok? && ContentChanged(body.content, old(docs)[id].content) ==>
                versions == old(versions)[id := old(versions)[id] +
                  [NewVersion(id, |old(versions)[id]| + 1, body.content, requester,
                              Some(ChangeSummary(body.changeSummary)), old(clock))]]
      ensures r.Ok? && !ContentChanged(body.content, old(docs)[id].content) ==> versions == old(versions)
      ensures r.Ok? ==> clock == old(clock) + 1
    {
      if id !in docs { return NotFound; }
      if !HasAccess(perms, docs[id], requester) { return Forbidden; }
      var updated := Revise(requester, id, body, upload);
      r := Ok(updated);
    }

    /** The part of updateDocument behind the gate: the body is applied and
        a version is appended when the content changes. */
    method Revise(requester: UserId, id: DocId, body: DocumentBody, upload: Option<string>)
      returns (updated: Document)
      requires Valid() && id in docs
      modifies this`docs, this`versions, this`clock
      ensures Valid()
      ensures updated == ApplyBody(old(docs)[id], WithUpload(body, upload), old(clock))
      ensures docs == old(docs)[id := updated]
      ensures ContentChanged(body.content, old(docs)[id].content) ==>
                versions == old(versions)[id := old(versions)[id] +
                  [NewVersion(id, |old(versions)[id]| + 1, body.content, requester,
                              Some(ChangeSummary(body.changeSummary)), old(clock))]]
      ensures !ContentChanged(body.content, old(docs)[id].content) ==> versions == old(versions)
      ensures clock == old(clock) + 1
    {
      var doc := docs[id];
      var now := clock;
      updated := ApplyUpdate(id, WithUpload(body, upload));
      if ContentChanged(body.content, doc.content) {
        var history := versions[id];
        NextAfterConsecutive(history);
        AppendVersion(NewVersion(id, NextVersionNumber(history), body.content, requester,
                                 Some(ChangeSummary(body.changeSummary)), now));
      }
    }

    /** `findByIdAndUpdate(id, body, {new: true})`: the body is applied to a
        stored document at the current time, and the clock advances. */
    method ApplyUpdate(id: DocId, body: DocumentBody) returns (updated: Document)
      requires Valid() && id in docs
      modifies this`docs, this`clock
      ensures Valid()
      ensures updated == ApplyBody(old(docs)[id], body, old(clock))
      ensures docs == old(docs)[id := updated] && clock == old(clock) + 1
    {
      updated := ApplyBody(docs[id], body, clock);
      UpdateKeepsValid(docs, perms, versions, clock, id, body);
      RowsTick(bookmarks, comments, notes, highlights, clock);
      docs := docs[id := updated];
      clock := clock + 1;
    }

    /** `DocumentVersion.create(...)`: the next version of a stored document
        joins the end of its history. */
    method AppendVersion(v: Version)
      requires Valid() && v.documentId in docs
      requires v.versionNumber == NextVersionNumber(versions[v.documentId])
      modifies this`versions
      ensures Valid()
      ensures versions == old(versions)[v.documentId := old(versions)[v.documentId] + [v]]
    {
      AppendKeepsValid(docs, perms, versions, clock, v.documentId, v);
      versions := versions[v.documentId := versions[v.documentId] + [v]];
    }

    /** deleteDocument: owner only (a permission of any level is not
        enough); removes the document and its permission records and nothing
        else: versions, annotations and bookmarks stay. */
    method DeleteDocument(requester: UserId, id: DocId) returns (r: Response<()>)
      requires Valid()
      modifies this`docs, this`perms
      ensures Valid()
      ensures r == NotFound <==> id !in old(docs)
      ensures r == Forbidden <==> id in old(docs) && !IsOwner(old(docs)[id], requester)
      ensures r.Ok? <==> id in old(docs) && IsOwner(old(docs)[id], requester)
      ensures !r.Ok? ==> unchanged(this)
      ensures r.Ok? ==> docs == old(docs) - {id} && perms == WithoutDocument(old(perms), id)
    {
      var gate := AdmitOwner(Some(id), requester);
      if gate.NotFound? { return NotFound; }
      if gate.Forbidden? { return Forbidden; }
      docs := docs - {id};
      perms := WithoutDocument(perms, id);
      r := Ok(());
    }

    // ----------------------------------------------------- permissions

    /** grantPermission: owner only; an upsert on the (document, user) pair
        that touches no other record and answers the stored record. */
    method GrantPermission(requester: UserId, documentId: Option<DocId>, userId: UserId,
                           level: Option<PermissionLevel>) returns (r: Response<Permission>)
      requires Valid()
      modifies this`perms
      ensures Valid()
      ensures r == NotFound <==> documentId.None? || documentId.value !in docs
      ensures r == Forbidden <==>
                documentId.Some? && documentId.value in docs && !IsOwner(docs[documentId.value], requester)
      ensures !r.Ok? ==> unchanged(this)
      ensures r.Ok? ==> documentId.Some? && documentId.value in docs && IsOwner(docs[documentId.value], requester)
      ensures r.Ok? ==> r.value == Upserted(old(perms), documentId.value, userId, level, requester, clock)
      ensures r.Ok? ==> perms == old(perms)[(documentId.value, userId) := r.value]
    {
      var gate := AdmitOwner(documentId, requester);
      if gate.NotFound? { return NotFound; }
      if gate.Forbidden? { return Forbidden; }
      var p := Upserted(perms, documentId.value, userId, level, requester, clock);
      perms := perms[(documentId.value, userId) := p];
      r := Ok(p);
    }

    /** listPermissionsForDocument: owner only; every record of the document. */
    method ListPermissions(requester: UserId, id: DocId) returns (r: Response<set<Permission>>)
      requires Valid()
      ensures r == NotFound <==> id !in docs
      ensures r == Forbidden <==> id in docs && !IsOwner(docs[id], requester)
      ensures r.Ok? ==> id in docs && IsOwner(docs[id], requester)
      ensures r.Ok? ==> forall u :: (id, u) in perms ==> perms[(id, u)] in r.value
      ensures r.Ok? ==> forall p :: p in r.value ==> p.documentId == id && (id, p.userId) in perms && perms[(id, p.userId)] == p
    {
      var gate := AdmitOwner(Some(id), requester);
      if gate.NotFound? { return NotFound; }
      if gate.Forbidden? { return Forbidden; }
      r := Ok(PermissionsOf(perms, id));
    }

    // ------------------------------------------------------- bookmarks

    /** toggleBookmark: behind the gate, deletes the requester's bookmark of
        the document when there is one, otherwise creates it. */
    method ToggleBookmark(requester: UserId, documentId: Option<DocId>)
      returns (r: Response<BookmarkToggle>)
      requires Valid()
      modifies this`bookmarks, this`clock
      ensures Valid()
      ensures r == NotFound <==> documentId.None? || documentId.value !in docs
      ensures r == Forbidden <==>
                documentId.Some? && documentId.value in docs && !HasAccess(perms, docs[documentId.value], requester)
      ensures !r.ServerError?
      ensures !r.Ok? ==> unchanged(this)
      ensures r.Ok? ==> bookmarks == Toggled(old(bookmarks), requester, documentId.value, old(clock))
      ensures r.Ok? ==> (r.value == Removed <==> (requester, documentId.value) in Pairs(old(bookmarks)))
      ensures r.Ok? && r.value.Added? ==> r.value.bookmark == Row(documentId.value, requester, old(clock), ())
      ensures r.Ok? ==> clock == old(clock) + 1
    {
      var gate := Admit(documentId, requester);
      if gate.NotFound? { return NotFound; }
      if gate.Forbidden? { return Forbidden; }
      var d := documentId.value;
      ToggledKeeps(bookmarks, requester, d, clock);
      if (requester, d) in Pairs(bookmarks) {
        bookmarks := Unmark(bookmarks, requester, d);
        r := Ok(Removed);
      } else {
        var b := Row(d, requester, clock, ());
        bookmarks := bookmarks + [b];
        r := Ok(Added(b));
      }
      clock := clock + 1;
    }

    /** listBookmarks: no gate; exactly the requester's bookmarks, newest first. */
    method ListBookmarks(requester: UserId) returns (r: seq<Bookmark>)
      requires Valid()
      ensures forall b :: b in r <==> b in bookmarks && b.userId == requester
      ensures forall i, j :: 0 <= i < j < |r| ==> r[i].createdAt > r[j].createdAt
    {
      r := NewestFirst(bookmarks, OfUser(requester));
    }

    // ------------------------------------------------------ annotations

    /** addComment: behind the gate; a comment by the requester is appended,
        or the required-content check fails with a 500. */
    method AddComment(requester: UserId, documentId: Option<DocId>, content: Option<string>)
      returns (r: Response<Comment>)
      requires Valid()
      modifies this`comments, this`clock
      ensures Valid()
      ensures r == NotFound <==> documentId.None? || documentId.value !in docs
      ensures r == Forbidden <==>
                documentId.Some? && documentId.value in docs && !HasAccess(perms, docs[documentId.value], requester)
      ensures r == ServerError <==> Admit(documentId, requester).Ok? && !Required(content)
      ensures !r.Ok? ==> unchanged(this)
      ensures r.Ok? ==> r.value == Row(documentId.value, requester, old(clock), CommentData(content.value))
      ensures r.Ok? ==> comments == old(comments) + [r.value] && clock == old(clock) + 1
    {
      var gate := Admit(documentId, requester);
      if gate.NotFound? { return NotFound; }
      if gate.Forbidden? { return Forbidden; }
      if !Required(content) { return ServerError; }
      var c := Row(documentId.value, requester, clock, CommentData(content.value));
      AppendStamped(comments, c, clock);
      comments := comments + [c];
      clock := clock + 1;
      r := Ok(c);
    }

    /** listComments: behind the gate; every user's comments on the
        document, newest first. */
    method ListComments(requester: UserId, id: DocId) returns (r: Response<seq<Comment>>)
      requires Valid()
      ensures r == NotFound <==> id !in docs
      ensures r == Forbidden <==> id in docs && !HasAccess(perms, docs[id], requester)
      ensures r.Ok? ==> forall c :: c in r.value <==> c in comments && c.documentId == id
      ensures r.Ok? ==> forall i, j :: 0 <= i < j < |r.value| ==> r.value[i].createdAt > r.value[j].createdAt
    {
      var gate := Admit(Some(id), requester);
      if gate.NotFound? { return NotFound; }
      if gate.Forbidden? { return Forbidden; }
      r := Ok(NewestFirst(comments, OfDocument(id)));
    }

    /** createNote: behind the gate; a note by the requester is appended,
        its position defaulting to {}. */
    method CreateNote(requester: UserId, documentId: Option<DocId>, content: Option<string>,
                      position: Option<Json>) returns (r: Response<Note>)
      requires Valid()
      modifies this`notes, this`clock
      ensures Valid()
      ensures r == NotFound <==> documentId.None? || documentId.value !in docs
      ensures r == Forbidden <==>
                documentId.Some? && documentId.value in docs && !HasAccess(perms, docs[documentId.value], requester)
      ensures r == ServerError <==> Admit(documentId, requester).Ok? && !Required(content)
      ensures !r.Ok? ==> unchanged(this)
      ensures r.Ok? ==> r.value == Row(documentId.value, requester, old(clock),
                                       NoteData(content.value, position.GetOr(map[])))
      ensures r.Ok? ==> notes == old(notes) + [r.value] && clock == old(clock) + 1
    {
      var gate := Admit(documentId, requester);
      if gate.NotFound? { return NotFound; }
      if gate.Forbidden? { return Forbidden; }
      if !Required(content) { return ServerError; }
      var n := Row(documentId.value, requester, clock, NoteData(content.value, position.GetOr(map[])));
      AppendStamped(notes, n, clock);
      notes := notes + [n];
      clock := clock + 1;
      r := Ok(n);
    }

    /** listNotes: behind the gate; the notes of all users, newest first. */
    method ListNotes(requester: UserId, id: DocId) returns (r: Response<seq<Note>>)
      requires Valid()
      ensures r == NotFound <==> id !in docs
      ensures r == Forbidden <==> id in docs && !HasAccess(perms, docs[id], requester)
      ensures r.Ok? ==> forall n :: n in r.value <==> n in notes && n.documentId == id
      ensures r.Ok? ==> forall i, j :: 0 <= i < j < |r.value| ==> r.value[i].createdAt > r.value[j].createdAt
    {
      var gate := Admit(Some(id), requester);
      if gate.NotFound? { return NotFound; }
      if gate.Forbidden? { return Forbidden; }
      r := Ok(NewestFirst(notes, OfDocument(id)));
    }

    /** createHighlight: behind the gate; a highlight by the requester is
        appended, with the schema defaults for position and color. */
    method CreateHighlight(requester: UserId, documentId: Option<DocId>, text: Option<string>,
                           position: Option<Json>, color: Option<string>) returns (r: Response<Highlight>)
      requires Valid()
      modifies this`highlights, this`clock
      ensures Valid()
      ensures r == NotFound <==> documentId.None? || documentId.value !in docs
      ensures r == Forbidden <==>
                documentId.Some? && documentId.value in docs && !HasAccess(perms, docs[documentId.value], requester)
      ensures r == ServerError <==> Admit(documentId, requester).Ok? && !Required(text)
      ensures !r.Ok? ==> unchanged(this)
      ensures r.Ok? ==> r.value == Row(documentId.value, requester, old(clock),
                          HighlightData(text.value, position.GetOr(map[]), color.GetOr(DefaultHighlightColor)))
      ensures r.Ok? ==> highlights == old(highlights) + [r.value] && clock == old(clock) + 1
    {
      var gate := Admit(documentId, requester);
      if gate.NotFound? { return NotFound; }
      if gate.Forbidden? { return Forbidden; }
      if !Required(text) { return ServerError; }
      var h := Row(documentId.value, requester, clock,
                   HighlightData(text.value, position.GetOr(map[]), color.GetOr(DefaultHighlightColor)));
      AppendStamped(highlights, h, clock);
      highlights := highlights + [h];
      clock := clock + 1;
      r := Ok(h);
    }

    /** listHighlights: behind the gate; all users' highlights, newest first. */
    method ListHighlights(requester: UserId, id: DocId) returns (r: Response<seq<Highlight>>)
      requires Valid()
      ensures r == NotFound <==> id !in docs
      ensures r == Forbidden <==> id in docs && !HasAccess(perms, docs[id], requester)
      ensures r.Ok? ==> forall h :: h in r.value <==> h in highlights && h.documentId == id
      ensures r.Ok? ==> forall i, j :: 0 <= i < j < |r.value| ==> r.value[i].createdAt > r.value[j].createdAt
    {
      var gate := Admit(Some(id), requester);
      if gate.NotFound? { return NotFound; }
      if gate.Forbidden? { return Forbidden; }
      r := Ok(NewestFirst(highlights, OfDocument(id)));
    }

    // -------------------------------------------------------- versions

    /** listVersions: behind the gate, read only; every version of the
        document by descending number, the i-th one numbered n - i. */
    method ListVersions(requester: UserId, id: DocId) returns (r: Response<seq<Version>>)
      requires Valid()
      ensures r == NotFound <==> id !in docs
      ensures r == Forbidden <==> id in docs && !HasAccess(perms, docs[id], requester)
      ensures r.Ok? ==> id in versions && |r.value| == |versions[id]|
      ensures r.Ok? ==> forall i :: 0 <= i < |r.value| ==>
                r.value[i] == versions[id][|versions[id]| - 1 - i]
                && r.value[i].versionNumber == |versions[id]| - i
    {
      var gate := Admit(Some(id), requester);
      if gate.NotFound? { return NotFound; }
      if gate.Forbidden? { return Forbidden; }
      VersionsNewestFirst(versions[id]);
      r := Ok(Reverse(versions[id]));
    }
  }
}
