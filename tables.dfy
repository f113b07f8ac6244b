/**
 * Pure functions over the collections of the document database: the access
 * gate every handler applies, the document listing, version numbering, the
 * newest-first listings of annotation rows and the bookmark toggle.
 */
module Tables {
  import opened Wrappers
  import opened Models

  type Perms = map<(DocId, UserId), Permission>

  // ---------------------------------------------------------------- gate

  /** The gate repeated in every document-scoped handler: an explicit
      permission record for (document, user) of any level, or ownership. */
  predicate HasAccess(perms: Perms, doc: Document, u: UserId) {
    (doc.id, u) in perms || doc.uploadedBy == Some(u)
  }

  /** The owner-only check of delete and of permission management. */
  predicate IsOwner(doc: Document, u: UserId) {
    doc.uploadedBy == Some(u)
  }

  /** Every record sits under its own (document, user) key: the unique index. */
  ghost predicate PermsKeyed(perms: Perms) {
    forall k :: k in perms ==> perms[k].documentId == k.0 && perms[k].userId == k.1
  }

  /** Stored documents sit under their own id, were created at that clock
      tick, and always name an owner. */
  ghost predicate DocsKeyed(docs: map<DocId, Document>) {
    forall d :: d in docs ==> docs[d].id == d && docs[d].createdAt == d && docs[d].uploadedBy.Some?
  }

  lemma {:induction false} OwnerHasAccess(perms: Perms, doc: Document, u: UserId)
    requires IsOwner(doc, u)
    ensures HasAccess(perms, doc, u)
  {
  }

  // ------------------------------------------------------------- listing

  /** The ids of `DocumentPermission.find({user_id}).distinct('document_id')`. */
  function PermittedIds(perms: Perms, u: UserId): (ids: set<DocId>)
    ensures forall d :: d in ids <==> (d, u) in perms
  {
    var ids := set k | k in perms && k.1 == u :: k.0;
    assert forall d :: (d, u) in perms ==> d in ids by {
      forall d | (d, u) in perms ensures d in ids {
        var k := (d, u);
        assert k in perms && k.1 == u;
      }
    }
    ids
  }

  /** The ids of the documents whose `uploaded_by` is the user. */
  function OwnedIds(docs: map<DocId, Document>, u: UserId): (ids: set<DocId>)
    ensures forall d :: d in ids <==> d in docs && IsOwner(docs[d], u)
  {
    set d | d in docs && IsOwner(docs[d], u)
  }

  /** The members of `ids` below `n`, largest first. */
  function Descending(ids: set<nat>, n: nat): (r: seq<nat>)
    ensures forall x :: x in r <==> x in ids && x < n
    ensures forall i, j :: 0 <= i < j < |r| ==> r[i] > r[j]
  {
    if n == 0 then []
    else
      var rest := Descending(ids, n - 1);
      assert forall k :: 0 <= k < |rest| ==> rest[k] < n - 1 by {
        forall k | 0 <= k < |rest| ensures rest[k] < n - 1 { assert rest[k] in rest; }
      }
      (if n - 1 in ids then [n - 1] else []) + rest
  }

  /** listDocuments: the documents whose id is in the union of the permitted
      and the owned ids, sorted by `createdAt` descending. `bound` is an upper
      bound of all ids (the store's clock). */
  function VisibleDocuments(docs: map<DocId, Document>, perms: Perms, u: UserId, bound: nat): (r: seq<Document>)
    requires DocsKeyed(docs)
    requires forall d :: d in docs ==> d < bound
    ensures forall i :: 0 <= i < |r| ==> r[i].id in docs && docs[r[i].id] == r[i] && HasAccess(perms, r[i], u)
    ensures forall d :: d in docs && HasAccess(perms, docs[d], u) ==> docs[d] in r
    ensures forall i, j :: 0 <= i < j < |r| ==> r[i].createdAt > r[j].createdAt
  {
    var visible := (PermittedIds(perms, u) + OwnedIds(docs, u)) * docs.Keys;
    var ids := Descending(visible, bound);
    assert forall i :: 0 <= i < |ids| ==> ids[i] in visible by {
      forall i | 0 <= i < |ids| ensures ids[i] in visible { assert ids[i] in ids; }
    }
    var r := seq(|ids|, i requires 0 <= i < |ids| => docs[ids[i]]);
    assert forall d :: d in docs && HasAccess(perms, docs[d], u) ==> docs[d] in r by {
      forall d | d in docs && HasAccess(perms, docs[d], u) ensures docs[d] in r {
        assert d in visible;
        var i :| 0 <= i < |ids| && ids[i] == d;
        assert r[i] == docs[d];
      }
    }
    r
  }

  // --------------------------------------------------------- permissions

  /** `DocumentPermission.deleteMany({document_id: d})`. */
  function WithoutDocument(perms: Perms, d: DocId): (r: Perms)
    ensures forall k :: k in r <==> k in perms && k.0 != d
    ensures forall k :: k in r ==> r[k] == perms[k]
  {
    map k | k in perms && k.0 != d :: perms[k]
  }

  /** `DocumentPermission.find({document_id: d})`: every record of the document. */
  function PermissionsOf(perms: Perms, d: DocId): (r: set<Permission>)
    requires PermsKeyed(perms)
    ensures forall u :: (d, u) in perms ==> perms[(d, u)] in r
    ensures forall p :: p in r ==> p.documentId == d && (d, p.userId) in perms && perms[(d, p.userId)] == p
  {
    var r := set k | k in perms && k.0 == d :: perms[k];
    assert forall u :: (d, u) in perms ==> perms[(d, u)] in r by {
      forall u | (d, u) in perms ensures perms[(d, u)] in r {
        var k := (d, u);
        assert k in perms && k.0 == d;
      }
    }
    r
  }

  /** The record `findOneAndUpdate({document_id, user_id}, {permission_level,
      granted_by}, {upsert: true, new: true})` leaves and returns: an absent
      level keeps the stored one, or takes the schema default on insert. */
  function Upserted(perms: Perms, d: DocId, u: UserId, level: Option<PermissionLevel>,
                    grantor: UserId, now: nat): (p: Permission)
    ensures p.documentId == d && p.userId == u
    ensures p.grantedBy == Some(grantor) && p.updatedAt == now
    ensures level.Some? ==> p.level == level.value
    ensures level.None? && (d, u) in perms ==> p.level == perms[(d, u)].level
    ensures level.None? && (d, u) !in perms ==> p.level == View
    ensures (d, u) in perms ==> p.createdAt == perms[(d, u)].createdAt
    ensures (d, u) !in perms ==> p.createdAt == now
  {
    if (d, u) in perms then
      var old_ := perms[(d, u)];
      Permission(d, u, Pick(level, old_.level), Some(grantor), old_.createdAt, now)
    else
      Permission(d, u, level.GetOr(DefaultLevel), Some(grantor), now, now)
  }

  /** Granting the same pair twice leaves one record, with the second level
      and the first creation time. */
  lemma {:induction false} GrantTwice(perms: Perms, d: DocId, u: UserId, l1: Option<PermissionLevel>,
                                      l2: PermissionLevel, g1: UserId, g2: UserId, t1: nat, t2: nat)
    ensures var once := perms[(d, u) := Upserted(perms, d, u, l1, g1, t1)];
            var twice := once[(d, u) := Upserted(once, d, u, Some(l2), g2, t2)];
            && twice.Keys == perms.Keys + {(d, u)}
            && twice[(d, u)].level == l2
            && twice[(d, u)].grantedBy == Some(g2)
            && twice[(d, u)].createdAt == once[(d, u)].createdAt
            && forall k :: k in perms && k != (d, u) ==> twice[k] == perms[k]
  {
  }

  // ------------------------------------------------------------ versions

  /** The largest version number (what `sort({version_number: -1}).limit(1)`
      finds), 0 when there is no version. */
  function TopVersion(vs: seq<Version>): (m: nat)
    ensures forall i :: 0 <= i < |vs| ==> vs[i].versionNumber <= m
    ensures |vs| > 0 ==> exists i :: 0 <= i < |vs| && vs[i].versionNumber == m
    ensures |vs| == 0 ==> m == 0
  {
    if |vs| == 0 then 0
    else
      var rest := TopVersion(vs[1..]);
      if vs[0].versionNumber >= rest then vs[0].versionNumber else rest
  }

  /** `(latest[0]?.version_number || 1) + 1`: a missing or zero top number
      counts as 1. */
  function NextVersionNumber(vs: seq<Version>): (n: nat)
    ensures n >= 2
    ensures forall i :: 0 <= i < |vs| ==> vs[i].versionNumber < n
    ensures |vs| > 0 && TopVersion(vs) > 0 ==> n == TopVersion(vs) + 1
    ensures TopVersion(vs) == 0 ==> n == 2
  {
    var top := TopVersion(vs);
    (if top == 0 then 1 else top) + 1
  }

  /** updateDocument's `req.body.content && req.body.content !== doc.content`:
      the body carries non-empty content that differs from the stored one. */
  predicate ContentChanged(given: Option<string>, current: Option<string>) {
    given.Some? && given.value != "" && given != current
  }

  /** `req.body.change_summary || 'Updated content'`. */
  function ChangeSummary(given: Option<string>): (s: string)
    ensures s != ""
    ensures given.Some? && given.value != "" ==> s == given.value
    ensures !(given.Some? && given.value != "") ==> s == "Updated content"
  {
    if given.Some? && given.value != "" then given.value else "Updated content"
  }

  /** The versions of a document are numbered 1, 2, ..., n in order. */
  ghost predicate Consecutive(vs: seq<Version>) {
    forall i :: 0 <= i < |vs| ==> vs[i].versionNumber == i + 1
  }

  /** With consecutive numbering, the next number is one past the count. */
  lemma {:induction false} NextAfterConsecutive(vs: seq<Version>)
    requires |vs| > 0 && Consecutive(vs)
    ensures NextVersionNumber(vs) == |vs| + 1
  {
    var top := TopVersion(vs);
    assert vs[|vs| - 1].versionNumber == |vs|;
    var i :| 0 <= i < |vs| && vs[i].versionNumber == top;
  }

  /** Every document's history is non-empty, consecutively numbered and
      names that document; ids are below `clock`. */
  ghost predicate VersionsValid(versions: map<DocId, seq<Version>>, clock: nat) {
    forall d :: d in versions ==>
      d < clock && |versions[d]| > 0 && Consecutive(versions[d])
      && forall i :: 0 <= i < |versions[d]| ==> versions[d][i].documentId == d
  }

  /** Appending the next version of a document keeps every history valid. */
  lemma AppendVersionKeeps(versions: map<DocId, seq<Version>>, clock: nat, id: DocId, v: Version)
    requires VersionsValid(versions, clock) && id in versions
    requires v.documentId == id && v.versionNumber == NextVersionNumber(versions[id])
    ensures VersionsValid(versions[id := versions[id] + [v]], clock + 1)
  {
    ConsecutiveAppend(versions[id], v);
  }

  /** Applying an update body keeps the document under its key, with its
      creation time and an owner. */
  lemma ApplyBodyKeepsKeyed(docs: map<DocId, Document>, id: DocId, body: DocumentBody, now: nat)
    requires DocsKeyed(docs) && id in docs
    ensures DocsKeyed(docs[id := ApplyBody(docs[id], body, now)])
  {
  }

  /** The document-side tables agree: documents and permission records are
      keyed and older than the clock, and every document has a valid history. */
  ghost predicate TablesValid(docs: map<DocId, Document>, perms: Perms,
                              versions: map<DocId, seq<Version>>, clock: nat) {
    && DocsKeyed(docs)
    && (forall d :: d in docs ==> d < clock && d in versions)
    && PermsKeyed(perms)
    && (forall k :: k in perms ==> k.0 < clock)
    && VersionsValid(versions, clock)
  }

  /** Creating a document at the clock, with one permission record and
      version 1, keeps the tables valid. */
  lemma CreateKeepsValid(docs: map<DocId, Document>, perms: Perms, versions: map<DocId, seq<Version>>,
                         clock: nat, doc: Document, p: Permission, v: Version)
    requires TablesValid(docs, perms, versions, clock)
    requires doc.id == clock && doc.createdAt == clock && doc.uploadedBy.Some?
    requires p.documentId == clock && v.documentId == clock && v.versionNumber == 1
    ensures TablesValid(docs[clock := doc], perms[(clock, p.userId) := p], versions[clock := [v]], clock + 1)
  {
  }

  /** Applying an update body and advancing the clock keeps the tables valid. */
  lemma UpdateKeepsValid(docs: map<DocId, Document>, perms: Perms, versions: map<DocId, seq<Version>>,
                         clock: nat, id: DocId, body: DocumentBody)
    requires TablesValid(docs, perms, versions, clock) && id in docs
    ensures TablesValid(docs[id := ApplyBody(docs[id], body, clock)], perms, versions, clock + 1)
  {
    ApplyBodyKeepsKeyed(docs, id, body, clock);
  }

  /** Appending the next version of a stored document keeps the tables valid. */
  lemma AppendKeepsValid(docs: map<DocId, Document>, perms: Perms, versions: map<DocId, seq<Version>>,
                         clock: nat, id: DocId, v: Version)
    requires TablesValid(docs, perms, versions, clock) && id in docs
    requires v.documentId == id && v.versionNumber == NextVersionNumber(versions[id])
    ensures TablesValid(docs, perms, versions[id := versions[id] + [v]], clock)
  {
    AppendVersionKeeps(versions, clock, id, v);
  }

  /** Appending the next number keeps the numbering consecutive. */
  lemma {:induction false} ConsecutiveAppend(vs: seq<Version>, v: Version)
    requires |vs| > 0 && Consecutive(vs)
    requires v.versionNumber == NextVersionNumber(vs)
    ensures Consecutive(vs + [v])
  {
    NextAfterConsecutive(vs);
  }

  /** A sequence read back to front. */
  function Reverse<T>(s: seq<T>): (r: seq<T>)
    ensures |r| == |s|
    ensures forall i :: 0 <= i < |s| ==> r[i] == s[|s| - 1 - i]
  {
    if |s| == 0 then [] else Reverse(s[1..]) + [s[0]]
  }

  /** listVersions's `sort({version_number: -1})` on consecutively numbered
      versions: all of them, the i-th listed one numbered n - i. */
  lemma {:induction false} VersionsNewestFirst(vs: seq<Version>)
    requires Consecutive(vs)
    ensures |Reverse(vs)| == |vs|
    ensures forall i :: 0 <= i < |vs| ==> Reverse(vs)[i].versionNumber == |vs| - i
    ensures forall i, j :: 0 <= i < j < |vs| ==> Reverse(vs)[i].versionNumber > Reverse(vs)[j].versionNumber
  {
    var r := Reverse(vs);
    forall i | 0 <= i < |vs| ensures r[i].versionNumber == |vs| - i {
      assert r[i] == vs[|vs| - 1 - i];
    }
  }

  // ---------------------------------------------------------------- rows

  /** The rows a listing selects: those of one document (comments, notes,
      highlights) or those of one user (bookmarks). */
  datatype Scope = OfDocument(doc: DocId) | OfUser(user: UserId)

  predicate InScope<T>(x: Row<T>, s: Scope) {
    match s
    case OfDocument(d) => x.documentId == d
    case OfUser(u) => x.userId == u
  }

  /** Rows in insertion order have strictly increasing creation times. */
  ghost predicate Chronological<T>(rows: seq<Row<T>>) {
    forall i, j :: 0 <= i < j < |rows| ==> rows[i].createdAt < rows[j].createdAt
  }

  /** Keeping, in order, some of the rows behind a first one keeps the
      creation times increasing. */
  lemma {:induction false} ChronologicalCons<T(!new)>(x: Row<T>, kept: seq<Row<T>>, tail: seq<Row<T>>)
    requires Chronological([x] + tail) && Chronological(kept)
    requires forall y :: y in kept ==> y in tail
    ensures Chronological([x] + kept)
  {
    forall k | 0 <= k < |kept| ensures x.createdAt < kept[k].createdAt {
      assert kept[k] in tail;
      var j :| 0 <= j < |tail| && tail[j] == kept[k];
      var all := [x] + tail;
      assert all[0] == x && all[j + 1] == kept[k];
      assert all[0].createdAt < all[j + 1].createdAt;
    }
  }

  /** A collection in insertion order, every row stamped before `clock`. */
  ghost predicate RowsBefore<T>(rows: seq<Row<T>>, clock: nat) {
    Chronological(rows) && forall i :: 0 <= i < |rows| ==> rows[i].createdAt < clock
  }

  /** The annotation collections are in insertion order and older than the
      clock, and bookmarks are unique per (user, document). */
  ghost predicate RowsValid(bookmarks: seq<Bookmark>, comments: seq<Comment>, notes: seq<Note>,
                            highlights: seq<Highlight>, clock: nat) {
    && RowsBefore(bookmarks, clock) && UniquePairs(bookmarks)
    && RowsBefore(comments, clock)
    && RowsBefore(notes, clock)
    && RowsBefore(highlights, clock)
  }

  /** Advancing the clock keeps the collections valid. */
  lemma RowsTick(bookmarks: seq<Bookmark>, comments: seq<Comment>, notes: seq<Note>,
                 highlights: seq<Highlight>, clock: nat)
    requires RowsValid(bookmarks, comments, notes, highlights, clock)
    ensures RowsValid(bookmarks, comments, notes, highlights, clock + 1)
  {
  }

  /** Appending a row stamped with the current clock keeps the order. */
  lemma AppendStamped<T>(rows: seq<Row<T>>, x: Row<T>, clock: nat)
    requires RowsBefore(rows, clock) && x.createdAt == clock
    ensures RowsBefore(rows + [x], clock + 1)
  {
  }

  /** The `find(...)` filter: the rows in scope, in stored order. */
  function Select<T(!new)>(rows: seq<Row<T>>, s: Scope): (r: seq<Row<T>>)
    ensures forall x :: x in r <==> x in rows && InScope(x, s)
    ensures Chronological(rows) ==> Chronological(r)
  {
    if |rows| == 0 then []
    else
      var rest := Select(rows[1..], s);
      assert rows == [rows[0]] + rows[1..];
      if InScope(rows[0], s) then
        assert Chronological(rows) ==> Chronological([rows[0]] + rest) by {
          if Chronological(rows) { ChronologicalCons(rows[0], rest, rows[1..]); }
        }
        [rows[0]] + rest
      else rest
  }

  /** A `find(...).sort({createdAt: -1})` listing: every row in scope and
      only those, newest first. */
  function NewestFirst<T(!new)>(rows: seq<Row<T>>, s: Scope): (r: seq<Row<T>>)
    requires Chronological(rows)
    ensures forall x :: x in r <==> x in rows && InScope(x, s)
    ensures forall i, j :: 0 <= i < j < |r| ==> r[i].createdAt > r[j].createdAt
  {
    var sel := Select(rows, s);
    var r := Reverse(sel);
    assert forall x :: x in r <==> x in sel by {
      forall x ensures x in r <==> x in sel {
        if x in r { var i :| 0 <= i < |r| && r[i] == x; assert sel[|sel| - 1 - i] == x; }
        if x in sel { var i :| 0 <= i < |sel| && sel[i] == x; assert r[|sel| - 1 - i] == x; }
      }
    }
    r
  }

  // ----------------------------------------------------------- bookmarks

  /** The (user, document) pairs the bookmark rows stand for. */
  function Pairs(rows: seq<Bookmark>): set<(UserId, DocId)> {
    set b | b in rows :: (b.userId, b.documentId)
  }

  /** The unique index on (user_id, document_id). */
  ghost predicate UniquePairs(rows: seq<Bookmark>) {
    forall i, j :: 0 <= i < j < |rows| ==>
      (rows[i].userId, rows[i].documentId) != (rows[j].userId, rows[j].documentId)
  }

  /** `Bookmark.deleteOne` of the (u, d) row: every other row, in order. */
  function Unmark(rows: seq<Bookmark>, u: UserId, d: DocId): (r: seq<Bookmark>)
    ensures forall x :: x in r <==> x in rows && (x.userId, x.documentId) != (u, d)
    ensures |r| <= |rows|
  {
    if |rows| == 0 then []
    else
      var rest := Unmark(rows[1..], u, d);
      assert rows == [rows[0]] + rows[1..];
      if (rows[0].userId, rows[0].documentId) == (u, d) then rest else [rows[0]] + rest
  }

  /** Deleting the (u, d) row removes exactly that pair. */
  lemma {:induction false} UnmarkPairs(rows: seq<Bookmark>, u: UserId, d: DocId)
    ensures Pairs(Unmark(rows, u, d)) == Pairs(rows) - {(u, d)}
  {
    var r := Unmark(rows, u, d);
    forall p ensures p in Pairs(r) <==> p in Pairs(rows) - {(u, d)} {
      if p in Pairs(r) {
        var b :| b in r && p == (b.userId, b.documentId);
        assert b in rows;
      }
      if p in Pairs(rows) - {(u, d)} {
        var b :| b in rows && p == (b.userId, b.documentId);
        assert b in r;
      }
    }
  }

  /** Deleting a row keeps the stored order. */
  lemma {:induction false} UnmarkChronological(rows: seq<Bookmark>, u: UserId, d: DocId)
    requires Chronological(rows)
    ensures Chronological(Unmark(rows, u, d))
  {
    if |rows| > 0 {
      var rest := Unmark(rows[1..], u, d);
      assert rows == [rows[0]] + rows[1..];
      assert Chronological(rows[1..]) by {
        forall i, j | 0 <= i < j < |rows[1..]| ensures rows[1..][i].createdAt < rows[1..][j].createdAt {
          assert rows[1..][i] == rows[i + 1] && rows[1..][j] == rows[j + 1];
        }
      }
      UnmarkChronological(rows[1..], u, d);
      if (rows[0].userId, rows[0].documentId) != (u, d) {
        ChronologicalCons(rows[0], rest, rows[1..]);
      }
    }
  }

  /** Deleting a row keeps the unique index. */
  lemma {:induction false} UnmarkUnique(rows: seq<Bookmark>, u: UserId, d: DocId)
    requires UniquePairs(rows)
    ensures UniquePairs(Unmark(rows, u, d))
  {
    if |rows| > 0 {
      var rest := Unmark(rows[1..], u, d);
      assert UniquePairs(rows[1..]) by {
        forall i, j | 0 <= i < j < |rows[1..]|
          ensures (rows[1..][i].userId, rows[1..][i].documentId) != (rows[1..][j].userId, rows[1..][j].documentId)
        {
          assert rows[1..][i] == rows[i + 1] && rows[1..][j] == rows[j + 1];
        }
      }
      UnmarkUnique(rows[1..], u, d);
      if (rows[0].userId, rows[0].documentId) != (u, d) {
        forall k | 0 <= k < |rest|
          ensures (rows[0].userId, rows[0].documentId) != (rest[k].userId, rest[k].documentId)
        {
          assert rest[k] in rows[1..];
          var j :| 0 <= j < |rows[1..]| && rows[1..][j] == rest[k];
          assert rows[j + 1] == rest[k];
        }
        var r := [rows[0]] + rest;
        forall i, j | 0 <= i < j < |r|
          ensures (r[i].userId, r[i].documentId) != (r[j].userId, r[j].documentId)
        {
          if i > 0 { assert r[i] == rest[i - 1] && r[j] == rest[j - 1]; }
          else { assert r[j] == rest[j - 1]; }
        }
      }
    }
  }

  /** Deleting a row keeps the stored order and the unique index. */
  lemma {:induction false} UnmarkKeeps(rows: seq<Bookmark>, u: UserId, d: DocId)
    ensures Chronological(rows) ==> Chronological(Unmark(rows, u, d))
    ensures UniquePairs(rows) ==> UniquePairs(Unmark(rows, u, d))
  {
    if Chronological(rows) { UnmarkChronological(rows, u, d); }
    if UniquePairs(rows) { UnmarkUnique(rows, u, d); }
  }

  /** toggleBookmark's table effect: delete the (u, d) row when there is one,
      otherwise append a fresh one stamped `now`. */
  function Toggled(rows: seq<Bookmark>, u: UserId, d: DocId, now: nat): (r: seq<Bookmark>)
    ensures (u, d) in Pairs(r) <==> (u, d) !in Pairs(rows)
    ensures Pairs(r) - {(u, d)} == Pairs(rows) - {(u, d)}
  {
    if (u, d) in Pairs(rows) then
      UnmarkPairs(rows, u, d);
      Unmark(rows, u, d)
    else
      var r := rows + [Row(d, u, now, ())];
      assert Pairs(r) == Pairs(rows) + {(u, d)} by {
        assert forall b :: b in r <==> b in rows || b == Row(d, u, now, ());
      }
      r
  }

  /** The toggle keeps the collection ordered and the unique index. */
  lemma ToggledKeeps(rows: seq<Bookmark>, u: UserId, d: DocId, now: nat)
    requires RowsBefore(rows, now) && UniquePairs(rows)
    ensures RowsBefore(Toggled(rows, u, d, now), now + 1) && UniquePairs(Toggled(rows, u, d, now))
  {
    if (u, d) in Pairs(rows) {
      UnmarkKeeps(rows, u, d);
      var r := Unmark(rows, u, d);
      forall i | 0 <= i < |r| ensures r[i].createdAt < now + 1 { assert r[i] in rows; }
    } else {
      var b := Row(d, u, now, ());
      forall i | 0 <= i < |rows| ensures (rows[i].userId, rows[i].documentId) != (u, d) {
        assert rows[i] in rows;
      }
      AppendStamped(rows, b, now);
    }
  }

  /** Toggling twice restores the set of bookmarked pairs, and when there was
      no bookmark it restores the rows exactly. */
  lemma {:induction false} ToggleTwice(rows: seq<Bookmark>, u: UserId, d: DocId, t1: nat, t2: nat)
    ensures Pairs(Toggled(Toggled(rows, u, d, t1), u, d, t2)) == Pairs(rows)
    ensures (u, d) !in Pairs(rows) ==> Toggled(Toggled(rows, u, d, t1), u, d, t2) == rows
  {
    var once := Toggled(rows, u, d, t1);
    var twice := Toggled(once, u, d, t2);
    assert (u, d) in Pairs(twice) <==> (u, d) in Pairs(rows);
    assert Pairs(twice) == Pairs(rows) by {
      forall p ensures p in Pairs(twice) <==> p in Pairs(rows) {
        if p != (u, d) {
          assert p in Pairs(twice) <==> p in Pairs(twice) - {(u, d)};
          assert p in Pairs(rows) <==> p in Pairs(rows) - {(u, d)};
        }
      }
    }
    if (u, d) !in Pairs(rows) {
      assert once == rows + [Row(d, u, t1, ())];
      UnmarkAbsent(rows, u, d);
      UnmarkAppend(rows, Row(d, u, t1, ()), u, d);
    }
  }

  /** Deleting a pair that is not there leaves the rows as they are. */
  lemma {:induction false} UnmarkAbsent(rows: seq<Bookmark>, u: UserId, d: DocId)
    requires (u, d) !in Pairs(rows)
    ensures Unmark(rows, u, d) == rows
  {
    if |rows| > 0 {
      assert rows[0] in rows;
      assert Pairs(rows[1..]) <= Pairs(rows) by {
        forall p | p in Pairs(rows[1..]) ensures p in Pairs(rows) {
          var b :| b in rows[1..] && p == (b.userId, b.documentId);
          assert b in rows;
        }
      }
      UnmarkAbsent(rows[1..], u, d);
      assert rows == [rows[0]] + rows[1..];
    }
  }

  /** Deleting the pair of a row appended last drops exactly that row. */
  lemma {:induction false} UnmarkAppend(rows: seq<Bookmark>, b: Bookmark, u: UserId, d: DocId)
    requires (b.userId, b.documentId) == (u, d)
    ensures Unmark(rows + [b], u, d) == Unmark(rows, u, d)
  {
    if |rows| == 0 {
      assert Unmark([b], u, d) == Unmark([b][1..], u, d);
    } else {
      assert (rows + [b])[1..] == rows[1..] + [b];
      UnmarkAppend(rows[1..], b, u, d);
    }
  }
}
