# Document access: a verified model

This project models the core of a document-management system in Dafny. The
system has an Express/MongoDB backend and a React frontend.

**Backend.** The backend stores documents, gives them an owner (the uploader)
and lets the owner grant per-user permissions. Users who pass the access
check can read and edit a document, list its versions, comment on it,
annotate it with notes and highlights, and bookmark it.

- `DocumentStore.Store` is the backend: one in-memory database.
  - It holds maps for documents, for permissions keyed by (document, user)
    and for each document's version history.
  - It holds insertion-ordered sequences for bookmarks, comments, notes and
    highlights.
  - It has a logical clock that supplies fresh ids and `createdAt` stamps.
- Every request handler is a method of the store. Its result is `Ok`,
  `NotFound` (404), `Forbidden` (403) or `ServerError`. `ServerError` is the
  500 produced when a schema's `required` check fails.
- The pure parts live in module `Tables`: the access gate, the
  document-listing union, version numbering, the permission upsert, the
  newest-first listings and the bookmark toggle.
- `Models` holds the record types and their schema defaults.

**Auth and profile.**

- `Auth` models the middleware that turns an `Authorization` header or
  cookie into a user id or a 401.
- `Profile` models reading and updating one's own user record. It covers
  password hashing on update and hiding the password on read.

**Frontend.** Three frontend files contribute pure logic:

- `Calendar`: the compliance calendar's five-way filter, the
  week-of-month rule, and the month/week/day grid built by nested loops.
- `Viewer`: the document viewer's extension rule, the choice of preview
  and the zoom buttons.
- `DocumentDetail`: how the document page updates its comment, note and
  permission lists, and how it builds download links.

**Properties proved.** Among others:

- The access gate is "explicit permission of any level, or ownership".
- The document listing is exactly the union of permitted and owned
  documents, newest first.
- Version numbers stay 1..n, and a version is appended exactly when new
  non-empty content arrives.
- Granting is an upsert that touches one record.
- Two bookmark toggles restore the bookmark set.
- Delete is owner-only and cascades to permission records only.
- A "Bearer " header round-trips to the token it carries.
- A stored password is the hash of the one given.
- Every calendar entry of months 0..7 and days 1..31 appears in exactly one
  grid cell.
- The zoom level stays between 50 and 200 in steps of 25.
- A comment posted by the page always passes the server's required-content
  check, and prepending it matches what a reload would list.

**Behaviour of the code worth noting:**

- Notes and highlights are listed for all users of a document, not only the
  requester.
- After a document is deleted, asking for its permission list answers 404
  (the document lookup fails). It does not answer an empty list. The
  permission table does keep no record for that id (`DeleteDocument`).

**Observed behaviour stated as lemmas:**

- A file whose type is a MIME string such as "application/pdf" gets the PDF
  preview but no zoom bar (`Viewer.MimeTypedPdfHasNoZoom`).
- Removing a permission on the page without a user id also drops every
  entry that has no user id (`DocumentDetail.MissingUserIdDropsUnassigned`).
- Any permission holder, even at `view` level, can update a document. The
  whole update body is applied, `uploaded_by` included (`UpdateDocument`,
  `Models.ApplyBody`).

## Model

| member | source | states |
|---|---|---|
| Models.WithUpload | Backend/src/controllers/documentController.js:14-24 | With an uploaded file, `file_url` becomes "/uploads/<name>" and every other body field stays. Without one, the body is unchanged. |
| Models.NewDocument | Backend/src/controllers/documentController.js:10-27 | The created document takes the body's fields, and urgency defaults to medium. The owner is the requester whatever `uploaded_by` the body carried. |
| Models.ApplyBody | Backend/src/controllers/documentController.js:87 | Every field the body carries overwrites the stored one, owner included. Absent fields stay. Id and creation time are kept. |
| Models.NewVersion | Backend/src/models/DocumentVersion.js:3-9 | A version names its document, number and editor. Missing content and change summary default to "". |
| Tables.OwnerHasAccess | Backend/src/controllers/documentController.js:46-47 | The owner always passes the access gate. |
| Tables.PermittedIds | Backend/src/controllers/documentController.js:58 | A document id is listed iff the user has a permission record for it. |
| Tables.OwnedIds | Backend/src/controllers/documentController.js:59 | A document id is listed iff the document exists and the user uploaded it. |
| Tables.Descending | Backend/src/controllers/documentController.js:59 | Exactly the given ids below the bound appear, strictly decreasing, so none is repeated. |
| Tables.VisibleDocuments | Backend/src/controllers/documentController.js:58-59 | Each listed document is stored and passes the gate. Every document passing the gate is listed. Creation times strictly decrease. |
| Tables.WithoutDocument | Backend/src/controllers/documentController.js:110 | Exactly the permission records of other documents remain, unchanged. |
| Tables.PermissionsOf | Backend/src/controllers/permissionController.js:30 | Every record of the document is returned and nothing else. |
| Tables.Upserted | Backend/src/controllers/permissionController.js:11-15 | The record for (document, user) gets the given level, or keeps its level (View on insert). `granted_by` is the requester. The creation time is kept, or set now on insert. |
| Tables.GrantTwice | Backend/src/models/DocumentPermission.js:10 | Granting a pair twice leaves one record for it, with the second level and grantor and the first creation time. Other records are untouched. |
| Tables.TopVersion | Backend/src/controllers/documentController.js:90 | The result bounds every version number and is attained; it is 0 when there is no version. |
| Tables.NextVersionNumber | Backend/src/controllers/documentController.js:91 | The next number is above every existing number. It is exactly 2 on an empty history or one whose top number is 0, and the top number plus one otherwise. |
| Tables.ChangeSummary | Backend/src/controllers/documentController.js:92 | A given non-empty summary is kept; otherwise the summary is "Updated content". |
| Tables.NextAfterConsecutive | Backend/src/controllers/documentController.js:89-92 | With versions numbered 1..n, the next number is n + 1. |
| Tables.ConsecutiveAppend | Backend/src/controllers/documentController.js:91-92 | Appending the next number keeps the numbering 1..n+1. |
| Tables.AppendVersionKeeps | Backend/src/models/DocumentVersion.js:3-9 | Appending the next version keeps every history non-empty, numbered 1..n and tied to its document, even though the schema enforces no uniqueness. |
| Tables.ApplyBodyKeepsKeyed | Backend/src/controllers/documentController.js:87 | An update body keeps the document under its id, with its creation time and an owner. |
| Tables.CreateKeepsValid | Backend/src/controllers/documentController.js:26-31 | Adding a document at the clock with one permission record and version 1 keeps the document tables valid. |
| Tables.UpdateKeepsValid | Backend/src/controllers/documentController.js:87 | Applying an update body and advancing the clock keeps the document tables valid. |
| Tables.AppendKeepsValid | Backend/src/controllers/documentController.js:89-92 | Appending the next version of a stored document keeps the document tables valid. |
| Tables.Reverse | Backend/src/controllers/versionController.js:13 | The i-th element of the result is the (n-1-i)-th of the input. |
| Tables.VersionsNewestFirst | Backend/src/controllers/versionController.js:13 | On a history numbered 1..n, the i-th listed version has number n - i and numbers strictly decrease. |
| Tables.Select | Backend/src/controllers/commentController.js:31 | Exactly the rows in scope are selected, and insertion order is kept. |
| Tables.NewestFirst | Backend/src/controllers/commentController.js:31 | Exactly the rows in scope are listed, with strictly decreasing creation times. |
| Tables.Unmark | Backend/src/controllers/bookmarkController.js:16 | Exactly the rows of other (user, document) pairs remain. |
| Tables.UnmarkPairs | Backend/src/controllers/bookmarkController.js:16 | Deleting removes exactly the pair (user, document) from the bookmarked pairs. |
| Tables.UnmarkKeeps | Backend/src/models/Bookmark.js:8 | Deleting keeps the collection ordered and each (user, document) pair unique. |
| Tables.Toggled | Backend/src/controllers/bookmarkController.js:14-20 | The pair is bookmarked afterwards iff it was not before. Every other pair is as before. |
| Tables.ToggledKeeps | Backend/src/models/Bookmark.js:8 | A toggle keeps each (user, document) pair unique and the creation times ordered. |
| Tables.ToggleTwice | Backend/src/controllers/bookmarkController.js:14-20 | Two toggles restore the set of bookmarked pairs. When the pair was absent, they restore the rows exactly. |
| Tables.UnmarkAbsent | Backend/src/controllers/bookmarkController.js:16 | Deleting a pair that is not bookmarked leaves the bookmarks as they are. |
| Tables.UnmarkAppend | Backend/src/controllers/bookmarkController.js:16 | Deleting the pair of the bookmark added last removes it and gives what deleting before the add gives. |
| DocumentStore.Store.CreateDocument | Backend/src/controllers/documentController.js:8-33 | The owner is the requester. The only permission record of the new document is an admin record granted by the requester. The document has exactly one version: number 1, its content, "Initial version". The store invariant is kept. |
| DocumentStore.Store.GetDocument | Backend/src/controllers/documentController.js:40-49 | 404 iff the id is missing; 403 iff the gate refuses; otherwise the stored document. |
| DocumentStore.Store.ListDocuments | Backend/src/controllers/documentController.js:56-60 | Exactly the owned or permitted documents, once each, newest first. |
| DocumentStore.Store.UpdateDocument | Backend/src/controllers/documentController.js:67-95 | 404/403 as for a read, at any permission level, and nothing changes then. Otherwise the whole body is applied. Version n+1 is appended iff non-empty content differs from the stored content; other histories are untouched. |
| DocumentStore.Store.Revise | Backend/src/controllers/documentController.js:87-92 | Behind the gate, the stored document becomes the body applied to it, stamped with the current time. When the content changes, the history gains version \|history\|+1 with the new content, the requester and the given summary or "Updated content"; otherwise versions stay. The store invariant is kept. |
| DocumentStore.Store.ApplyUpdate | Backend/src/controllers/documentController.js:87 | Only the updated document changes; the clock advances and the store invariant is kept. |
| DocumentStore.Store.AppendVersion | Backend/src/controllers/documentController.js:89-92 | The version is appended to the end of its own document's history and nothing else changes. The numbering stays consecutive, so the store invariant is kept. |
| DocumentStore.Store.DeleteDocument | Backend/src/controllers/documentController.js:102-111 | Owner only, so a permission holder gets 403. The document and its permission records are removed. Versions, annotations and bookmarks are untouched. |
| DocumentStore.Store.GrantPermission | Backend/src/controllers/permissionController.js:4-16 | 404 for a missing document. 403 for anyone but the owner, even with an admin grant. Otherwise only the (document, user) record changes, to the upserted record, which is returned. |
| DocumentStore.Store.ListPermissions | Backend/src/controllers/permissionController.js:23-31 | 404/403 as iffs; owner only. The answer holds every permission record of the document, each equal to the stored record, and nothing else. |
| DocumentStore.Store.ToggleBookmark | Backend/src/controllers/bookmarkController.js:5-26 | 404, then 403 behind the gate. Otherwise it answers Removed iff the bookmark existed. It creates exactly one row stamped now otherwise. Only that pair changes. |
| DocumentStore.Store.ListBookmarks | Backend/src/controllers/bookmarkController.js:28-31 | With no gate, exactly the requester's bookmarks, newest first. |
| DocumentStore.Store.AddComment | Backend/src/controllers/commentController.js:5-20 | 404/403 create nothing. Missing or empty content gives 500 and creates nothing. Otherwise exactly one comment by the requester is appended. |
| DocumentStore.Store.ListComments | Backend/src/controllers/commentController.js:22-32 | Behind the same gate: every user's comments on the document, newest first; no writes. |
| DocumentStore.Store.CreateNote | Backend/src/controllers/noteController.js:5-14 | 404/403 create nothing. Empty content gives 500. Otherwise one note by the requester is appended, with position defaulting to {}. |
| DocumentStore.Store.ListNotes | Backend/src/controllers/noteController.js:21-30 | Behind the gate: the notes of all users on the document, newest first. |
| DocumentStore.Store.CreateHighlight | Backend/src/controllers/highlightController.js:5-14 | 404/403 create nothing. Empty text gives 500. Otherwise one highlight by the requester is appended, with color defaulting to #FCD34D. |
| DocumentStore.Store.ListHighlights | Backend/src/controllers/highlightController.js:21-30 | Behind the gate: all users' highlights on the document, newest first. |
| DocumentStore.Store.ListVersions | Backend/src/controllers/versionController.js:5-14 | Behind the gate, with no writes: every version, the i-th listed numbered n - i. |
| Auth.AuthHeader | Backend/src/middleware/auth.js:6 | The header is used when non-empty; otherwise the cookie. The result is non-empty iff one of them is. |
| Auth.FirstField | Backend/src/middleware/auth.js:9 | The result is a space-free prefix followed by a space or the end. |
| Auth.ExtractToken | Backend/src/middleware/auth.js:9 | After "Bearer " the token is the space-free text up to the next space. Any other header is the token whole. |
| Auth.Authenticate | Backend/src/middleware/auth.js:4-19 | With neither header nor cookie: 401 "No token provided". Every rejection is one of the three 401 messages. `next` gets an id only from claims `verify` accepted for a non-empty token. |
| Auth.BearerTokenRoundTrip | Backend/src/middleware/auth.js:9-14 | "Bearer " + a space-free token (plus any space-led trailer) is decided on exactly that token: Next with its claims' id, or 401 "Unauthorized". |
| Auth.RawHeaderIsToken | Backend/src/middleware/auth.js:9 | A header without the prefix is verified as it stands. |
| Auth.EmptyBearerIsInvalid | Backend/src/middleware/auth.js:9-10 | "Bearer " followed by nothing or a space gives 401 "Invalid token". |
| Auth.CookieIsFallback | Backend/src/middleware/auth.js:6 | With a non-empty header, the cookie does not affect the outcome. |
| Profile.SanitisedUpdate | Backend/src/controllers/profileController.js:17-22 | A truthy password is replaced by its hash. A blank or absent one is removed. Every other key is copied unchanged. |
| Profile.SanitiseUpdate | Backend/src/controllers/profileController.js:17-22 | The copy-then-edit produces exactly the sanitised update. |
| Profile.WithoutPassword | Backend/src/controllers/profileController.js:6 | The password is dropped and every other field is kept. |
| Profile.Merged | Backend/src/controllers/profileController.js:23 | For the schema passed in (the store passes the User schema's fields), schema fields of the update overwrite; other update keys are ignored; stored fields not updated stay. |
| Profile.HidingCommutesWithMerge | Backend/src/controllers/profileController.js:23-24 | Dropping the password after a merge equals merging into the password-free record without the update's password. |
| Profile.UpdatedProfile | Backend/src/controllers/profileController.js:17-24 | The profile returned after an update is the old public profile with the body's schema fields, password excluded, written over it. |
| Profile.BlankPasswordKept | Backend/src/controllers/profileController.js:20-23 | A blank or missing password leaves the stored password as it was. |
| Profile.FreshEmailKeepsUnique | Backend/src/models/User.js:4 | Writing a record whose email no other user has keeps emails unique. |
| Profile.UserStore.GetMyProfile | Backend/src/controllers/profileController.js:4-13 | 404 iff the caller has no record; otherwise the record without its password. |
| Profile.UserStore.UpdateMyProfile | Backend/src/controllers/profileController.js:15-29 | With no record: null and no change. An email taken by another user gives 500 and no change. Otherwise the merged record is stored and returned without password. A given password is stored as its hash, and emails stay unique. |
| Calendar.WeekOfMonth | Frontend/src/components/ComplianceCalendar.tsx:77 | Week w satisfies 7(w-1) < day <= 7w, so it is the ceiling of day/7, and it lies in 1..5 for days 1..31. |
| Calendar.FilterEntries | Frontend/src/components/ComplianceCalendar.tsx:72-87 | An entry is kept iff every selector other than "all" equals its value. The result is an order-preserving subsequence, and all-"all" keeps the whole list. |
| Calendar.FilterKeepsCopies | Frontend/src/components/ComplianceCalendar.tsx:72-87 | Each entry occurs in the result as often as in the input when it matches, and not at all otherwise. |
| Calendar.OnDay | Frontend/src/components/ComplianceCalendar.tsx:129-132 | Exactly the entries dated on that month and day, in their order (a subsequence of the input). |
| Calendar.OnDayKeepsCopies | Frontend/src/components/ComplianceCalendar.tsx:129-132 | Each entry dated on the cell's day occurs as often as in the input, and every other entry not at all. |
| Calendar.WeeksPartitionMonth | Frontend/src/components/ComplianceCalendar.tsx:125-126 | Day d of 1..31 lies in week w's span iff w is d's week of the month, so weeks 1..5 partition the month. |
| Calendar.DayCells | Frontend/src/components/ComplianceCalendar.tsx:128-138 | One cell per day of the span, in order, each holding that day's entries. |
| Calendar.WeeksBeforeShape | Frontend/src/components/ComplianceCalendar.tsx:140-142 | A week is kept iff one of its days has an entry. Kept weeks are in increasing order. |
| Calendar.MonthsBeforeShape | Frontend/src/components/ComplianceCalendar.tsx:145-147 | A month is kept iff it has a kept week. Kept months are in increasing order. |
| Calendar.ShownWhereDated | Frontend/src/components/ComplianceCalendar.tsx:128-137 | A cell lists only entries dated on that month and day, in that day's week. |
| Calendar.DatedEntryShown | Frontend/src/components/ComplianceCalendar.tsx:102-148 | Every entry of months 0..7, days 1..31 is shown in some cell. |
| Calendar.ShownOnce | Frontend/src/components/ComplianceCalendar.tsx:102-148 | No entry is shown in two cells. |
| Calendar.GridBlocksOccupied | Frontend/src/components/ComplianceCalendar.tsx:140-147 | Every month of the grid has a week, and every week has an entry. |
| Calendar.CalendarGrid | Frontend/src/components/ComplianceCalendar.tsx:92-151 | The month loop builds the grid defined above; every block has a week and every week an entry. |
| Calendar.MonthWeeks | Frontend/src/components/ComplianceCalendar.tsx:116-143 | The week loop keeps exactly the occupied weeks, numbered within 1..5. |
| Calendar.WeekDays | Frontend/src/components/ComplianceCalendar.tsx:125-138 | The day loop yields the cells from (w-1)*7+1 to min(7w, 31), each with that day's entries. |
| Calendar.Distinct | Frontend/src/components/ComplianceCalendar.tsx:89 | Exactly the unseen values, each once, in input order (a subsequence of the input). |
| Calendar.DocumentTypes | Frontend/src/components/ComplianceCalendar.tsx:89 | Every entry's type appears, only those types, and none twice. |
| Calendar.StatusColor | Frontend/src/components/ComplianceCalendar.tsx:155-163 | The four known statuses get their fixed classes. Gray is chosen iff the status is unknown. |
| Viewer.LowerChar | Frontend/src/components/DocumentViewer.tsx:121 | Upper-case ASCII letters move to lower case; other characters stay. |
| Viewer.Lower | Frontend/src/components/DocumentViewer.tsx:119 | Same length; every character lower-cased. |
| Viewer.AfterLastDot | Frontend/src/components/DocumentViewer.tsx:121 | A dot-free suffix, preceded by a dot unless it is the whole name. |
| Viewer.AfterLastDotOfSuffix | Frontend/src/components/DocumentViewer.tsx:121 | For stem + "." + ext with a dot-free ext, the result is ext. |
| Viewer.FileExtension | Frontend/src/components/DocumentViewer.tsx:118-125 | A non-empty file type gives its lower case. Without one, a given name gives the lower-cased text after its last dot (the whole name when it has no dot, "" for an empty name), which contains no dot. |
| Viewer.DefaultNameExtension | Frontend/src/components/DocumentViewer.tsx:33 | Without a name or a type, the extension is the default name "document". |
| Viewer.PlainNameExtension | Frontend/src/components/DocumentViewer.tsx:118-124 | Without a type, a name without a dot gives the whole name lower-cased ("README" gives "readme"). |
| Viewer.ExtensionFromName | Frontend/src/components/DocumentViewer.tsx:120-122 | With no type or an empty one, "stem.EXT" yields the lower-cased EXT. |
| Viewer.PreviewFor | Frontend/src/components/DocumentViewer.tsx:127-224 | First match wins, in the order pdf, image, text, Word, spreadsheet, download. Each preview is chosen iff its own test passes and every earlier test fails, so the download card comes iff no test passes. |
| Viewer.ShowsZoomControls | Frontend/src/components/DocumentViewer.tsx:256 | The zoom bar shows for "pdf" and for every image extension except svg; it never shows for "svg" nor for any extension outside pdf and the images. Whatever the file type, a file with the zoom bar is previewed as a PDF or an image. |
| Viewer.SvgHasNoZoom | Frontend/src/components/DocumentViewer.tsx:256 | A ".svg" file gets the image preview but no zoom bar. |
| Viewer.SvgPreview | Frontend/src/components/DocumentViewer.tsx:143 | The extension "svg" gets the image preview and no zoom bar. |
| Viewer.MimeTypedPdfHasNoZoom | Frontend/src/components/DocumentViewer.tsx:131 | A file type longer than four characters that mentions pdf gets the PDF preview but no zoom bar. |
| Viewer.Click | Frontend/src/components/DocumentViewer.tsx:259-274 | Zoom-out gives the larger of 50 and z−25, zoom-in the smaller of 200 and z+25, reset gives 100; valid levels stay valid. |
| Viewer.ZoomStaysValid | Frontend/src/components/DocumentViewer.tsx:41 | From 100, any click sequence keeps the zoom in [50, 200] and a multiple of 25. |
| Viewer.ZoomInOutInverse | Frontend/src/components/DocumentViewer.tsx:259-267 | Strictly inside the bounds, zoom-in and zoom-out undo each other. |
| DocumentDetail.SkipLeading | Frontend/src/pages/DocumentDetail.tsx:187 | Every character skipped is white space, and the character stopped at is not. |
| DocumentDetail.SkipTrailing | Frontend/src/pages/DocumentDetail.tsx:187 | Every character cut from the end is white space, and the last one kept is not. |
| DocumentDetail.Trim | Frontend/src/pages/DocumentDetail.tsx:187 | The result sits in the input right after the leading white space, with only white space after it. Its ends are not white space, and it is empty iff the input is blank. |
| DocumentDetail.DraftPayload | Frontend/src/pages/DocumentDetail.tsx:187-193 | Something is posted iff the draft is not blank and the route has an id. The post carries that id and the trimmed draft. |
| DocumentDetail.PostedDraftIsRequired | Frontend/src/pages/DocumentDetail.tsx:192 | Posted content always passes the server's required-content check. |
| DocumentDetail.AfterAddToFront | Frontend/src/pages/DocumentDetail.tsx:186-208 | A refused or failed submit changes nothing. Otherwise the created row goes in front of the unchanged list and the draft is cleared. |
| DocumentDetail.FrontMatchesReload | Frontend/src/pages/DocumentDetail.tsx:200 | Prepending the created row gives the server's newest-first listing after the row was appended. |
| DocumentDetail.AfterAddPermission | Frontend/src/pages/DocumentDetail.tsx:236-251 | Without a selected user, a document id or a reply, nothing changes. Otherwise the reply is appended. |
| DocumentDetail.EntriesKept | Frontend/src/pages/DocumentDetail.tsx:270 | An entry is kept iff its id differs from the permission id and its user differs from the user id. Order is kept. |
| DocumentDetail.EntriesKeptCopies | Frontend/src/pages/DocumentDetail.tsx:270 | Each kept entry occurs as often as in the input, and every other entry not at all. |
| DocumentDetail.AfterDeletePermission | Frontend/src/pages/DocumentDetail.tsx:264-270 | A missing id, a declined confirm or a failed request leaves the list. Otherwise exactly the entries with neither that id nor that user remain, in order, each as often as in the list. |
| DocumentDetail.MissingUserIdDropsUnassigned | Frontend/src/pages/DocumentDetail.tsx:270 | Without a user id, no entry lacking a user id survives the removal. |
| DocumentDetail.ApiOrigin | Frontend/src/pages/DocumentDetail.tsx:301 | A trailing "/api/" or "/api" is removed; otherwise the URL stays. |
| DocumentDetail.FileDownloadUrl | Frontend/src/pages/DocumentDetail.tsx:295-303 | Null iff the URL is missing or empty. A URL starting "http" is returned unchanged. Otherwise the result is the origin, "/", and the path without one leading slash. |
| DocumentDetail.LeadingSlashIgnored | Frontend/src/pages/DocumentDetail.tsx:300 | A relative path links to the same place with or without its leading slash. |
| DocumentDetail.UploadLink | Frontend/src/pages/DocumentDetail.tsx:295-302 | The stored "/uploads/<name>" links to "<origin>/uploads/<name>". The default API URL has origin http://localhost:5000. |

## Left out

- JWT signing and verification are a parameter `verify` (None stands for "it threw"). The secret and token expiry are not modelled.
- bcrypt is a parameter `hash`. Its random salt is not modelled, so the same password always gets the same hash in the model.
- Object ids and timestamps come from one logical clock in the store. Ids are naturals. A malformed id string, which makes mongoose throw a 500 cast error, is not modelled.
- `populate` of the owner and the users is not modelled.
  - getDocument dereferences the populated owner. For a non-permitted reader whose owner's user record is gone, that answers 500; the model answers 403.
- Request bodies are records of optional fields. An explicit JSON `null` and values of the wrong type are not modelled.
  - In particular, an urgency or level outside its enum, which update validators would let through, is not modelled.
- DocumentStore.Store.GrantPermission: the `user_id` is always present. A request without one, which the upsert (run without validators) would store as a record without a user, is not modelled.
- DocumentStore.Store: every handler takes a present requester id. A verified token whose claims carry no `id` (`Auth.Authenticate` answers `Next(None)`) leaves `req.userId` undefined, and that case is not modelled. The owner-only handlers then answer 403, since no owner id equals an undefined one. The permission lookup of the access gate runs with an undefined user, and what it matches is not modelled. createDocument would save a document without an owner and then fail with a 500 on the required `user_id` of its permission record, leaving the document stored.
- A Note or Highlight `position` and Document `metadata` are string maps. Nested JSON is not modelled.
- Store and user methods are atomic and sequential. The read-then-write race on the next version number is not modelled. Neither is the lack of transactions across the three writes of createDocument.
- The S3 upload branches are dead code (the upload provider is fixed to local storage) and are not modelled.
- Gmail ingestion, the summarizer, notifications, departments and the route wiring are not part of this model.
- Profile.UserStore.UpdateMyProfile:
  - updates of `updatedAt` and other timestamps are not modelled;
  - `_id` in the body is not modelled;
  - a malformed `department_id` or `last_login` value, which fails casting with a 500, is not modelled.
- Dates on the calendar are already split into a 0-based month and a day of the month.
  - Date parsing and time zones are not modelled.
  - Neither is the page's fixed table of entries: the functions take any list.
  - The status-background helper beside getStatusColor is not modelled.
- Viewer.Lower: only ASCII letters are lower-cased. JavaScript's full Unicode case mapping is not modelled.
- Viewer: document loading, blob URLs, the download button and rendering are not modelled. Only the decisions are.
- DocumentDetail: the fetch plumbing is a reply parameter (None when the request failed). The browser's `confirm` is a boolean parameter. The page's loading of data and the AI summary fetch are not modelled.
- Sort stability among equal `createdAt` values is not an issue in the model, because every stamp is distinct.
