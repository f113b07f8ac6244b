/**
 * The document detail page's own logic: when a comment, note or permission
 * is submitted and how the page's lists change with the server's reply,
 * how a permission row is removed from the list, and how a stored file URL
 * becomes a download link.
 */
module DocumentDetail {
  import opened Wrappers
  import opened Models
  import opened Tables
  import opened Sequences

  // ------------------------------------------------------------ whitespace

  /** The characters `String.prototype.trim` removes: the ECMAScript
      WhiteSpace and LineTerminator code points. */
  const WhiteSpace: set<char> :=
    {'\t', '\n', '\U{000B}', '\U{000C}', '\r', ' ', '\U{00A0}', '\U{1680}',
     '\U{2000}', '\U{2001}', '\U{2002}', '\U{2003}', '\U{2004}', '\U{2005}',
     '\U{2006}', '\U{2007}', '\U{2008}', '\U{2009}', '\U{200A}',
     '\U{2028}', '\U{2029}', '\U{202F}', '\U{205F}', '\U{3000}', '\U{FEFF}'}

  predicate IsSpace(c: char) {
    c in WhiteSpace
  }

  /** Only white space. */
  predicate Blank(s: string) {
    forall i :: 0 <= i < |s| ==> IsSpace(s[i])
  }

  /** The index of the first character at or after `i` that is not white
      space, |s| when there is none. */
  function SkipLeading(s: string, i: nat): (j: nat)
    requires i <= |s|
    ensures i <= j <= |s|
    ensures forall k :: i <= k < j ==> IsSpace(s[k])
    ensures j < |s| ==> !IsSpace(s[j])
    decreases |s| - i
  {
    if i == |s| || !IsSpace(s[i]) then i else SkipLeading(s, i + 1)
  }

  /** The index just past the last character of s[lo..hi] that is not white
      space, `lo` when there is none. */
  function SkipTrailing(s: string, lo: nat, hi: nat): (j: nat)
    requires lo <= hi <= |s|
    ensures lo <= j <= hi
    ensures forall k :: j <= k < hi ==> IsSpace(s[k])
    ensures j > lo ==> !IsSpace(s[j - 1])
    decreases hi - lo
  {
    if hi == lo || !IsSpace(s[hi - 1]) then hi else SkipTrailing(s, lo, hi - 1)
  }

  /** The length of the leading white space. */
  function Leading(s: string): (n: nat)
    ensures n <= |s|
  {
    SkipLeading(s, 0)
  }

  /** `s.trim()`: s without its leading and trailing white space. */
  function Trim(s: string): (r: string)
    ensures r == [] <==> Blank(s)
    ensures r != [] ==> !IsSpace(r[0]) && !IsSpace(r[|r| - 1])
    ensures OccursAt(s, r, Leading(s)) && Blank(s[..Leading(s)]) && Blank(s[Leading(s) + |r|..])
  {
    var a := SkipLeading(s, 0);
    var e := SkipTrailing(s, a, |s|);
    assert e == a ==> Blank(s) by {
      if e == a {
        forall k | 0 <= k < |s| ensures IsSpace(s[k]) {
          if k < a { } else { }
        }
      }
    }
    s[a..e]
  }

  // --------------------------------------------------------------- submits

  /** A JavaScript string is truthy when it is present and not empty. */
  predicate Truthy(s: Option<string>) {
    s.Some? && s.value != ""
  }

  /** The body handleAddComment and handleAddNote post: the route's
      document id and the trimmed draft; None when nothing is posted. */
  function DraftPayload(draft: string, docId: Option<string>): (p: Option<(string, string)>)
    ensures p.Some? <==> !Blank(draft) && Truthy(docId)
    ensures p.Some? ==> p.value.0 == docId.value && p.value.1 == Trim(draft)
  {
    if Blank(draft) || !Truthy(docId) then None else Some((docId.value, Trim(draft)))
  }

  /** Whatever the page posts passes the server's required-content check. */
  lemma PostedDraftIsRequired(draft: string, docId: Option<string>)
    requires DraftPayload(draft, docId).Some?
    ensures Required(Some(DraftPayload(draft, docId).value.1))
  {
  }

  /** The page's list and draft after handleAddComment / handleAddNote.
      `reply` is the row the server created, None when the request failed:
      the created row goes in front and the draft is cleared; a refused or
      failed submit changes nothing. */
  function AfterAddToFront<T>(items: seq<T>, draft: string, docId: Option<string>, reply: Option<T>): (r: (seq<T>, string))
    ensures DraftPayload(draft, docId).None? || reply.None? ==> r == (items, draft)
    ensures DraftPayload(draft, docId).Some? && reply.Some? ==>
      |r.0| == |items| + 1 && r.0[0] == reply.value && r.0[1..] == items && r.1 == ""
  {
    if DraftPayload(draft, docId).None? || reply.None? then (items, draft)
    else ([reply.value] + items, "")
  }

  /** The rows of one scope, appended to: the selection grows at its end. */
  lemma {:induction false} SelectAppend<T(!new)>(rows: seq<Row<T>>, x: Row<T>, s: Scope)
    requires InScope(x, s)
    ensures Select(rows + [x], s) == Select(rows, s) + [x]
    decreases |rows|
  {
    if |rows| > 0 {
      assert (rows + [x])[1..] == rows[1..] + [x];
      SelectAppend(rows[1..], x, s);
    }
  }

  /** Reading back to front puts a last element first. */
  lemma {:induction false} ReverseAppend<T>(s: seq<T>, x: T)
    ensures Reverse(s + [x]) == [x] + Reverse(s)
  {
    var l := Reverse(s + [x]);
    var r := [x] + Reverse(s);
    assert |l| == |r|;
    forall i | 0 <= i < |l| ensures l[i] == r[i] {
      if i > 0 { assert (s + [x])[|s| - i] == s[|s| - 1 - (i - 1)]; }
    }
  }

  /** Dropping the last row keeps the rows chronological. */
  lemma {:induction false} ChronologicalInit<T>(rows: seq<Row<T>>, x: Row<T>)
    requires Chronological(rows + [x])
    ensures Chronological(rows)
  {
    forall i, j | 0 <= i < j < |rows| ensures rows[i].createdAt < rows[j].createdAt {
      assert rows[i] == (rows + [x])[i] && rows[j] == (rows + [x])[j];
    }
  }

  /** Putting the created row in front of the listing the page holds gives
      the listing a reload would fetch: the server's newest-first listing
      after the row was appended with the newest stamp. */
  lemma {:induction false} FrontMatchesReload<T(!new)>(rows: seq<Row<T>>, x: Row<T>, s: Scope)
    requires Chronological(rows + [x]) && InScope(x, s)
    ensures Chronological(rows)
    ensures NewestFirst(rows + [x], s) == [x] + NewestFirst(rows, s)
  {
    ChronologicalInit(rows, x);
    SelectAppend(rows, x, s);
    ReverseAppend(Select(rows, s), x);
  }

  /** handleAddPermission: nothing is posted without a selected user or a
      document id; the server's reply is appended to the list. */
  function AfterAddPermission<T>(items: seq<T>, selectedUser: string, docId: Option<string>, reply: Option<T>): (r: seq<T>)
    ensures selectedUser == "" || !Truthy(docId) || reply.None? ==> r == items
    ensures selectedUser != "" && Truthy(docId) && reply.Some? ==> r == items + [reply.value]
  {
    if selectedUser == "" || !Truthy(docId) || reply.None? then items else items + [reply.value]
  }

  /** A permission row as the page holds it. */
  datatype PermissionEntry = PermissionEntry(id: Option<string>, userId: Option<string>, level: PermissionLevel)

  /** The filter's test `p._id !== permId && p.user_id !== userId`. */
  predicate KeepsEntry(p: PermissionEntry, permId: string, userId: Option<string>) {
    p.id != Some(permId) && p.userId != userId
  }

  /** The entries that pass the filter, in order. */
  function EntriesKept(items: seq<PermissionEntry>, permId: string, userId: Option<string>): (r: seq<PermissionEntry>)
    ensures forall p :: p in r <==> p in items && KeepsEntry(p, permId, userId)
    ensures IsSubsequence(r, items)
  {
    if |items| == 0 then []
    else
      var rest := EntriesKept(items[1..], permId, userId);
      assert forall p :: p in items[1..] ==> p in items;
      assert items == [items[0]] + items[1..];
      if KeepsEntry(items[0], permId, userId) then [items[0]] + rest
      else
        assert rest == [] || rest[0] != items[0] by {
          if rest != [] { assert rest[0] in rest; }
        }
        rest
  }

  /** handleDeletePermission: without a permission id or a document id, or
      when the user does not confirm, or when the request fails, the list
      stays; otherwise every entry with that id or that user leaves it. */
  function AfterDeletePermission(items: seq<PermissionEntry>, permId: Option<string>, userId: Option<string>,
                                 docId: Option<string>, confirmed: bool, deleted: bool): (r: seq<PermissionEntry>)
    ensures !Truthy(permId) || !Truthy(docId) || !confirmed || !deleted ==> r == items
    ensures Truthy(permId) && Truthy(docId) && confirmed && deleted ==>
      && IsSubsequence(r, items)
      && (forall p :: p in r ==> p.id != permId && p.userId != userId)
      && (forall p :: p in items && p.id != permId && p.userId != userId ==> p in r)
      && (forall p :: multiset(r)[p] == if p.id != permId && p.userId != userId then multiset(items)[p] else 0)
  {
    if !Truthy(permId) || !Truthy(docId) || !confirmed || !deleted then items
    else
      var r := EntriesKept(items, permId.value, userId);
      assert forall p :: multiset(r)[p] == if p.id != permId && p.userId != userId then multiset(items)[p] else 0 by {
        forall p ensures multiset(r)[p] == if p.id != permId && p.userId != userId then multiset(items)[p] else 0 {
          EntriesKeptCopies(items, permId.value, userId, p);
        }
      }
      r
  }

  /** The filter keeps every copy of a kept entry and no copy of any other. */
  lemma {:induction false} EntriesKeptCopies(items: seq<PermissionEntry>, permId: string, userId: Option<string>,
                                             p: PermissionEntry)
    ensures multiset(EntriesKept(items, permId, userId))[p] ==
      if KeepsEntry(p, permId, userId) then multiset(items)[p] else 0
  {
    if |items| > 0 {
      EntriesKeptCopies(items[1..], permId, userId, p);
      assert items == [items[0]] + items[1..];
      assert multiset(items) == multiset{items[0]} + multiset(items[1..]);
    }
  }

  /** Called without a user id, the filter also drops every entry that has
      no user id, whatever its permission id. */
  lemma MissingUserIdDropsUnassigned(items: seq<PermissionEntry>, permId: string, docId: string)
    requires permId != "" && docId != ""
    ensures forall p :: p in AfterDeletePermission(items, Some(permId), None, Some(docId), true, true) ==> p.userId.Some?
  {
  }

  // --------------------------------------------------------------- links

  const DefaultApiUrl: string := "http://localhost:5000/api"

  /** `api.replace(/\/api\/?$/, "")`: the API URL without a final "/api" or "/api/". */
  function ApiOrigin(api: string): (base: string)
    ensures EndsWith(api, "/api/") ==> base + "/api/" == api
    ensures !EndsWith(api, "/api/") && EndsWith(api, "/api") ==> base + "/api" == api
    ensures !EndsWith(api, "/api/") && !EndsWith(api, "/api") ==> base == api
  {
    if EndsWith(api, "/api/") then api[..|api| - 5]
    else if EndsWith(api, "/api") then api[..|api| - 4]
    else api
  }

  /** fileDownloadUrl: no link for a missing file, a URL starting "http"
      as it is, and otherwise the path, without one leading slash, joined
      to the API's origin. */
  function FileDownloadUrl(fileUrl: Option<string>, api: string): (link: Option<string>)
    ensures link.None? <==> !Truthy(fileUrl)
    ensures Truthy(fileUrl) && "http" <= fileUrl.value ==> link == fileUrl
    ensures Truthy(fileUrl) && !("http" <= fileUrl.value) ==>
      var path := fileUrl.value;
      var cleaned := if path[0] == '/' then path[1..] else path;
      link == Some(ApiOrigin(api) + "/" + cleaned)
  {
    if !Truthy(fileUrl) then None
    else
      var path := fileUrl.value;
      if "http" <= path || "https" <= path then Some(path)
      else
        var cleaned := if path[0] == '/' then path[1..] else path;
        Some(ApiOrigin(api) + "/" + cleaned)
  }

  /** A relative path links to the same place with or without its leading slash. */
  lemma LeadingSlashIgnored(path: string, api: string)
    requires path != "" && path[0] != '/' && !("http" <= path)
    ensures FileDownloadUrl(Some("/" + path), api) == FileDownloadUrl(Some(path), api)
  {
    assert ("/" + path)[1..] == path;
    assert ("/" + path)[0] != "http"[0];
  }

  /** The URL the server stores for an uploaded file, "/uploads/<name>",
      links to "/uploads/<name>" under the API's origin; with the default
      API URL that is the server at http://localhost:5000. */
  lemma {:induction false} UploadLink(name: string, api: string)
    ensures FileDownloadUrl(Some(UploadUrl(name)), api) == Some(ApiOrigin(api) + "/uploads/" + name)
    ensures ApiOrigin(DefaultApiUrl) == "http://localhost:5000"
  {
    var url := UploadUrl(name);
    assert url[0] == '/' && url[1..] == "uploads/" + name;
    assert url[0] != "http"[0];
    assert ApiOrigin(api) + "/" + ("uploads/" + name) == ApiOrigin(api) + "/uploads/" + name;
    assert EndsWith(DefaultApiUrl, "/api");
    assert !EndsWith(DefaultApiUrl, "/api/");
  }
}
