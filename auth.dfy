/**
 * The authentication middleware: where the token is taken from, how a
 * "Bearer" header is split, and which of the three 401 answers a request
 * gets. Signature checking is a parameter: `verify` stands for
 * `jwt.verify` with the server's secret, None for "it threw".
 */
module Auth {
  import opened Wrappers
  import opened Models

  /** The verified payload; its `id` may be missing. */
  datatype Claims = Claims(id: Option<UserId>)

  /** `next()` with `req.userId` set, or a 401 with its error text. */
  datatype AuthOutcome = Next(userId: Option<UserId>) | Unauthorized(error: string)

  const BearerPrefix: string := "Bearer "
  const NoTokenError: string := "No token provided"
  const InvalidTokenError: string := "Invalid token"
  const RejectedError: string := "Unauthorized"

  /** A JavaScript string value is truthy when it is present and not empty. */
  predicate Truthy(s: Option<string>) {
    s.Some? && s.value != ""
  }

  /** `req.headers.authorization || req.cookies?.authorization`. */
  function AuthHeader(header: Option<string>, cookie: Option<string>): (h: Option<string>)
    ensures Truthy(h) <==> Truthy(header) || Truthy(cookie)
    ensures Truthy(header) ==> h == header
  {
    if Truthy(header) then header else cookie
  }

  /** The text before the first space: `s.split(" ")[0]`. */
  function FirstField(s: string): (f: string)
    ensures f <= s
    ensures ' ' !in f
    ensures |f| < |s| ==> s[|f|] == ' '
  {
    if |s| == 0 || s[0] == ' ' then [] else [s[0]] + FirstField(s[1..])
  }

  /** A string without spaces is its own first field. */
  lemma {:induction false} FirstFieldOfWord(w: string, rest: string)
    requires ' ' !in w
    requires rest == [] || rest[0] == ' '
    ensures FirstField(w + rest) == w
  {
    if w != [] {
      assert (w + rest)[0] == w[0];
      assert (w + rest)[1..] == w[1..] + rest;
      FirstFieldOfWord(w[1..], rest);
    }
  }

  /** After "Bearer " the token is the second space-separated field, that is
      the text up to the next space; any other header is the token whole. */
  function ExtractToken(h: string): (t: string)
    ensures BearerPrefix <= h ==>
      ' ' !in t && t <= h[|BearerPrefix|..] &&
      (|BearerPrefix| + |t| == |h| || h[|BearerPrefix| + |t|] == ' ')
    ensures !(BearerPrefix <= h) ==> t == h
  {
    if BearerPrefix <= h then FirstField(h[|BearerPrefix|..]) else h
  }

  /** The middleware's decision for one request. */
  function Authenticate(header: Option<string>, cookie: Option<string>, verify: string -> Option<Claims>): (r: AuthOutcome)
    ensures !Truthy(header) && !Truthy(cookie) ==> r == Unauthorized(NoTokenError)
    ensures r.Unauthorized? ==> r.error in {NoTokenError, InvalidTokenError, RejectedError}
    ensures r.Next? ==> exists t :: t != "" && verify(t) == Some(Claims(r.userId))
  {
    var h := AuthHeader(header, cookie);
    if !Truthy(h) then Unauthorized(NoTokenError)
    else
      var token := ExtractToken(h.value);
      if token == "" then Unauthorized(InvalidTokenError)
      else match verify(token)
        case None => Unauthorized(RejectedError)
        case Some(claims) => Next(claims.id)
  }

  /** A client that sends "Bearer " and a space-free token (optionally
      followed by more space-separated text) is judged on exactly that
      token, whatever the cookie holds. */
  lemma {:induction false} BearerTokenRoundTrip(token: string, trailer: string, cookie: Option<string>, verify: string -> Option<Claims>)
    requires token != "" && ' ' !in token
    requires trailer == [] || trailer[0] == ' '
    ensures Authenticate(Some(BearerPrefix + token + trailer), cookie, verify) ==
      if verify(token).Some? then Next(verify(token).value.id) else Unauthorized(RejectedError)
  {
    var h := BearerPrefix + token + trailer;
    assert BearerPrefix <= h;
    assert h[|BearerPrefix|..] == token + trailer;
    FirstFieldOfWord(token, trailer);
  }

  /** A header without the "Bearer " prefix is verified as it stands. */
  lemma RawHeaderIsToken(h: string, cookie: Option<string>, verify: string -> Option<Claims>)
    requires h != "" && !(BearerPrefix <= h)
    ensures Authenticate(Some(h), cookie, verify) ==
      if verify(h).Some? then Next(verify(h).value.id) else Unauthorized(RejectedError)
  {
  }

  /** "Bearer " followed by nothing, or by a space, carries no token. */
  lemma {:induction false} EmptyBearerIsInvalid(rest: string, cookie: Option<string>, verify: string -> Option<Claims>)
    requires rest == [] || rest[0] == ' '
    ensures Authenticate(Some(BearerPrefix + rest), cookie, verify) == Unauthorized(InvalidTokenError)
  {
    var h := BearerPrefix + rest;
    assert BearerPrefix <= h;
    assert h[|BearerPrefix|..] == rest;
  }

  /** The cookie is consulted only when the header is missing or empty. */
  lemma CookieIsFallback(header: string, cookie: Option<string>, cookie': Option<string>, verify: string -> Option<Claims>)
    requires header != ""
    ensures Authenticate(Some(header), cookie, verify) == Authenticate(Some(header), cookie', verify)
  {
  }
}
