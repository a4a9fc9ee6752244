/** Token extraction and the authentication gate. Both the server and the
    Next.js copy read the token the same way: a `Bearer ` Authorization header
    first, the `auth-token` cookie otherwise. JWT verification is an abstract
    function: `verifyToken` catches every verification error and answers
    `null`, so it is total with an optional result. */
module Auth {
  import opened Wrappers

  /** The claims a verified token carries. */
  datatype Payload = Payload(userId: string, email: string, name: string)

  /** The parts of an HTTP request that authentication looks at. */
  datatype Request = Request(authorization: Option<string>, authCookie: Option<string>)

  const BearerPrefix := "Bearer "

  predicate HasBearer(req: Request)
  {
    req.authorization.Some? && BearerPrefix <= req.authorization.value
  }

  /** `getTokenFromRequest`: the header minus its 7-character prefix when it
      starts with `Bearer `, otherwise a non-empty cookie, otherwise nothing. */
  function TokenFromRequest(req: Request): (r: Option<string>)
    ensures HasBearer(req) ==> r.Some? && req.authorization.value == BearerPrefix + r.value
    ensures !HasBearer(req) ==> (r.Some? <==> req.authCookie.Some? && req.authCookie.value != "")
    ensures !HasBearer(req) && r.Some? ==> r == req.authCookie
  {
    if HasBearer(req) then
      var h := req.authorization.value;
      assert h == h[..7] + h[7..];
      Some(h[7..])
    else if req.authCookie.Some? && req.authCookie.value != "" then req.authCookie
    else None
  }

  /** A `Bearer` header hands back exactly the token after the prefix, whatever
      the cookie says. */
  lemma BearerRoundTrip(token: string, cookie: Option<string>)
    ensures TokenFromRequest(Request(Some(BearerPrefix + token), cookie)) == Some(token)
  {
    assert BearerPrefix <= BearerPrefix + token;
  }

  /** The prefix test is exact: a header whose first seven characters are not
      `Bearer ` (a lower-case `bearer`, a bare `Bearer`) leaves the cookie to
      decide. */
  lemma HeaderWithoutPrefixFallsThrough(header: string, cookie: Option<string>)
    requires |header| < 7 || header[..7] != BearerPrefix
    ensures TokenFromRequest(Request(Some(header), cookie)) == TokenFromRequest(Request(None, cookie))
  {
  }

  /** `getUserFromRequest`: no token, or an empty one, is no user and the
      verifier is not consulted; otherwise the verifier decides. */
  function UserFromRequest(req: Request, verify: string -> Option<Payload>): (r: Option<Payload>)
    ensures var t := TokenFromRequest(req);
      (t.None? || t.value == "") ==> r.None?
    ensures var t := TokenFromRequest(req);
      (t.Some? && t.value != "") ==> r == verify(t.value)
  {
    match TokenFromRequest(req)
    case None => None
    case Some(t) => if t == "" then None else verify(t)
  }

  /** Without a usable token the answer does not depend on the verifier. */
  lemma NoTokenIgnoresVerifier(req: Request, v1: string -> Option<Payload>, v2: string -> Option<Payload>)
    requires TokenFromRequest(req).None? || TokenFromRequest(req).value == ""
    ensures UserFromRequest(req, v1) == UserFromRequest(req, v2) == None
  {
  }

  /** A header of just `Bearer ` yields no user, even next to a valid cookie. */
  lemma EmptyBearerIsAnonymous(cookie: Option<string>, verify: string -> Option<Payload>)
    ensures UserFromRequest(Request(Some(BearerPrefix), cookie), verify).None?
  {
    BearerRoundTrip("", cookie);
    assert BearerPrefix + "" == BearerPrefix;
  }

  /** The server's `authMiddleware` decision. */
  datatype Gate = Reject401 | Proceed(user: Payload)

  /** `authMiddleware`: 401 without a user, otherwise the handler runs with
      `req.user` set to the payload. */
  function AuthMiddleware(req: Request, verify: string -> Option<Payload>): (g: Gate)
    ensures g.Reject401? <==> UserFromRequest(req, verify).None?
    ensures g.Proceed? ==> UserFromRequest(req, verify) == Some(g.user)
  {
    match UserFromRequest(req, verify)
    case None => Reject401
    case Some(u) => Proceed(u)
  }
}
