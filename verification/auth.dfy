/** Request authentication and role gating: the bearer-token extraction of
    `authRequired` and the `requireRole` guard. Token signature checking is a
    parameter (`verify`), standing for the JWT library. */
module Auth {
  import opened Schema

  /** The claims a verified token carries. */
  datatype Principal = Principal(id: Id, role: Role, email: string)

  /** The two ways `authRequired` refuses a request (both answered 401). */
  datatype AuthError = MissingToken | InvalidToken

  const BearerPrefix := "Bearer "

  /** The token of an `Authorization` header: what follows the prefix
      `"Bearer "`, or nothing when the header does not start with it. */
  function BearerToken(header: string): (t: Option<string>)
    ensures t.Some? <==> BearerPrefix <= header
    ensures t.Some? ==> BearerPrefix + t.value == header
  {
    if BearerPrefix <= header then Some(header[|BearerPrefix|..]) else None
  }

  /** Extraction inverts the header's construction, for every token. */
  lemma BearerTokenRoundTrip(token: string)
    ensures BearerToken(BearerPrefix + token) == Some(token)
  {
    assert (BearerPrefix + token)[..|BearerPrefix|] == BearerPrefix;
    assert (BearerPrefix + token)[|BearerPrefix|..] == token;
  }

  /** `authRequired`: `header` is the `Authorization` header, empty when the
      request has none. A missing prefix or an empty token is refused as
      missing; a token `verify` rejects is refused as invalid. */
  function Authenticate(header: string, verify: string -> Option<Principal>): (r: Result<Principal, AuthError>)
    ensures r == Err(MissingToken) <==> !(BearerPrefix <= header) || header == BearerPrefix
    ensures r.Ok? <==> BearerPrefix <= header && |header| > |BearerPrefix| && verify(header[|BearerPrefix|..]).Some?
    ensures r.Ok? ==> verify(header[|BearerPrefix|..]) == Some(r.value)
  {
    match BearerToken(header)
    case None => Err(MissingToken)
    case Some(token) =>
      if token == "" then Err(MissingToken)
      else
        match verify(token)
        case None => Err(InvalidToken)
        case Some(p) => Ok(p)
  }

  /** `requireRole(...roles)`: admits a request whose user is present and
      holds one of the roles. */
  predicate RequireRole(user: Option<Principal>, roles: seq<Role>)
  {
    user.Some? && user.value.role in roles
  }
}
