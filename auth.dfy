/** The request guard (`verifyRequest`): a fixed sequence of checks over the
    `Authorization` header, the bearer token's claims and the stored user, ending
    either in a rejection or in the stored user attached to the request. */
module Auth {
  import opened Common
  import opened Strings
  import opened Records

  /** The claims `verifyToken` decodes from a valid token. */
  datatype Claims = Claims(id: Id, role: Role, isVerified: bool)

  /** What `verifyToken` does with a token: decode it, or throw a
      `TokenExpiredError` (a subclass of `JsonWebTokenError`) or another
      `JsonWebTokenError`. Signature checking itself is not part of this model. */
  datatype TokenResult = Decoded(claims: Claims) | Expired | Malformed

  /** `error instanceof JsonWebTokenError`: true of both kinds of token error. */
  predicate IsJsonWebTokenError(t: TokenResult)
  {
    t.Expired? || t.Malformed?
  }

  /** The response classes the guard throws, with their messages. */
  datatype Rejection =
    | Unauthorized(message: string)
    | Forbidden(message: string)
    | BadResponse(message: string)
    | NotFound(message: string)

  datatype Outcome = Pass(user: UserRecord) | Reject(rejection: Rejection)

  /** `bearerToken.split(" ")[1]`, `undefined` when there is no second word. */
  function SecondWord(header: string): (r: Option<string>)
    ensures r.None? <==> Occurrences(header, ' ') == 0
    ensures r.Some? ==> ' ' !in r.value
  {
    var words := Split(header, ' ');
    if |words| < 2 then None else Some(words[1])
  }

  /** The catch block: an expired token is reported as such although it is also a
      `JsonWebTokenError`, because that test comes first. */
  function TokenFailure(t: TokenResult): (r: Rejection)
    requires IsJsonWebTokenError(t)
    ensures t.Expired? ==> r == Unauthorized("Token Expired!")
    ensures t.Malformed? ==> r == Unauthorized("Invalid Token!")
  {
    if t.Expired? then Unauthorized("Token Expired!") else Unauthorized("Invalid Token!")
  }

  /** `verifyRequest({ role, isVerified })` applied to one request, as a decision:
      header, token, decoding, role, verification, then the user lookup. */
  function Guard(header: Option<string>, verify: string -> TokenResult, role: Option<Role>, isVerified: bool,
                 users: seq<UserRecord>): (r: Outcome)
    ensures r.Pass? ==>
              && r.user in users
              && header.Some? && SecondWord(header.value).Some?
              && verify(SecondWord(header.value).value).Decoded?
              && r.user.id == verify(SecondWord(header.value).value).claims.id
  {
    if header.None? || header.value == "" then Reject(Unauthorized("Unauthorized! bt"))
    else
      var token := SecondWord(header.value);
      if token.None? || token.value == "" then Reject(Unauthorized("Unauthorized! t"))
      else
        match verify(token.value)
        case Expired => Reject(TokenFailure(Expired))
        case Malformed => Reject(TokenFailure(Malformed))
        case Decoded(c) =>
          if role.Some? && c.role != role.value then Reject(Forbidden("Forbidden!"))
          else if isVerified && !c.isVerified then Reject(BadResponse("User Not Verified!"))
          else
            match FindUser(users, c.id)
            case None => Reject(NotFound("User Not Found!"))
            case Some(i) => Pass(users[i])
  }

  /** The guard passes exactly when every check passes, and then hands on the
      stored user named by the token. */
  lemma GuardPassIff(header: Option<string>, verify: string -> TokenResult, role: Option<Role>, isVerified: bool,
                     users: seq<UserRecord>)
    ensures Guard(header, verify, role, isVerified, users).Pass? <==>
              && header.Some? && header.value != ""
              && SecondWord(header.value).Some? && SecondWord(header.value).value != ""
              && verify(SecondWord(header.value).value).Decoded?
              && var c := verify(SecondWord(header.value).value).claims;
                 && (role.None? || c.role == role.value)
                 && (!isVerified || c.isVerified)
                 && FindUser(users, c.id).Some?
    ensures Guard(header, verify, role, isVerified, users).Pass? ==>
              var c := verify(SecondWord(header.value).value).claims;
              Guard(header, verify, role, isVerified, users).user == users[FindUser(users, c.id).value]
  {
  }

  /** Once a token is present, an expired one is refused as "Token Expired!" and
      any other undecodable one as "Invalid Token!", whatever role or verification
      the route asks for and whatever the user table holds. */
  lemma TokenErrorsReported(header: string, verify: string -> TokenResult, role: Option<Role>, isVerified: bool,
                            users: seq<UserRecord>)
    requires header != "" && SecondWord(header).Some? && SecondWord(header).value != ""
    ensures verify(SecondWord(header).value).Expired? ==>
              Guard(Some(header), verify, role, isVerified, users) == Reject(Unauthorized("Token Expired!"))
    ensures verify(SecondWord(header).value).Malformed? ==>
              Guard(Some(header), verify, role, isVerified, users) == Reject(Unauthorized("Invalid Token!"))
  {
  }

  /** A missing or empty header is rejected before anything else is looked at. */
  lemma NoHeaderUnauthorized(verify: string -> TokenResult, role: Option<Role>, isVerified: bool,
                             users: seq<UserRecord>, header: Option<string>)
    requires header.None? || header.value == ""
    ensures Guard(header, verify, role, isVerified, users) == Reject(Unauthorized("Unauthorized! bt"))
  {
  }

  /** The token is the second space-separated word whatever the first word says:
      the scheme is never checked. */
  lemma TokenIsSecondWord(scheme: string, token: string)
    requires ' ' !in scheme && ' ' !in token
    ensures SecondWord(scheme + " " + token) == Some(token)
  {
    SplitJoin([scheme, token], ' ');
    assert Join([token], ' ') == token;
    assert Join([scheme, token], ' ') == scheme + [' '] + token;
  }

  /** A header without a space has no token. */
  lemma OneWordHeaderHasNoToken(header: string)
    requires ' ' !in header
    ensures SecondWord(header) == None
  {
    SplitNoSep(header, ' ');
  }

  /** With a role required, a token for another role is refused as Forbidden
      whatever its verification claim and whatever the user table holds. */
  lemma RoleCheckedFirst(header: string, verify: string -> TokenResult, role: Role, isVerified: bool,
                         users: seq<UserRecord>)
    requires header != "" && SecondWord(header).Some? && SecondWord(header).value != ""
    requires verify(SecondWord(header).value).Decoded? && verify(SecondWord(header).value).claims.role != role
    ensures Guard(Some(header), verify, Some(role), isVerified, users) == Reject(Forbidden("Forbidden!"))
  {
  }

  /** Role and verification are judged on the token's claims: the stored user's
      own role and flag do not enter the decision. */
  lemma ClaimsNotStoredUser(header: Option<string>, verify: string -> TokenResult, role: Option<Role>,
                            isVerified: bool, users: seq<UserRecord>, i: nat, storedRole: Role, storedVerified: bool)
    requires i < |users|
    ensures Guard(header, verify, role, isVerified, users[i := users[i].(role := storedRole, isVerified := storedVerified)]).Pass?
            == Guard(header, verify, role, isVerified, users).Pass?
  {
    var users' := users[i := users[i].(role := storedRole, isVerified := storedVerified)];
    GuardPassIff(header, verify, role, isVerified, users);
    GuardPassIff(header, verify, role, isVerified, users');
    if header.Some? && SecondWord(header.value).Some? && verify(SecondWord(header.value).value).Decoded? {
      SameIdsSameLookup(users, users', verify(SecondWord(header.value).value).claims.id);
    }
  }

  lemma SameIdsSameLookup(users: seq<UserRecord>, users': seq<UserRecord>, id: Id)
    requires |users'| == |users| && forall j :: 0 <= j < |users| ==> users'[j].id == users[j].id
    ensures FindUser(users', id).Some? <==> FindUser(users, id).Some?
  {
  }

  /** The Express request and the `next` callback, as far as the guard touches them. */
  class Request {
    var user: Option<UserRecord>
    var nextCalls: nat

    constructor ()
      ensures user == None && nextCalls == 0
    {
      user := None;
      nextCalls := 0;
    }
  }

  /** The middleware: on success `request.user` is set to the stored user and
      `next` is called once; on any failure neither happens. */
  method VerifyRequest(request: Request, header: Option<string>, verify: string -> TokenResult, role: Option<Role>,
                       isVerified: bool, users: seq<UserRecord>)
    returns (outcome: Outcome)
    modifies request
    ensures outcome == Guard(header, verify, role, isVerified, users)
    ensures outcome.Pass? ==> request.user == Some(outcome.user) && request.nextCalls == old(request.nextCalls) + 1
    ensures outcome.Reject? ==> request.user == old(request.user) && request.nextCalls == old(request.nextCalls)
  {
    if header.None? || header.value == "" {
      return Reject(Unauthorized("Unauthorized! bt"));
    }
    var token := SecondWord(header.value);
    if token.None? || token.value == "" {
      return Reject(Unauthorized("Unauthorized! t"));
    }
    var decoded := verify(token.value);
    if IsJsonWebTokenError(decoded) {
      return Reject(TokenFailure(decoded));
    }
    var c := decoded.claims;
    if role.Some? && c.role != role.value {
      return Reject(Forbidden("Forbidden!"));
    }
    if isVerified && !c.isVerified {
      return Reject(BadResponse("User Not Verified!"));
    }
    var found := FindUser(users, c.id);
    if found.None? {
      return Reject(NotFound("User Not Found!"));
    }
    request.user := Some(users[found.value]);
    request.nextCalls := request.nextCalls + 1;
    outcome := Pass(users[found.value]);
  }
}
