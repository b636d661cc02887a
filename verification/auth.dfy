/**
 * The request-authorization gate of middleware/auth.js: a credential
 * extractor that may attach verified identity claims to the per-request
 * context (`res.locals.user`), and three guards that either let the request
 * continue or reject it as Unauthorized.
 */
module Auth {
  import opened Wrappers
  import opened JsString

  /**
   * The decoded payload of a verified token. Only the two fields the guards
   * read are modelled; a field missing from the payload is `None`.
   */
  datatype Claims = Claims(username: Option<string>, isAdmin: Option<bool>)

  /** What a middleware does with the request: call `next()`, or throw `UnauthorizedError`. */
  datatype Outcome = Next | Unauthorized

  /** The parts of an inbound request the gate reads: the `Authorization` header and the `username` route parameter. */
  datatype Request = Request(authorization: Option<string>, usernameParam: Option<string>)

  /**
   * The token verifier (`jwt.verify` with the process-wide secret): the
   * decoded claims, or `None` where the library throws.
   */
  type Verifier = string -> Option<Claims>

  /** `req.headers.authorization` is truthy: present and not the empty string. */
  predicate HeaderGiven(authorization: Option<string>)
  {
    authorization.Some? && authorization.value != ""
  }

  /** The token handed to the verifier: one leading `Bearer ` or `bearer ` removed, then whitespace trimmed at both ends. */
  function ExtractToken(header: string): (token: string)
    ensures IsTrimmed(token)
    ensures |token| <= |header|
  {
    Trim(StripBearer(header))
  }

  /** `Bearer ` or `bearer `, followed by a token padded with whitespace, yields the bare token. */
  lemma {:induction false} ExtractTokenBearer(scheme: string, lead: string, token: string, trail: string)
    requires scheme == "Bearer " || scheme == "bearer "
    requires AllWhitespace(lead) && AllWhitespace(trail) && IsTrimmed(token)
    ensures ExtractToken(scheme + lead + token + trail) == token
  {
    var h := scheme + lead + token + trail;
    assert h[..7] == scheme;
    assert h[7..] == lead + token + trail;
    TrimPadded(lead, token, trail);
  }

  /** A header with any other prefix, `BEARER ` and ` Bearer ` included, is only trimmed. */
  lemma OtherSchemeOnlyTrimmed(header: string)
    requires !HasBearerPrefix(header)
    ensures ExtractToken(header) == Trim(header)
  {
  }

  /** The scheme name is stripped at most once. */
  lemma {:induction false} BearerStrippedOnce(token: string)
    requires token != [] && IsTrimmed(token)
    ensures ExtractToken("Bearer Bearer " + token) == "Bearer " + token
  {
    var rest := "Bearer " + token;
    var h := "Bearer " + rest;
    assert h == "Bearer Bearer " + token;
    assert h[..7] == "Bearer " && h[7..] == rest;
    assert IsTrimmed(rest) by {
      assert rest[0] == 'B' && rest[|rest| - 1] == token[|token| - 1];
    }
    assert rest == [] + rest + [];
    TrimPadded([], rest, []);
  }

  /** `Bearer   abc.def.ghi` and `bearer abc.def.ghi` both yield `abc.def.ghi`. */
  lemma {:induction false} ExtractTokenPadded()
    ensures ExtractToken("Bearer   abc.def.ghi") == "abc.def.ghi"
  {
    assert "Bearer   abc.def.ghi" == "Bearer " + "  " + "abc.def.ghi" + [];
    ExtractTokenBearer("Bearer ", "  ", "abc.def.ghi", []);
  }

  lemma {:induction false} ExtractTokenLowerCase()
    ensures ExtractToken("bearer abc.def.ghi") == "abc.def.ghi"
  {
    assert "bearer abc.def.ghi" == "bearer " + [] + "abc.def.ghi" + [];
    ExtractTokenBearer("bearer ", [], "abc.def.ghi", []);
  }

  /** A header without the recognised prefix and without surrounding whitespace reaches the verifier unchanged. */
  lemma {:induction false} UnrecognisedHeaderKept(header: string)
    requires !HasBearerPrefix(header) && IsTrimmed(header)
    ensures ExtractToken(header) == header
  {
    assert header == [] + header + [];
    TrimPadded([], header, []);
  }

  /** An upper-case scheme name is not recognised: the header goes to the verifier as it is. */
  lemma {:induction false} UpperCaseSchemeKept(token: string)
    requires token != [] && IsTrimmed(token)
    ensures ExtractToken("BEARER " + token) == "BEARER " + token
  {
    var h := "BEARER " + token;
    assert !HasBearerPrefix(h) by {
      assert h[1] == 'E';
    }
    assert IsTrimmed(h) by {
      assert h[0] == 'B' && h[|h| - 1] == token[|token| - 1];
    }
    UnrecognisedHeaderKept(h);
  }

  /**
   * The value `res.locals.user` holds after `authenticateJWT`, given the value
   * it held before: the verifier's claims when a header was given and its
   * token verified, and the earlier value otherwise.
   */
  function AuthenticatedUser(prior: Option<Claims>, authorization: Option<string>, verify: Verifier): (user: Option<Claims>)
    ensures user != prior ==> HeaderGiven(authorization) && user.Some?
                              && user == verify(ExtractToken(authorization.value))
    ensures (HeaderGiven(authorization) && verify(ExtractToken(authorization.value)).Some?)
              ==> user == verify(ExtractToken(authorization.value))
  {
    if HeaderGiven(authorization) then
      match verify(ExtractToken(authorization.value))
      case Some(claims) => Some(claims)
      case None => prior
    else
      prior
  }

  /** Starting from an empty context, the request ends up authenticated exactly when a header was given and its token verified. */
  lemma AuthenticatedFromEmpty(authorization: Option<string>, verify: Verifier)
    ensures var user := AuthenticatedUser(None, authorization, verify);
      user.Some? <==> (HeaderGiven(authorization) && verify(ExtractToken(authorization.value)).Some?)
  {
  }

  /** `ensureAdmin`: claims are attached and their `isAdmin` is exactly `true`. */
  function EnsureAdmin(user: Option<Claims>): (outcome: Outcome)
    ensures outcome == Next <==> user.Some? && user.value.isAdmin == Some(true)
  {
    match user
    case None => Unauthorized
    case Some(claims) => if claims.isAdmin != Some(true) then Unauthorized else Next
  }

  /**
   * `ensureAdminOrSelf`: claims are attached, and they are an admin's or
   * their `username` equals the route's `username` parameter (two absent
   * values compare equal).
   */
  function EnsureAdminOrSelf(user: Option<Claims>, usernameParam: Option<string>): (outcome: Outcome)
    ensures user.None? ==> outcome == Unauthorized
    ensures user.Some? ==>
              (outcome == Next <==> user.value.isAdmin == Some(true) || user.value.username == usernameParam)
  {
    match user
    case None => Unauthorized
    case Some(claims) =>
      if claims.isAdmin != Some(true) && claims.username != usernameParam then Unauthorized else Next
  }

  /** `ensureLoggedIn`: any claims record is truthy, so the guard passes exactly when claims are attached. */
  function EnsureLoggedIn(user: Option<Claims>): (outcome: Outcome)
    ensures outcome == Next <==> user.Some?
  {
    if user.None? then Unauthorized else Next
  }

  /** The guards are ordered by strength: admin implies admin-or-self implies logged in. */
  lemma GuardStrength(user: Option<Claims>, usernameParam: Option<string>)
    ensures EnsureAdmin(user) == Next ==> EnsureAdminOrSelf(user, usernameParam) == Next
    ensures EnsureAdminOrSelf(user, usernameParam) == Next ==> EnsureLoggedIn(user) == Next
  {
  }

  /** A token without a `username` passes the self check on a route without a `username` parameter. */
  lemma AbsentUsernamesMatch(isAdmin: Option<bool>)
    ensures EnsureAdminOrSelf(Some(Claims(None, isAdmin)), None) == Next
  {
  }

  /**
   * The per-request context `res.locals`. Only the `user` slot is modelled;
   * a fresh context has nothing in it.
   */
  class RequestContext {
    var user: Option<Claims>

    constructor ()
      ensures user == None
    {
      user := None;
    }

    /**
     * `authenticateJWT`: stores the verified claims of the request's bearer
     * token, if any, and continues in every case.
     */
    method AuthenticateJWT(req: Request, verify: Verifier) returns (outcome: Outcome)
      modifies this
      ensures outcome == Next
      ensures user == AuthenticatedUser(old(user), req.authorization, verify)
    {
      if HeaderGiven(req.authorization) {
        var token := ExtractToken(req.authorization.value);
        var decoded := verify(token);
        if decoded.Some? {
          user := decoded;
        }
        // Otherwise the verifier threw; the handler swallows the error.
      }
      outcome := Next;
    }
  }
}
