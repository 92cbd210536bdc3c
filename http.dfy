/**
  What a route answers (the HTTP status and its message), the bearer token a
  request carries, and the authenticate / authorize middleware of
  redis-backend/server.js. Token signatures and expiry are not modelled: a token
  either is missing, fails to verify, or carries the claims it was signed with.
*/
module Http {
  import opened Wrappers

  datatype Status =
    | Ok                                      // 200
    | Created                                 // 201
    | BadRequest(message: string)             // 400
    | Unauthorized(message: string)           // 401
    | Forbidden(message: string)              // 403
    | NotFound(message: string)               // 404
    | ServerError(message: string, error: string)  // 500, with the thrown error's message
  {
    function Code(): nat {
      match this
      case Ok => 200
      case Created => 201
      case BadRequest(_) => 400
      case Unauthorized(_) => 401
      case Forbidden(_) => 403
      case NotFound(_) => 404
      case ServerError(_, _) => 500
    }

    predicate Success() { Code() < 300 }
  }

  /** What login signs into the token: the user name and the role field of the user
      hash, which may be undefined. */
  datatype Claims = Claims(username: string, role: Option<string>)

  datatype Auth = NoToken | InvalidToken | Bearer(claims: Claims)

  const AdminOnly: seq<string> := ["admin"]
  const UserOnly: seq<string> := ["user"]

  /** The authenticate middleware. */
  function Authenticate(auth: Auth): (r: Result<Claims, Status>)
    ensures r.Success? <==> auth.Bearer?
    ensures r.Success? ==> r.value == auth.claims
  {
    match auth
    case NoToken => Failure(Unauthorized("Authentication required"))
    case InvalidToken => Failure(Forbidden("Invalid token"))
    case Bearer(c) => Success(c)
  }

  /** authenticate followed by authorize(roles). */
  function Authorize(auth: Auth, roles: seq<string>): Result<Claims, Status> {
    match Authenticate(auth)
    case Failure(e) => Failure(e)
    case Success(c) =>
      if c.role.Some? && c.role.value in roles then Success(c)
      else Failure(Forbidden("Unauthorized: insufficient role"))
  }

  /** A request passes exactly when it carries a verified token whose role is one of the
      allowed roles; missing tokens are 401, an invalid token or a role outside the list
      is 403. */
  lemma AuthorizeAdmits(auth: Auth, roles: seq<string>)
    ensures Authorize(auth, roles).Success? <==>
              auth.Bearer? && auth.claims.role.Some? && auth.claims.role.value in roles
    ensures Authorize(auth, roles).Success? ==> Authorize(auth, roles).value == auth.claims
    ensures auth.NoToken? ==> Authorize(auth, roles).error.Code() == 401
    ensures auth.InvalidToken? ==> Authorize(auth, roles).error.Code() == 403
    ensures auth.Bearer? && !(auth.claims.role.Some? && auth.claims.role.value in roles) ==>
              Authorize(auth, roles).error == Forbidden("Unauthorized: insufficient role")
  {
  }
}
