/**
 * The two request guards every protected route runs: `authenticate` reads a bearer token
 * from the Authorization header and verifies it, and `authorize(...roles)` admits only the
 * listed roles. Token verification (JWT signature and expiry) is the `verify` parameter.
 */
module AuthMiddleware {
  import opened Wrappers
  import opened Schema
  import opened Text

  /**
   * A guard either passes the request on (`next()`) with a value, or answers it with a
   * status, an `error` and, for a refused role, an explanatory `message`.
   */
  datatype Outcome<T> = Next(value: T) | Stop(code: int, error: string, message: Option<string>)

  const BearerPrefix: string := "Bearer "

  /** The header is present and starts with the bearer prefix. */
  predicate HasBearer(header: Option<string>) {
    header.Some? && BearerPrefix <= header.value
  }

  /**
   * `authenticate`: a missing header or one without the bearer prefix is refused with 401
   * before any verification; otherwise the token is the second space-separated field, and
   * `next` is called with the identity it verifies to, or 401 when it does not verify.
   */
  function Authenticate(header: Option<string>, verify: string -> Option<Identity>): (r: Outcome<Identity>)
    ensures !HasBearer(header) ==> r == Stop(Unauthorized, "Authorization token required", None)
    ensures HasBearer(header) ==>
      && SecondField(header.value).Some?
      && var token := SecondField(header.value).value;
      && (verify(token).None? ==> r == Stop(Unauthorized, "Invalid or expired token", None))
      && (verify(token).Some? ==> r == Next(verify(token).value))
  {
    if !HasBearer(header) then Stop(Unauthorized, "Authorization token required", None)
    else
      assert header.value[6] == ' ';
      var token := SecondField(header.value).value;
      match verify(token)
      case None => Stop(Unauthorized, "Invalid or expired token", None)
      case Some(user) => Next(user)
  }

  /** The token the guard extracts from `Bearer <token>` is exactly the token, when it holds no space. */
  lemma BearerToken(token: string)
    requires ' ' !in token
    ensures HasBearer(Some(BearerPrefix + token))
    ensures SecondField(BearerPrefix + token) == Some(token)
  {
    var h := BearerPrefix + token;
    assert h[6] == ' ' && forall j :: 0 <= j < 6 ==> h[j] != ' ';
    assert IndexOf(h, ' ') == 6;
    assert h[7..] == token;
    assert IndexOf(token, ' ') == |token|;
    assert token[..|token|] == token;
  }

  /** `roles.join(', ')`: the role names separated by a comma and a space. */
  function JoinRoles(roles: seq<string>): string {
    if |roles| == 0 then ""
    else if |roles| == 1 then roles[0]
    else roles[0] + ", " + JoinRoles(roles[1..])
  }

  /** The 403 body's `message`, naming the roles the route admits. */
  function RolesMessage(roles: seq<string>): string {
    "This action requires one of: " + JoinRoles(roles)
  }

  /**
   * `authorize(...roles)`: 401 when no user is attached, 403 when the user's role is not
   * listed (with a message naming the admitted roles), and `next` otherwise.
   */
  function Authorize(user: Option<Identity>, roles: seq<string>): (r: Outcome<Identity>)
    ensures user.None? ==> r == Stop(Unauthorized, "Authentication required", None)
    ensures user.Some? && user.value.role !in roles ==> r == Stop(Forbidden, "Access denied", Some(RolesMessage(roles)))
    ensures r.Next? <==> user.Some? && user.value.role in roles
    ensures r.Next? ==> r.value == user.value
  {
    if user.None? then Stop(Unauthorized, "Authentication required", None)
    else if user.value.role !in roles then Stop(Forbidden, "Access denied", Some(RolesMessage(roles)))
    else Next(user.value)
  }

  /** A route guarded by `authenticate, authorize(...roles)`: the first guard that stops answers. */
  function Guard(header: Option<string>, verify: string -> Option<Identity>, roles: seq<string>): Outcome<Identity> {
    match Authenticate(header, verify)
    case Stop(code, error, message) => Stop(code, error, message)
    case Next(user) => Authorize(Some(user), roles)
  }

  /**
   * A handler behind both guards runs only for a caller whose token verifies to an identity
   * with one of the listed roles, and that identity is the caller it is given.
   */
  lemma GuardAdmits(header: Option<string>, verify: string -> Option<Identity>, roles: seq<string>)
    ensures var r := Guard(header, verify, roles);
      && (r.Next? <==> HasBearer(header) && verify(SecondField(header.value).value).Some?
                       && verify(SecondField(header.value).value).value.role in roles)
      && (r.Next? ==> r.value == verify(SecondField(header.value).value).value)
      && (r.Stop? ==> r.code == Unauthorized || r.code == Forbidden)
  {
  }
}
