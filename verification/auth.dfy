/**
 * Authentication and accounts (server/src/app.js): the bearer-token check of
 * `authRequired`, the role check of `roleRequired`, registration and login.
 * Signing and verifying tokens and hashing passwords are foreign code: token
 * verification is a function parameter, and the password hash and password
 * comparison are supplied by the caller.
 */
module Auth {
  import opened Wrappers
  import opened Text
  import opened Schema
  import opened Http
  import Queries

  const BearerPrefix: string := "Bearer "

  /**
   * The token `authRequired` reads from the Authorization header (the empty
   * string when the header is absent): what follows "Bearer ", where an empty
   * token counts as missing.
   */
  function BearerToken(header: string): (token: Option<string>)
    ensures token.Some? ==> header == BearerPrefix + token.value && token.value != ""
  {
    if StartsWith(header, BearerPrefix) && |header| > |BearerPrefix| then
      assert header == header[..7] + header[7..];
      Some(SliceFrom(header, 7))
    else None
  }

  /** Every non-empty token sent as "Bearer <token>" is the token read back. */
  lemma BearerTokenRoundTrip(token: string)
    requires token != ""
    ensures BearerToken(BearerPrefix + token) == Some(token)
  {
    assert (BearerPrefix + token)[..7] == BearerPrefix;
    assert (BearerPrefix + token)[7..] == token;
  }

  /** `authRequired`: 401 "Missing token" without a token, 401 "Invalid token" when verification fails. */
  function Authenticate(header: string, verify: string -> Option<Claims>): (r: Result<Claims, Failure>)
    ensures r.Ok? ==> exists token :: token != "" && header == BearerPrefix + token && verify(token) == Some(r.value)
    ensures r.Err? ==> r.error.Code() == 401
    ensures BearerToken(header).None? ==> r == Err(Unauthorized("Missing token"))
    ensures forall token :: token != "" && header == BearerPrefix + token ==>
              r == (if verify(token).Some? then Ok(verify(token).value) else Err(Unauthorized("Invalid token")))
  {
    assert forall t :: t != "" && header == BearerPrefix + t ==> BearerToken(header) == Some(t) by {
      forall t | t != "" && header == BearerPrefix + t ensures BearerToken(header) == Some(t) {
        BearerTokenRoundTrip(t);
      }
    }
    match BearerToken(header)
    case None => Err(Unauthorized("Missing token"))
    case Some(token) =>
      match verify(token)
      case None => Err(Unauthorized("Invalid token"))
      case Some(claims) => Ok(claims)
  }

  /** `roleRequired(role)`: 403 "Forbidden" unless the caller has the role. */
  function RequireRole(caller: Claims, role: Role): (r: Result<Claims, Failure>)
    ensures r.Ok? <==> caller.role == role
    ensures r.Ok? ==> r.value == caller
    ensures r.Err? ==> r.error == Forbidden("Forbidden")
  {
    if caller.role != role then Err(Forbidden("Forbidden")) else Ok(caller)
  }

  /** `authRequired` followed by `roleRequired(role)`, as the instructor routes chain them. */
  function Guard(header: string, verify: string -> Option<Claims>, role: Role): (r: Result<Claims, Failure>)
    ensures r.Ok? ==> r.value.role == role && Authenticate(header, verify) == Ok(r.value)
    ensures r.Err? && r.error.Code() == 403 ==>
              Authenticate(header, verify).Ok? && Authenticate(header, verify).value.role != role
    ensures r.Err? ==> r.error.Code() == 401 || r.error.Code() == 403
    ensures Authenticate(header, verify).Err? ==> r == Authenticate(header, verify)
    ensures Authenticate(header, verify).Ok? && Authenticate(header, verify).value.role == role ==>
              r == Authenticate(header, verify)
  {
    match Authenticate(header, verify)
    case Err(e) => Err(e)
    case Ok(caller) => RequireRole(caller, role)
  }

  /** The `user` object returned by registration and login. */
  datatype UserView = UserView(id: int, email: string, role: Role)

  /**
   * `POST /api/auth/register`: 400 unless email, password and a known role
   * are given, 409 when the lower-cased email is taken, otherwise a new user
   * row with the lower-cased email. `passwordHash` is what bcrypt produced.
   */
  function Register(db: Db, email: string, password: string, role: string, passwordHash: string): (st: Step<UserView>)
    ensures st.response.Err? ==> st.db == db
    ensures st.response.Err? && st.response.error.Code() == 400 <==>
              email == "" || password == "" || ParseRole(role).None?
    ensures st.response.Err? && st.response.error.Code() == 409 <==>
              email != "" && password != "" && ParseRole(role).Some? &&
              exists u :: u in db.users && u.email == Lower(email)
    ensures st.response.Ok? ==>
              && st.response.value.email == Lower(email)
              && RoleName(st.response.value.role) == role
              && st.db.users == db.users + [User(st.response.value.id, Lower(email), passwordHash, st.response.value.role)]
              && st.db.lectures == db.lectures && st.db.progress == db.progress
    ensures st.response.Ok? <==> email != "" && password != "" && ParseRole(role).Some? &&
                                 forall u :: u in db.users ==> u.email != Lower(email)
    ensures Valid(db) ==> Valid(st.db)
    ensures Queries.Consistent(db) ==> Queries.Consistent(st.db)
  {
    if email == "" || password == "" || role == "" || ParseRole(role).None? then
      Step(db, Err(BadRequest("email, password and role (instructor|student) required")))
    else
      var lower := Lower(email);
      if FindUserByEmail(db, lower).Some? then Step(db, Err(Conflict("User already exists")))
      else
        var r := ParseRole(role).value;
        match InsertUser(db, lower, passwordHash, r)
        case Err(_) => Step(db, Err(InternalError))
        case Ok((db', id)) =>
          Queries.ConsistentFrame(db, db');
          Step(db', Ok(UserView(id, lower, r)))
  }

  /**
   * `POST /api/auth/login`: 400 without email or password, 401 "Invalid
   * credentials" when no user has the lower-cased email or the password does
   * not match the stored hash (`matches` stands for bcrypt's comparison).
   */
  function Login(db: Db, email: string, password: string, matches: (string, string) -> bool): (r: Result<UserView, Failure>)
    ensures r.Ok? ==> exists u :: u in db.users && u.email == Lower(email) && matches(password, u.passwordHash) &&
                                  r.value == UserView(u.id, u.email, u.role)
    ensures r.Err? ==> r.error.Code() == 400 || r.error == Unauthorized("Invalid credentials")
    ensures r.Err? && r.error.Code() == 400 <==> email == "" || password == ""
    ensures (forall u :: u in db.users ==> u.email != Lower(email)) && email != "" && password != "" ==>
              r == Err(Unauthorized("Invalid credentials"))
  {
    if email == "" || password == "" then Err(BadRequest("email and password required"))
    else
      match FindUserByEmail(db, Lower(email))
      case None => Err(Unauthorized("Invalid credentials"))
      case Some(u) =>
        if !matches(password, u.passwordHash) then Err(Unauthorized("Invalid credentials"))
        else Ok(UserView(u.id, u.email, u.role))
  }

  /** In a valid state, a stored user's lower-cased email with a password their hash matches logs that user in. */
  lemma LoginSucceeds(db: Db, u: User, email: string, password: string, matches: (string, string) -> bool)
    requires Valid(db) && u in db.users
    requires email != "" && password != "" && u.email == Lower(email) && matches(password, u.passwordHash)
    ensures Login(db, email, password, matches) == Ok(UserView(u.id, u.email, u.role))
  {
    FindUserByEmailRow(db, u);
  }

  /** A user who has just registered logs in with the same email and password and gets the same user back. */
  lemma LoginAfterRegister(db: Db, email: string, password: string, role: string, passwordHash: string,
                           matches: (string, string) -> bool)
    requires Valid(db)
    requires Register(db, email, password, role, passwordHash).response.Ok?
    requires matches(password, passwordHash)
    ensures var st := Register(db, email, password, role, passwordHash);
            Login(st.db, email, password, matches) == Ok(st.response.value)
  {
    var st := Register(db, email, password, role, passwordHash);
    var v := st.response.value;
    var u := User(v.id, Lower(email), passwordHash, v.role);
    assert u in st.db.users;
    FindUserByEmailRow(st.db, u);
  }
}
