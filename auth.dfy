/**
 * controllers/authController.js: signup, login, the `protect` guard and `allowAccessTo`.
 * argon2 and jsonwebtoken are kept abstract as the four functions of a `Crypto` value;
 * the properties they are relied on for are the predicates HashSound and TokenSound.
 */
module Auth {
  import opened Wrappers
  import opened Rows
  import opened Queries
  import opened Http
  import Store

  /**
   * `hash` is argon2.hash, `verify(stored, plain)` argon2.verify, `sign(id)` signToken and
   * `decode(token)` the `id` claim jwt.verify returns, or the message of the error it throws.
   */
  datatype Crypto = Crypto(
    hash: string -> string,
    verify: (string, string) -> bool,
    sign: int -> string,
    decode: string -> Result<int, string>)

  /** argon2.verify accepts the hash of the same password. */
  ghost predicate HashSound(c: Crypto)
  {
    forall p :: c.verify(c.hash(p), p)
  }

  /** A signed token is a non-empty string that decodes to the id it was signed for. */
  ghost predicate TokenSound(c: Crypto)
  {
    forall id :: c.sign(id) != "" && c.decode(c.sign(id)) == Success(id)
  }

  /** The fields signup reads from `req.body`. */
  datatype SignupBody = SignupBody(username: string, password: string, role: Option<string>)

  /** The fields login reads from `req.body`. */
  datatype LoginBody = LoginBody(username: string, password: string)

  /** `newUser.role || 'user'`. */
  function RoleOrUser(role: Option<string>): (r: string)
    ensures role.Some? && role.value != "" ==> r == role.value
    ensures role.None? || role.value == "" ==> r == "user"
  {
    if role.Some? && role.value != "" then role.value else "user"
  }

  /** What signup passes to createUser: the hash of the password, never the password itself. */
  function SignupRow(c: Crypto, body: SignupBody): NewUser
  {
    NewUser(body.username, c.hash(body.password), RoleOrUser(body.role))
  }

  /**
   * signup after createUser: nothing created is a 400 'User not created' without a cookie;
   * otherwise a 201 with the created user and a cookie holding a token for its id.
   */
  function SignupOutcome(c: Crypto, created: Option<PublicUser>): (r: Response)
    ensures created.None? ==> r == AppError("User not created", 400) && r.cookie.None?
    ensures created.Some? ==> r.code == 201 && r.status == "success"
                              && r.data == OneUser(created.value) && r.cookie == Some(c.sign(created.value.id))
  {
    if created.None? then AppError("User not created", 400)
    else Ok(201, OneUser(created.value)).(cookie := Some(c.sign(created.value.id)))
  }

  /**
   * signup: stores exactly one user, with the hash of the password and the role defaulted
   * to 'user', and answers 201 with a token cookie for the new id.
   */
  method Signup(store: Store.LibraryStore, c: Crypto, body: SignupBody) returns (resp: Response)
    requires store.Valid()
    modifies store
    ensures store.Valid()
    ensures resp.data.OneUser? && resp.data.user.id !in UserIds(old(store.users))
    ensures store.users == old(store.users) + [User(resp.data.user.id, body.username, c.hash(body.password), RoleOrUser(body.role))]
    ensures store.authors == old(store.authors) && store.books == old(store.books)
    ensures resp == SignupOutcome(c, Some(PublicUser(resp.data.user.id, body.username, RoleOrUser(body.role))))
  {
    var created := store.CreateUser(SignupRow(c, body));
    resp := SignupOutcome(c, Some(created));
  }

  /**
   * login after getUserByUsername: an unknown username is a 404 'User not found' whatever
   * the password and without calling verify; a password verify rejects is a 401
   * 'Incorrect password'; neither sets a cookie. Otherwise a 200 with only id, username and
   * role, and a cookie holding a token for that id.
   */
  function LoginOutcome(c: Crypto, user: Option<User>, password: string): (r: Response)
    ensures user.None? ==> r == AppError("User not found", 404)
    ensures user.Some? && !c.verify(user.value.password, password) ==> r == AppError("Incorrect password", 401)
    ensures r.code == 200 <==> user.Some? && c.verify(user.value.password, password)
    ensures r.code == 200 ==> r.data == LoggedIn(Public(user.value)) && r.cookie == Some(c.sign(user.value.id))
    ensures r.code != 200 ==> r.cookie.None?
  {
    if user.None? then AppError("User not found", 404)
    else if !c.verify(user.value.password, password) then AppError("Incorrect password", 401)
    else Ok(200, LoggedIn(Public(user.value))).(cookie := Some(c.sign(user.value.id)))
  }

  /** login against the users table: 404 exactly when no user has that username. */
  function Login(c: Crypto, users: seq<User>, body: LoginBody): (r: Response)
    ensures r.code == 404 <==> forall u :: u in users ==> u.username != body.username
    ensures r.code == 200 ==> exists u :: u in users && u.username == body.username
                                           && c.verify(u.password, body.password) && r.data == LoggedIn(Public(u))
  {
    LoginOutcome(c, UserByUsername(users, body.username), body.password)
  }

  /** `req.cookies?.jwt`. */
  function JwtCookie(cookies: map<string, string>): Option<string>
  {
    if "jwt" in cookies then Some(cookies["jwt"]) else None
  }

  /**
   * protect without its side effect: a missing or empty token is a 401 whatever the users
   * table holds; a token jwt.verify rejects is thrown on (500); a decoded id that names no
   * user is a 401; otherwise the user's id, username and role.
   */
  function Authenticate(c: Crypto, users: seq<User>, token: Option<string>): (r: Result<PublicUser, Response>)
    ensures token.None? || token.value == "" ==>
              r == Failure(AppError("You are not logged in. Please log in to access this route.", 401))
    ensures r.Success? ==> token.Some? && c.decode(token.value).Success?
                           && exists u :: u in users && u.id == c.decode(token.value).value && r.value == Public(u)
    ensures token.Some? && token.value != "" && c.decode(token.value).Failure? ==>
              r == Failure(Thrown(c.decode(token.value).error))
    ensures token.Some? && token.value != "" && c.decode(token.value).Success? ==>
              var gone := r == Failure(AppError("The user belonging to this token no longer exists.", 401));
              gone <==> c.decode(token.value).value !in UserIds(users)
  {
    if token.None? || token.value == "" then
      Failure(AppError("You are not logged in. Please log in to access this route.", 401))
    else
      match c.decode(token.value)
      case Failure(message) => Failure(Thrown(message))
      case Success(id) =>
        match UserById(users, id)
        case None => Failure(AppError("The user belonging to this token no longer exists.", 401))
        case Some(u) => Success(u)
  }

  /** The Express request as the guards see it: its cookies and the user `protect` attaches. */
  class Request {
    var cookies: map<string, string>
    var user: Option<PublicUser>

    constructor (cookies: map<string, string>)
      ensures this.cookies == cookies && user.None?
    {
      this.cookies := cookies;
      user := None;
    }
  }

  /** What a middleware does next: `next()`, or `next(error)` ending in that response. */
  datatype Next = Continue | Halt(response: Response)

  /**
   * protect: on success sets `req.user` and continues; on any failure halts with the
   * response of Authenticate and leaves `req.user` as it was.
   */
  method Protect(req: Request, c: Crypto, users: seq<User>) returns (next: Next)
    modifies req
    ensures req.cookies == old(req.cookies)
    ensures match Authenticate(c, users, JwtCookie(old(req.cookies)))
            case Success(u) => next == Continue && req.user == Some(u)
            case Failure(resp) => next == Halt(resp) && req.user == old(req.user)
  {
    var token := JwtCookie(req.cookies);
    if token.None? || token.value == "" {
      return Halt(AppError("You are not logged in. Please log in to access this route.", 401));
    }
    var decoded := c.decode(token.value);
    if decoded.Failure? {
      return Halt(Thrown(decoded.error));
    }
    var currentUser := UserById(users, decoded.value);
    if currentUser.None? {
      return Halt(AppError("The user belonging to this token no longer exists.", 401));
    }
    req.user := currentUser;
    next := Continue;
  }

  /**
   * allowAccessTo(...roles): continues exactly when the attached user's role is one of
   * `roles`, otherwise 403. Without an attached user, reading its role throws (500).
   */
  function AllowAccessTo(roles: seq<string>, user: Option<PublicUser>): (r: Next)
    ensures r == Continue <==> user.Some? && user.value.role in roles
    ensures user.Some? && user.value.role !in roles ==>
              r == Halt(AppError("You do not have permission to perform this action", 403))
  {
    if user.None? then Halt(Thrown("Cannot read properties of undefined (reading 'role')"))
    else if user.value.role !in roles then Halt(AppError("You do not have permission to perform this action", 403))
    else Continue
  }

  /** A row appended with a fresh id and an unused username is what both lookups find. */
  lemma AppendedUserFound(users: seq<User>, row: User)
    requires row.id !in UserIds(users)
    requires forall u :: u in users ==> u.username != row.username
    ensures UserByUsername(users + [row], row.username) == Some(row)
    ensures UserById(users + [row], row.id) == Some(Public(row))
  {
    var after := users + [row];
    assert forall k :: 0 <= k < |users| ==> after[k] == users[k] && after[k].username != row.username;
    assert after[|users|] == row;
    assert UserIndex(after, row.id) == Some(|users|);
    UsernameLookupFindsFirst(after, |users|);
  }

  lemma {:induction false} UsernameLookupFindsFirst(users: seq<User>, i: nat)
    requires i < |users|
    requires forall k :: 0 <= k < i ==> users[k].username != users[i].username
    ensures UserByUsername(users, users[i].username) == Some(users[i])
  {
    if i > 0 {
      assert users[1..][i - 1] == users[i];
      UsernameLookupFindsFirst(users[1..], i - 1);
    }
  }

  /**
   * Register, then log in, then present the cookie: for a username not yet taken, the row
   * signup stores lets login with the same password succeed with a token, and protect
   * maps that token back to the same user.
   */
  lemma SignupThenLoginThenProtect(c: Crypto, users: seq<User>, id: int, body: SignupBody)
    requires HashSound(c) && TokenSound(c)
    requires id !in UserIds(users)
    requires forall u :: u in users ==> u.username != body.username
    ensures var row := User(id, body.username, c.hash(body.password), RoleOrUser(body.role));
            var after := users + [row];
            var resp := Login(c, after, LoginBody(body.username, body.password));
            && resp.code == 200
            && resp.data == LoggedIn(PublicUser(id, body.username, RoleOrUser(body.role)))
            && resp.cookie == Some(c.sign(id))
            && Authenticate(c, after, resp.cookie) == Success(PublicUser(id, body.username, RoleOrUser(body.role)))
  {
    var row := User(id, body.username, c.hash(body.password), RoleOrUser(body.role));
    AppendedUserFound(users, row);
    assert c.verify(c.hash(body.password), body.password);
    assert c.sign(id) != "" && c.decode(c.sign(id)) == Success(id);
  }
}
