/** The authentication endpoints (AuthController): sign-up against the user
    table, and the login, refresh and current-user decisions. The JWT
    provider, the password encoder and the authentication manager are
    opaque: they are passed in as functions. */
module AuthSpec {
  import opened Common

  /** JwtTokenProvider as the controller uses it. Signing, expiry and
      parsing are not modelled; only which function is applied to what. */
  datatype TokenProvider = TokenProvider(
    generateToken: string -> string,              // generateToken(authentication), from its name
    generateTokenFromUsername: string -> string,
    generateRefreshToken: string -> string,
    validateRefreshToken: string -> bool,
    getUsernameFromToken: string -> string)

  datatype Status = OK | CREATED | BAD_REQUEST | UNAUTHORIZED

  datatype Body =
    | Message(message: string)                    // MessageResponse
    | AuthBody(accessToken: Option<string>, refreshToken: Option<string>,
               username: string, email: string, role: string)  // AuthResponse
    | TokenPair(newAccessToken: string, newRefreshToken: string)  // TokenRefreshResponse

  /** A `ResponseEntity`, or an exception that escapes the handler. */
  datatype Reply = Reply(status: Status, body: Body) | Thrown(message: string)

  const INVALID_CREDENTIALS := "Invalid username or password"
  const USERNAME_TAKEN := "Username is already taken"
  const EMAIL_TAKEN := "Email is already in use"
  const REGISTERED := "User registered successfully"
  const INVALID_REFRESH := "Invalid or expired refresh token"
  const NOT_AUTHENTICATED := "Not authenticated"
  const USER_NOT_FOUND := "User not found"
  const ANONYMOUS_USER := "anonymousUser"

  /** The principal of a Spring `Authentication`: the anonymous filter puts
      the text "anonymousUser" there, a login puts the user's details. */
  datatype Principal = Text(value: string) | Details(username: string)

  datatype Authentication = Authentication(authenticated: bool, principal: Principal, name: string)

  datatype UserTable = UserTable(users: map<Id, User>, nextUserId: nat)

  predicate UsernameTaken(t: UserTable, username: string) {
    exists k :: k in t.users && t.users[k].username == username
  }

  predicate EmailTaken(t: UserTable, email: string) {
    exists k :: k in t.users && t.users[k].email == email
  }

  ghost predicate Consistent(t: UserTable) {
    && (forall k :: k in t.users ==> k < t.nextUserId)
    && (forall k1, k2 :: k1 in t.users && k2 in t.users && t.users[k1].username == t.users[k2].username ==> k1 == k2)
    && (forall k1, k2 :: k1 in t.users && k2 in t.users && t.users[k1].email == t.users[k2].email ==> k1 == k2)
  }

  /** `userRepository.findByUsername(username)`. */
  function FindByUsername(t: UserTable, username: string): (r: Option<User>)
    ensures r.Some? ==> r.value in t.users.Values && r.value.username == username
    ensures Consistent(t) ==> (r.Some? <==> UsernameTaken(t, username))
  {
    var found := Select(t.users, (u: User) => u.username == username, t.nextUserId);
    if found == [] then None
    else
      assert found[0] in found;
      Some(t.users[found[0]])
  }

  // ---------------------------------------------------------------------
  // Sign-up: the one update.

  /** `signup(request)`: the username is checked before the email, and the
      new user always gets role USER. */
  function Signup(t: UserTable, encode: string -> string, username: string, email: string, password: string)
    : (r: (UserTable, Reply))
  {
    if UsernameTaken(t, username) then (t, Reply(BAD_REQUEST, Message(USERNAME_TAKEN)))
    else if EmailTaken(t, email) then (t, Reply(BAD_REQUEST, Message(EMAIL_TAKEN)))
    else
      var id := t.nextUserId;
      (UserTable(t.users[id := User(username, email, encode(password), USER_ROLE)], id + 1),
       Reply(CREATED, Message(REGISTERED)))
  }

  /** A taken username is reported first, a taken email second, and either
      adds no user; otherwise exactly one user is added, with the given
      username and email, the encoded password and role USER. */
  lemma SignupEffect(t: UserTable, encode: string -> string, username: string, email: string, password: string)
    requires Consistent(t)
    ensures var (t', reply) := Signup(t, encode, username, email, password);
      && (UsernameTaken(t, username) ==> t' == t && reply == Reply(BAD_REQUEST, Message(USERNAME_TAKEN)))
      && (!UsernameTaken(t, username) && EmailTaken(t, email) ==>
            t' == t && reply == Reply(BAD_REQUEST, Message(EMAIL_TAKEN)))
      && (reply.status == CREATED <==> !UsernameTaken(t, username) && !EmailTaken(t, email))
      && (reply.status == CREATED ==>
            exists id: Id :: id !in t.users && t'.users == t.users[id := User(username, email, encode(password), USER_ROLE)])
  {
    if !UsernameTaken(t, username) && !EmailTaken(t, email) {
      assert t.nextUserId !in t.users;
    }
  }

  /** Sign-up keeps usernames and emails unique. */
  lemma SignupConsistent(t: UserTable, encode: string -> string, username: string, email: string, password: string)
    requires Consistent(t)
    ensures Consistent(Signup(t, encode, username, email, password).0)
  {
    var t' := Signup(t, encode, username, email, password).0;
    if !UsernameTaken(t, username) && !EmailTaken(t, email) {
      var id := t.nextUserId;
      forall k | k in t.users
        ensures t.users[k].username != username && t.users[k].email != email
      {
      }
    }
  }

  /** After a successful sign-up the new name is found by login's lookup. */
  lemma SignupThenFind(t: UserTable, encode: string -> string, username: string, email: string, password: string)
    requires Consistent(t)
    requires Signup(t, encode, username, email, password).1.status == CREATED
    ensures FindByUsername(Signup(t, encode, username, email, password).0, username)
      == Some(User(username, email, encode(password), USER_ROLE))
  {
    var t' := Signup(t, encode, username, email, password).0;
    SignupConsistent(t, encode, username, email, password);
    var id := t.nextUserId;
    assert t'.users[id].username == username;
    assert UsernameTaken(t', username);
  }

  // ---------------------------------------------------------------------
  // Decisions over the opaque token provider and authentication manager.

  /** `login(request)`: `authenticate` is the authentication manager's
      verdict on the credentials. Every failure, whether the manager refuses
      or the user row is missing, gives the same reply. */
  function Login(tp: TokenProvider, authenticate: (string, string) -> bool, t: UserTable,
                 username: string, password: string): (reply: Reply)
    ensures reply.Thrown? == false
    ensures reply.status != OK ==> reply == Reply(UNAUTHORIZED, Message(INVALID_CREDENTIALS))
    ensures Consistent(t) ==> (reply.status == OK <==> authenticate(username, password) && UsernameTaken(t, username))
    ensures reply.status == OK ==>
      && reply.body.AuthBody?
      && reply.body.accessToken == Some(tp.generateToken(username))
      && reply.body.refreshToken == Some(tp.generateRefreshToken(username))
      && reply.body.username == username
      && exists k :: k in t.users && t.users[k] == User(username, reply.body.email, t.users[k].password, reply.body.role)
  {
    if !authenticate(username, password) then Reply(UNAUTHORIZED, Message(INVALID_CREDENTIALS))
    else
      var accessToken := tp.generateToken(username);
      var refreshToken := tp.generateRefreshToken(username);
      match FindByUsername(t, username)
      case None => Reply(UNAUTHORIZED, Message(INVALID_CREDENTIALS))
      case Some(u) => Reply(OK, AuthBody(Some(accessToken), Some(refreshToken), u.username, u.email, u.role))
  }

  /** `refreshToken(request)`: either both a new access token and a new
      refresh token, minted for the name inside the presented token, or an
      Unauthorized reply carrying no token. */
  function RefreshToken(tp: TokenProvider, refreshToken: Option<string>): (reply: Reply)
    ensures reply.Reply?
    ensures reply.status == OK <==> refreshToken.Some? && tp.validateRefreshToken(refreshToken.value)
    ensures reply.status != OK ==> reply == Reply(UNAUTHORIZED, Message(INVALID_REFRESH))
    ensures reply.status == OK ==>
      var username := tp.getUsernameFromToken(refreshToken.value);
      reply.body == TokenPair(tp.generateTokenFromUsername(username), tp.generateRefreshToken(username))
  {
    if refreshToken.None? || !tp.validateRefreshToken(refreshToken.value) then
      Reply(UNAUTHORIZED, Message(INVALID_REFRESH))
    else
      var username := tp.getUsernameFromToken(refreshToken.value);
      var newAccessToken := tp.generateTokenFromUsername(username);
      var newRefreshToken := tp.generateRefreshToken(username);
      Reply(OK, TokenPair(newAccessToken, newRefreshToken))
  }

  /** An authentication that stands for a signed-in user. */
  predicate SignedIn(auth: Option<Authentication>) {
    auth.Some? && auth.value.authenticated && auth.value.principal != Text(ANONYMOUS_USER)
  }

  /** `getCurrentUser()`, with the security context's authentication passed
      in: Unauthorized unless signed in; otherwise the stored user's name,
      email and role, never a token, or "User not found". */
  function CurrentUser(auth: Option<Authentication>, t: UserTable): (reply: Reply)
    ensures !SignedIn(auth) ==> reply == Reply(UNAUTHORIZED, Message(NOT_AUTHENTICATED))
    ensures SignedIn(auth) ==> reply.Thrown? || reply.status == OK
    ensures reply.Reply? && reply.status == OK ==>
      && reply.body.AuthBody?
      && reply.body.accessToken.None? && reply.body.refreshToken.None?
      && reply.body.username == auth.value.name
    ensures reply.Reply? && reply.status == OK ==>
      exists k :: k in t.users && t.users[k] == User(auth.value.name, reply.body.email, t.users[k].password, reply.body.role)
    ensures reply.Thrown? ==> reply.message == USER_NOT_FOUND
    ensures Consistent(t) && SignedIn(auth) ==> (reply.Thrown? <==> !UsernameTaken(t, auth.value.name))
  {
    if auth.None? || !auth.value.authenticated || auth.value.principal == Text(ANONYMOUS_USER) then
      Reply(UNAUTHORIZED, Message(NOT_AUTHENTICATED))
    else
      match FindByUsername(t, auth.value.name)
      case None => Thrown(USER_NOT_FOUND)
      case Some(u) => Reply(OK, AuthBody(None, None, u.username, u.email, u.role))
  }
}

/** The controller object: its state is the user table it inserts into. */
module AuthController {
  import opened Common
  import opened AuthSpec

  class AuthController {
    var users: map<Id, User>
    var nextUserId: nat

    function Current(): UserTable
      reads this
    {
      UserTable(users, nextUserId)
    }

    ghost predicate Valid()
      reads this
    {
      Consistent(Current())
    }

    constructor ()
      ensures Valid() && users == map[]
    {
      users, nextUserId := map[], 0;
    }

    method Signup(encode: string -> string, username: string, email: string, password: string)
      returns (reply: Reply)
      requires Valid()
      modifies this
      ensures Valid()
      ensures (Current(), reply) == AuthSpec.Signup(old(Current()), encode, username, email, password)
    {
      SignupConsistent(Current(), encode, username, email, password);
      if UsernameTaken(Current(), username) {
        return Reply(BAD_REQUEST, Message(USERNAME_TAKEN));
      }
      if EmailTaken(Current(), email) {
        return Reply(BAD_REQUEST, Message(EMAIL_TAKEN));
      }
      var user := User(username, email, encode(password), USER_ROLE);
      users := users[nextUserId := user];
      nextUserId := nextUserId + 1;
      reply := Reply(CREATED, Message(REGISTERED));
    }
  }
}
