/** The browser side of authentication (authService.js): the token store
    kept in localStorage, the refresh call, and the two axios interceptors
    that attach the access token and retry a request once after a 401. */
module AuthClient {
  import opened Common

  const TOKEN_KEY := "access_token"
  const REFRESH_TOKEN_KEY := "refresh_token"
  const USER_KEY := "user"

  const UNAUTHORIZED := 401

  /** localStorage: string keys to string values. */
  type Storage = map<string, string>

  /** `localStorage.getItem(key)`: null for a missing key. */
  function GetItem(storage: Storage, key: string): Option<string> {
    if key in storage then Some(storage[key]) else None
  }

  /** JavaScript truthiness of a string or null: present and non-empty. */
  predicate Truthy(s: Option<string>) {
    s.Some? && s.value != ""
  }

  /** `isLoggedIn()`: `!!getAccessToken()`. */
  predicate IsLoggedIn(storage: Storage) {
    Truthy(GetItem(storage, TOKEN_KEY))
  }

  /** The storage after `saveTokens(accessToken, refreshToken)`. */
  function SavedTokens(storage: Storage, accessToken: string, refreshToken: Option<string>): Storage {
    var s := storage[TOKEN_KEY := accessToken];
    if Truthy(refreshToken) then s[REFRESH_TOKEN_KEY := refreshToken.value] else s
  }

  /** The storage after `removeTokens()`. */
  function Cleared(storage: Storage): Storage {
    storage - {TOKEN_KEY, REFRESH_TOKEN_KEY, USER_KEY}
  }

  /** The answer to `POST /auth/refresh`: a new token pair, or an HTTP error
      status. The body's refresh token may be missing. */
  datatype RefreshReply = Refreshed(accessToken: string, refreshToken: Option<string>) | Rejected(status: int)

  /** `refreshAccessToken()` with the refresh request exempt from the 401
      interceptor: without a stored refresh token it fails and touches
      nothing; a new pair is saved; any rejection clears the store. */
  function Refresh(storage: Storage, post: string -> RefreshReply): (r: (bool, Storage)) {
    var refreshToken := GetItem(storage, REFRESH_TOKEN_KEY);
    if !Truthy(refreshToken) then (false, storage)
    else match post(refreshToken.value)
      case Refreshed(accessToken, newRefreshToken) => (true, SavedTokens(storage, accessToken, newRefreshToken))
      case Rejected(_) => (false, Cleared(storage))
  }

  /** The `Authorization` header once the request interceptor has run. */
  function AttachedHeader(storage: Storage, header: Option<string>): Option<string> {
    var token := GetItem(storage, TOKEN_KEY);
    if Truthy(token) then Some("Bearer " + token.value) else header
  }

  /** `Bearer ${getAccessToken()}`, the header the 401 interceptor sets
      before resending; a missing token prints as "null". */
  function Bearer(storage: Storage): string {
    var token := GetItem(storage, TOKEN_KEY);
    "Bearer " + if token.Some? then token.value else "null"
  }

  // ---------------------------------------------------------------------
  // Properties of the store.

  /** `saveTokens` always writes the access token, writes the refresh token
      only when the new one is truthy (otherwise the old one stays), and
      leaves every other key alone. */
  lemma SavedTokensEffect(storage: Storage, accessToken: string, refreshToken: Option<string>)
    ensures var s := SavedTokens(storage, accessToken, refreshToken);
      && GetItem(s, TOKEN_KEY) == Some(accessToken)
      && (Truthy(refreshToken) ==> GetItem(s, REFRESH_TOKEN_KEY) == refreshToken)
      && (!Truthy(refreshToken) ==> GetItem(s, REFRESH_TOKEN_KEY) == GetItem(storage, REFRESH_TOKEN_KEY))
      && (forall k :: k != TOKEN_KEY && k != REFRESH_TOKEN_KEY ==> GetItem(s, k) == GetItem(storage, k))
      && (IsLoggedIn(s) <==> accessToken != "")
  {
  }

  /** `removeTokens` deletes exactly the three keys, so nobody is logged in
      afterwards, and clearing twice is the same as clearing once. */
  lemma ClearedEffect(storage: Storage)
    ensures var s := Cleared(storage);
      && GetItem(s, TOKEN_KEY).None? && GetItem(s, REFRESH_TOKEN_KEY).None? && GetItem(s, USER_KEY).None?
      && (forall k :: k != TOKEN_KEY && k != REFRESH_TOKEN_KEY && k != USER_KEY ==> GetItem(s, k) == GetItem(storage, k))
      && !IsLoggedIn(s)
      && Cleared(s) == s
  {
  }

  /** The refresh outcome: no stored refresh token fails and changes
      nothing; success is exactly a new pair from the server and saves it;
      every rejection leaves the client logged out with nothing stored. */
  lemma RefreshSpec(storage: Storage, post: string -> RefreshReply)
    ensures var (success, s) := Refresh(storage, post);
      && (!Truthy(GetItem(storage, REFRESH_TOKEN_KEY)) ==> !success && s == storage)
      && (success <==> Truthy(GetItem(storage, REFRESH_TOKEN_KEY)) && post(storage[REFRESH_TOKEN_KEY]).Refreshed?)
      && (success ==> var reply := post(storage[REFRESH_TOKEN_KEY]);
                      s == SavedTokens(storage, reply.accessToken, reply.refreshToken))
      && (!success && Truthy(GetItem(storage, REFRESH_TOKEN_KEY)) ==>
            s == Cleared(storage) && !IsLoggedIn(s) && GetItem(s, REFRESH_TOKEN_KEY).None?)
  {
    ClearedEffect(storage);
  }

  /** The request interceptor sends `Bearer <token>` exactly when a token is
      stored, and otherwise leaves the header as it was. */
  lemma AttachedHeaderSpec(storage: Storage, header: Option<string>)
    ensures IsLoggedIn(storage) ==> AttachedHeader(storage, header) == Some("Bearer " + storage[TOKEN_KEY])
    ensures !IsLoggedIn(storage) ==> AttachedHeader(storage, header) == header
  {
  }

  // ---------------------------------------------------------------------
  // The refresh as written: its POST goes through the same client, so a
  // 401 on it reaches the response interceptor again.

  /** Whether a chain of nested refreshes has produced a result. */
  datatype Outcome = Unsettled | Settled(success: bool, storage: Storage)

  /** `refreshAccessToken()` exactly as written. A 401 on the refresh POST
      is caught by the response interceptor, which sees a fresh request (no
      `_retry` mark) and calls `refreshAccessToken()` again with the same
      stored token; if that nested call succeeds the refresh POST is sent
      once more, and whatever the interceptor rejects lands in the outer
      `catch`, which clears the store. `depth` bounds how many nested
      refreshes are followed before giving up with Unsettled. */
  function RefreshAsWritten(storage: Storage, post: string -> RefreshReply, depth: nat): (r: Outcome)
    decreases depth
  {
    var refreshToken := GetItem(storage, REFRESH_TOKEN_KEY);
    if !Truthy(refreshToken) then Settled(false, storage)
    else if depth == 0 then Unsettled
    else match post(refreshToken.value)
      case Refreshed(accessToken, newRefreshToken) => Settled(true, SavedTokens(storage, accessToken, newRefreshToken))
      case Rejected(status) =>
        if status != UNAUTHORIZED then Settled(false, Cleared(storage))
        else match RefreshAsWritten(storage, post, depth - 1)
          case Unsettled => Unsettled
          case Settled(false, s) => Settled(false, Cleared(s))
          case Settled(true, s) =>
            match post(refreshToken.value)
            case Refreshed(accessToken, newRefreshToken) => Settled(true, SavedTokens(s, accessToken, newRefreshToken))
            case Rejected(_) => Settled(false, Cleared(s))
  }

  /** A stored refresh token that the server answers with 401 never settles:
      at every depth the refresh has only spawned another refresh, so the
      call never returns and the stale tokens are never cleared. */
  lemma {:induction false} RefreshAsWrittenNeverSettles(storage: Storage, post: string -> RefreshReply, depth: nat)
    requires Truthy(GetItem(storage, REFRESH_TOKEN_KEY))
    requires post(storage[REFRESH_TOKEN_KEY]) == Rejected(UNAUTHORIZED)
    ensures RefreshAsWritten(storage, post, depth) == Unsettled
    decreases depth
  {
    if depth > 0 {
      RefreshAsWrittenNeverSettles(storage, post, depth - 1);
    }
  }

  /** In that same situation the corrected refresh settles at once, clearing
      the store. */
  lemma CorrectedRefreshSettles(storage: Storage, post: string -> RefreshReply)
    requires Truthy(GetItem(storage, REFRESH_TOKEN_KEY))
    requires post(storage[REFRESH_TOKEN_KEY]) == Rejected(UNAUTHORIZED)
    ensures Refresh(storage, post) == (false, Cleared(storage))
    ensures !IsLoggedIn(Refresh(storage, post).1)
  {
    ClearedEffect(storage);
  }

  /** Whenever the server does not answer the refresh with 401 the two
      agree, at any depth of at least one. */
  lemma RefreshAsWrittenAgrees(storage: Storage, post: string -> RefreshReply, depth: nat)
    requires depth >= 1
    requires !Truthy(GetItem(storage, REFRESH_TOKEN_KEY)) || post(storage[REFRESH_TOKEN_KEY]) != Rejected(UNAUTHORIZED)
    ensures RefreshAsWritten(storage, post, depth) == Settled(Refresh(storage, post).0, Refresh(storage, post).1)
  {
  }

  // ---------------------------------------------------------------------
  // The store and the interceptors.

  /** An axios request config: the `_retry` mark and the header. */
  class Request {
    var retry: bool
    var authorization: Option<string>

    constructor (authorization: Option<string>)
      ensures !retry && this.authorization == authorization
    {
      retry := false;
      this.authorization := authorization;
    }
  }

  /** The module-level state of authService.js: localStorage. */
  class TokenStore {
    var storage: Storage

    constructor (storage: Storage)
      ensures this.storage == storage
    {
      this.storage := storage;
    }

    /** `saveTokens(accessToken, refreshToken)`. */
    method SaveTokens(accessToken: string, refreshToken: Option<string>)
      modifies this
      ensures storage == SavedTokens(old(storage), accessToken, refreshToken)
    {
      storage := storage[TOKEN_KEY := accessToken];
      if refreshToken.Some? && refreshToken.value != "" {
        storage := storage[REFRESH_TOKEN_KEY := refreshToken.value];
      }
    }

    /** `removeTokens()`: three `removeItem` calls. */
    method RemoveTokens()
      modifies this
      ensures storage == Cleared(old(storage))
    {
      storage := storage - {TOKEN_KEY};
      storage := storage - {REFRESH_TOKEN_KEY};
      storage := storage - {USER_KEY};
    }

    /** `logout()`. */
    method Logout()
      modifies this
      ensures storage == Cleared(old(storage))
      ensures !IsLoggedIn(storage)
    {
      RemoveTokens();
      ClearedEffect(old(storage));
    }

    /** `refreshAccessToken()`, with the refresh POST not routed back into
      the 401 interceptor. */
    method RefreshAccessToken(post: string -> RefreshReply) returns (success: bool)
      modifies this
      ensures (success, storage) == Refresh(old(storage), post)
    {
      var refreshToken := GetItem(storage, REFRESH_TOKEN_KEY);
      if refreshToken.None? || refreshToken.value == "" {
        return false;
      }
      var reply := post(refreshToken.value);
      if reply.Refreshed? {
        SaveTokens(reply.accessToken, reply.refreshToken);
        success := true;
      } else {
        RemoveTokens();
        success := false;
      }
    }

    /** The request interceptor. */
    method AttachToken(req: Request)
      modifies req
      ensures req.authorization == AttachedHeader(storage, old(req.authorization))
      ensures req.retry == old(req.retry)
    {
      var token := GetItem(storage, TOKEN_KEY);
      if token.Some? && token.value != "" {
        req.authorization := Some("Bearer " + token.value);
      }
    }

    /** Sends `req` through both interceptors. `respond` is the server's
      status for a request carrying the given header. On a 401 to a request
      not yet marked, the request is marked, a refresh is attempted, and on
      success the header is set to `Bearer <new token>` and the request goes
      through both interceptors once more; a marked request is never sent
      again. `attempts` counts the sends. */
    method Send(req: Request, respond: Option<string> -> int, post: string -> RefreshReply)
      returns (status: int, attempts: nat)
      modifies this, req
      decreases if req.retry then 0 else 1
      ensures 1 <= attempts <= 2
      ensures old(req.retry) ==> attempts == 1 && storage == old(storage)
      ensures attempts == 2 <==>
        && !old(req.retry)
        && respond(AttachedHeader(old(storage), old(req.authorization))) == UNAUTHORIZED
        && Refresh(old(storage), post).0
      ensures var first := respond(AttachedHeader(old(storage), old(req.authorization)));
        (old(req.retry) || first != UNAUTHORIZED) ==> storage == old(storage) && status == first
      ensures !old(req.retry) && respond(AttachedHeader(old(storage), old(req.authorization))) == UNAUTHORIZED ==>
        storage == Refresh(old(storage), post).1
      ensures attempts == 2 ==>
        var s := Refresh(old(storage), post).1;
        status == respond(AttachedHeader(s, Some(Bearer(s))))
      ensures attempts == 1 ==> status == respond(AttachedHeader(old(storage), old(req.authorization)))
      ensures status == UNAUTHORIZED ==> req.retry
      ensures req.retry == (old(req.retry) || respond(AttachedHeader(old(storage), old(req.authorization))) == UNAUTHORIZED)
      ensures attempts == 1 ==> req.authorization == AttachedHeader(old(storage), old(req.authorization))
      ensures attempts == 2 ==>
        var s := Refresh(old(storage), post).1;
        req.authorization == AttachedHeader(s, Some(Bearer(s)))
    {
      AttachToken(req);
      status := respond(req.authorization);
      attempts := 1;
      if status == UNAUTHORIZED && !req.retry {
        req.retry := true;
        var refreshed := RefreshAccessToken(post);
        if refreshed {
          req.authorization := Some(Bearer(storage));
          var s, n := Send(req, respond, post);
          status, attempts := s, n + 1;
        }
      }
    }
  }
}
