/** The authorization endpoint (`get`): find the client, settle the redirect
    URI and the response mode, record the session and, for the code flow, a
    code, then either send the client its parameters or leave the session
    waiting for the user to log in. */
module Authorization {
  import opened Common
  import opened Strings
  import opened OAuth2Types
  import opened FormUrlencoded
  import Base64Url
  import opened ResponseModes
  import opened Redirect
  import opened Storage

  // ---------------------------------------------------------------------
  // Client and redirect URI

  /** The position of the first configured client with the given id. */
  function FindClient(clients: seq<ClientConfig>, clientId: string): (r: Option<nat>)
    ensures r.Some? ==> r.value < |clients| && clients[r.value].clientId == clientId
    ensures r.Some? ==> forall j :: 0 <= j < r.value ==> clients[j].clientId != clientId
    ensures r.None? ==> forall j :: 0 <= j < |clients| ==> clients[j].clientId != clientId
    decreases |clients|
  {
    if |clients| == 0 then None
    else if clients[0].clientId == clientId then Some(0)
    else
      match FindClient(clients[1..], clientId)
      case None => None
      case Some(i) => Some(i + 1)
  }

  /** The client's `resolve_redirect_uri`: a requested URI must be one the
      client registered; without one, the client's only registered URI is
      used. */
  function ResolveRedirectUri(client: ClientConfig, requested: Option<Uri>): (r: Result<Uri, Error>)
    ensures r.Ok? ==> r.value in client.redirectUris
    ensures r.Ok? && requested.Some? ==> r.value == requested.value
    ensures requested.Some? ==> (r.Ok? <==> requested.value in client.redirectUris)
    ensures requested.None? ==> (r.Ok? <==> |client.redirectUris| == 1)
    ensures r.Err? ==> r.error == InvalidRedirectUri
  {
    match requested
    case Some(uri) => if uri in client.redirectUris then Ok(uri) else Err(InvalidRedirectUri)
    case None => if |client.redirectUris| == 1 then Ok(client.redirectUris[0]) else Err(InvalidRedirectUri)
  }

  /** The client and the redirect URI a request is answered with, both
      settled before any transaction. */
  function Target(clients: seq<ClientConfig>, req: AuthorizationRequest): Result<(ClientConfig, Uri), Error>
  {
    match FindClient(clients, req.clientId)
    case None => Err(UnknownClient)
    case Some(i) =>
      match ResolveRedirectUri(clients[i], req.redirectUri)
      case Err(e) => Err(e)
      case Ok(uri) => Ok((clients[i], uri))
  }

  // ---------------------------------------------------------------------
  // Scope, code, freshness, response

  /** The stored scope: the request's tokens joined by single spaces. */
  function JoinScope(tokens: seq<string>): (scope: string)
    ensures |tokens| == 0 ==> scope == ""
  {
    Join(tokens, ' ')
  }

  /** The stored scope gives back the requested tokens, in order, when
      there is at least one and none holds a space. */
  lemma ScopeRoundTrip(tokens: seq<string>)
    requires |tokens| > 0
    requires forall i :: 0 <= i < |tokens| ==> Free(tokens[i], ' ')
    ensures Split(JoinScope(tokens), ' ') == tokens
  {
    SplitJoin(tokens, ' ');
  }

  /** The code issued for 24 random bytes: unpadded base64url. */
  function CodeText(randomBytes: seq<Base64Url.byte>): (code: string)
    requires |randomBytes| == 24
    ensures |code| == 32
    ensures forall i :: 0 <= i < |code| ==> Base64Url.UrlSafe(code[i])
  {
    Base64Url.Encode(randomBytes)
  }

  /** Distinct random bytes give distinct codes. */
  lemma CodeTextInjective(a: seq<Base64Url.byte>, b: seq<Base64Url.byte>)
    requires |a| == 24 && |b| == 24 && a != b
    ensures CodeText(a) != CodeText(b)
  {
    if CodeText(a) == CodeText(b) {
      Base64Url.EncodeInjective(a, b);
    }
  }

  /** Whether the user may skip logging in: a login session exists, is
      active, and its last authentication is no earlier than the deadline
      (the `max_age` check of section 3.1.2.1 of OpenID Connect Core 1.0). */
  predicate IsFresh(user: Option<UserSession>, maxAuthTime: int)
  {
    user.Some? && user.value.active && user.value.lastAuthdAt >= maxAuthTime
  }

  /** A login fresh enough for a deadline is fresh enough for any earlier
      one; no login, or an inactive one, is never fresh. */
  lemma FreshnessMonotone(user: Option<UserSession>, deadline: int, earlier: int)
    requires earlier <= deadline
    ensures IsFresh(user, deadline) ==> IsFresh(user, earlier)
    ensures user.None? || !user.value.active ==> !IsFresh(user, earlier)
  {
  }

  /** The response parameters on completion: the state echoed, the code if
      one was issued, an access token if one was asked for. */
  function ResponseParams(state: Option<string>, code: Option<AuthorizationCode>,
                          responseType: set<ResponseType>, accessToken: string): AuthorizationResponse
  {
    AuthorizationResponse(
      if code.Some? then Some(code.value.code) else None,
      state,
      if Token in responseType then Some(accessToken) else None)
  }

  /** The response written as pairs; absent fields are skipped. */
  function ResponsePairs(resp: AuthorizationResponse): seq<Pair>
  {
    (if resp.code.Some? then [("code", resp.code.value)] else []) +
    (if resp.state.Some? then [("state", resp.state.value)] else []) +
    (if resp.accessToken.Some? then [("access_token", resp.accessToken.value)] else [])
  }

  /** What the client receives: `state` exactly as sent, `code` exactly
      when one was issued, `access_token` exactly when a token was asked
      for, each key once. */
  lemma ResponseCarries(state: Option<string>, code: Option<AuthorizationCode>,
                        responseType: set<ResponseType>, accessToken: string)
    ensures var ps := ResponsePairs(ResponseParams(state, code, responseType, accessToken));
      && (forall v :: ("state", v) in ps <==> state == Some(v))
      && (forall v :: ("code", v) in ps <==> code.Some? && code.value.code == v)
      && (forall v :: ("access_token", v) in ps <==> Token in responseType && v == accessToken)
      && (forall i, j :: 0 <= i < j < |ps| ==> ps[i].0 != ps[j].0)
  {
  }

  // ---------------------------------------------------------------------
  // The endpoint

  datatype Outcome =
    | Rejected(error: Error)
    /** The client is sent its parameters. */
    | Replied(reply: Reply)
    /** The user must log in first: the pending session, its code and the
        redirect URI are returned as they are. */
    | Awaiting(session: OAuth2Session, code: Option<AuthorizationCode>, redirectUri: Uri)
    /** ID tokens are not implemented: the request panics. */
    | Panicked

  function ReplyOutcome(r: Result<Reply, Error>): Outcome
  {
    match r
    case Ok(reply) => Replied(reply)
    case Err(e) => Rejected(e)
  }

  /** The session `start_session` records for a request. */
  function SessionFor(id: nat, userSessionId: Option<nat>, client: ClientConfig,
                      req: AuthorizationRequest, mode: ResponseMode): OAuth2Session
  {
    OAuth2Session(id, userSessionId, client.clientId, JoinScope(req.scope), req.state, req.nonce,
                  req.maxAge, req.responseType, mode)
  }

  /** Handles one authorization request. The random bytes of the code, the
      session's authentication deadline and the access token are given. */
  method Get(store: Store, clients: seq<ClientConfig>, req: AuthorizationRequest, pkce: Option<PkceRequest>,
             userSessionId: Option<nat>, randomBytes: seq<Base64Url.byte>, maxAuthTime: int,
             accessToken: string)
    returns (out: Outcome)
    requires store.Valid() && !store.inTxn
    requires |randomBytes| == 24
    modifies store
    ensures store.Valid() && !store.inTxn
    // an unknown client or redirect URI: refused before any transaction
    ensures Target(clients, req).Err? ==>
      && out == Rejected(Target(clients, req).error)
      && store.begun == old(store.begun)
      && store.sessions == old(store.sessions) && store.codes == old(store.codes)
      && store.commits == old(store.commits)
    // a response mode not allowed: refused before any session is recorded
    ensures Target(clients, req).Ok? && ResolveResponseMode(req.responseType, req.responseMode).Err? ==>
      && out == Rejected(InvalidResponseMode)
      && store.begun == old(store.begun) + 1
      && store.sessions == old(store.sessions) && store.codes == old(store.codes)
      && store.commits == old(store.commits)
    ensures Target(clients, req).Ok? && ResolveResponseMode(req.responseType, req.responseMode).Ok? ==>
      var client, uri := Target(clients, req).value.0, Target(clients, req).value.1;
      var mode := ResolveResponseMode(req.responseType, req.responseMode).value;
      var s := SessionFor(|old(store.sessions)|, userSessionId, client, req, mode);
      var code := if Code in req.responseType
                  then Some(AuthorizationCode(s.id, CodeText(randomBytes), pkce)) else None;
      var loggedIn := IsFresh(store.LinkedUserSession(userSessionId), maxAuthTime);
      && store.begun == old(store.begun) + 1
      // a fresh login with an ID token asked for: panic, nothing kept
      && (loggedIn && IdToken in req.responseType ==>
            && out == Panicked
            && store.sessions == old(store.sessions) && store.codes == old(store.codes)
            && store.commits == old(store.commits))
      // otherwise the session, and a code exactly for the code flow, are committed
      && (!(loggedIn && IdToken in req.responseType) ==>
            && store.sessions == old(store.sessions) + [s]
            && store.codes == old(store.codes) + (if code.Some? then [code.value] else [])
            && store.commits == old(store.commits) + 1)
      // a fresh login: the client is sent its parameters
      && (loggedIn && IdToken !in req.responseType ==>
            out == ReplyOutcome(BackToClientReply(uri, mode,
                     ResponsePairs(ResponseParams(s.state, code, req.responseType, accessToken)))))
      // no fresh login: the session waits for one
      && (!loggedIn ==> out == Awaiting(s, code, uri))
  {
    var found := FindClient(clients, req.clientId);
    if found.None? {
      return Rejected(UnknownClient);
    }
    var client := clients[found.value];
    var resolved := ResolveRedirectUri(client, req.redirectUri);
    if resolved.Err? {
      return Rejected(resolved.error);
    }
    var redirectUri := resolved.value;

    store.Begin();
    var scope := JoinScope(req.scope);
    var responseType := req.responseType;
    var resolvedMode := ResolveResponseMode(responseType, req.responseMode);
    if resolvedMode.Err? {
      store.Rollback();
      return Rejected(resolvedMode.error);
    }
    var mode := resolvedMode.value;

    var session := store.StartSession(userSessionId, client.clientId, scope, req.state, req.nonce,
                                      req.maxAge, responseType, mode);
    var code: Option<AuthorizationCode> := None;
    if Code in responseType {
      var issued := store.AddCode(session, CodeText(randomBytes), pkce);
      code := Some(issued);
    }

    var user := store.FetchSession(session);
    if user.Some? && user.value.active && user.value.lastAuthdAt >= maxAuthTime {
      var params := AuthorizationResponse(None, session.state, None);
      if code.Some? {
        params := params.(code := Some(code.value.code));
      }
      if Token in responseType {
        params := params.(accessToken := Some(accessToken));
      }
      if IdToken in responseType {
        store.Rollback();
        return Panicked;
      }
      store.Commit();
      var reply := BackToClient(redirectUri, mode, ResponsePairs(params));
      return ReplyOutcome(reply);
    }

    store.Commit();
    out := Awaiting(session, code, redirectUri);
  }

  /** The reply Get's fresh-login branch builds (its call to BackToClient
      on ResponsePairs(params)) for the code flow alone, in query mode, to a
      registered URI with no query or fragment: a 303 to that URI whose
      query is exactly the 32-character code and the state. */
  lemma CodeFlowRedirect(base: string, state: string, randomBytes: seq<Base64Url.byte>,
                         sessionId: nat, pkce: Option<PkceRequest>, accessToken: string)
    requires |randomBytes| == 24
    ensures var code := AuthorizationCode(sessionId, CodeText(randomBytes), pkce);
      var params := ResponsePairs(ResponseParams(Some(state), Some(code), {Code}, accessToken));
      var r := BackToClientReply(Uri(base, None, None), Query, params);
      && r.Ok? && r.value.SeeOther?
      && r.value.location.base == base && r.value.location.fragment == None
      && r.value.location.query.Some?
      && Decode(r.value.location.query.value) == [("code", code.code), ("state", state)]
      && |code.code| == 32
  {
    var code := AuthorizationCode(sessionId, CodeText(randomBytes), pkce);
    var params := ResponsePairs(ResponseParams(Some(state), Some(code), {Code}, accessToken));
    assert params == [("code", code.code), ("state", state)];
    DecodeEncode(params);
  }
}
