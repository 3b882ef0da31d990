# Authorization endpoint of matrix-authentication-service, modelled in Dafny

This project models the OAuth 2.0 / OpenID Connect authorization endpoint of
matrix-authentication-service (`src/handlers/oauth2/authorization.rs`), and
proves properties of the model. The endpoint:

- finds the client and its redirect URI;
- chooses how the response travels (query, fragment or form post);
- records an OAuth2 session and, for the code flow, an authorization code,
  inside one database transaction;
- checks whether the end-user already has a login session that is fresh
  enough;
- then either sends the client its parameters or leaves the session waiting
  for a login.

Files and modules:

- `response_mode.dfy` (`ResponseModes`): `resolve_response_mode`. A response
  with a token or an ID token defaults to the fragment and may never use the
  query (sections 2.1 and 5 of OAuth 2.0 Multiple Response Type Encoding
  Practices).
- `redirect.dfy` (`Redirect`): `back_to_client`. The spec function
  `BackToClientReply` and the method `BackToClient` build the reply. The
  method updates its own copy of the URI, as the handler does with its
  `mut redirect_uri`.
- `form_urlencoded.dfy` (`FormUrlencoded`): the form-urlencoded text of a
  query or fragment. It also models decoding into a `HashMap<&str, &str>`
  and that map's entries.
- `base64url.dfy` (`Base64Url`): the unpadded URL-safe base64 of section 5
  of RFC 4648, used for the 32-character authorization code.
- `storage.dfy` (`Storage`): an in-memory stand-in for the database. `Store`
  is a class whose methods match the calls the handler makes: begin,
  `start_session`, `add_code`, `fetch_session`, commit, and the rollback
  that happens when a transaction is dropped.
- `authorization.dfy` (`Authorization`): the `get` handler as the method
  `Get`, plus its pieces: client lookup, redirect URI resolution, the scope
  join, the code text, the freshness test and the response parameters.
- `strings.dfy` (`Strings`) and `common.dfy` (`Common`): splitting and
  joining strings, and the `Option` and `Result` types.

Points where the model follows the code's own order and choices:

- The response mode is checked after the transaction is begun (line 175
  against line 184). A refused mode drops the open transaction, and nothing
  is recorded.
- The existing query or fragment pairs and the new parameters are both
  flattened into one serialisation (lines 56-63). A key present in both is
  written twice; the new value does not replace the old one.
  `Redirect.CollidingKeysAreBothSent` shows a case.
- The existing query is decoded into a map of borrowed `&str`. That decoder
  cannot return text that needed unescaping, so a query holding `+` or a
  `%XX` escape is refused (`FormUrlencoded.DecodeBorrowed`).
- If `back_to_client` fails on the fresh-login path, the transaction has
  already been committed (line 244). The session and code stay recorded,
  and the request still fails.
- An ID token asked for with a fresh login panics (line 241) after the code
  was added and before the commit. The transaction is dropped, so nothing is
  kept (`Outcome.Panicked`).

## Model

| member | source | states |
|---|---|---|
| `ResponseModes.ResolveResponseMode` | matrix-authentication-service/src/handlers/oauth2/authorization.rs:116-136 | It fails exactly when `query` is asked for together with `token` or `id_token`. It never yields `query` for those types. A suggestion it accepts is used unchanged. With no suggestion it gives `fragment` for those types and `query` otherwise. |
| `Redirect.BackToClient` | matrix-authentication-service/src/handlers/oauth2/authorization.rs:47-102 | Form post: the URI is left as it is and no `Location` is sent. Query (fragment) mode: a 303 whose URI differs only in its query (fragment). That component then holds exactly the entries of the old one plus the new parameters. It fails, with `MalformedRedirectTarget`, exactly when the existing component cannot be decoded. |
| `Redirect.MergeComponentContents` | matrix-authentication-service/src/handlers/oauth2/authorization.rs:66-89 | Merging into a query or fragment fails exactly when the existing text needs unescaping. Otherwise the new text decodes to the existing entries and the new parameters, and nothing else. |
| `Redirect.CollidingKeysAreBothSent` | matrix-authentication-service/src/handlers/oauth2/authorization.rs:56-74 | A client query `state=evil` merged with a new `state=xyz` decodes to both pairs: the new key does not win. |
| `FormUrlencoded.DecodeEncode` | matrix-authentication-service/src/handlers/oauth2/authorization.rs:67-74 | Decoding what the encoder wrote gives back the same pairs in the same order. |
| `FormUrlencoded.DecodeBorrowed` | matrix-authentication-service/src/handlers/oauth2/authorization.rs:67-70 | Decoding into borrowed strings succeeds exactly when no key or value needs unescaping. When it succeeds, it agrees with the full decoding. |
| `FormUrlencoded.CollapseIsMap` | matrix-authentication-service/src/handlers/oauth2/authorization.rs:57-59 | The entries taken from the decoded `HashMap` are exactly the map's entries: a later pair replaces an earlier one with the same key. Each key appears once. |
| `Base64Url.Encode` | matrix-authentication-service/src/handlers/oauth2/authorization.rs:202-204 | The unpadded encoding of n bytes has ceil(4n/3) characters, all from the URL-safe alphabet. |
| `Base64Url.DecodeEncode` | matrix-authentication-service/src/handlers/oauth2/authorization.rs:204 | Decoding the encoding gives back the bytes. |
| `Base64Url.EncodeInjective` | matrix-authentication-service/src/handlers/oauth2/authorization.rs:204 | Distinct byte strings have distinct encodings. |
| `Authorization.FindClient` | matrix-authentication-service/src/handlers/oauth2/authorization.rs:163-167 | It returns the first configured client whose id equals the requested one, and nothing exactly when no client has that id. |
| `Authorization.ResolveRedirectUri` | matrix-authentication-service/src/handlers/oauth2/authorization.rs:170-172 | The chosen URI is always a registered one. A requested URI is accepted exactly when it is registered. Without one, the client's only registered URI is used. |
| `Authorization.ScopeRoundTrip` | matrix-authentication-service/src/handlers/oauth2/authorization.rs:178-181 | The stored scope is the tokens joined by single spaces, in order: splitting it at spaces gives back any non-empty list of space-free tokens. |
| `Authorization.CodeText` | matrix-authentication-service/src/handlers/oauth2/authorization.rs:201-204 | The code for 24 random bytes is 32 URL-safe characters. |
| `Authorization.CodeTextInjective` | matrix-authentication-service/src/handlers/oauth2/authorization.rs:202-204 | Different random bytes give different codes. |
| `Authorization.FreshnessMonotone` | matrix-authentication-service/src/handlers/oauth2/authorization.rs:218-219 | A login fresh enough for one deadline is fresh enough for any earlier deadline. A missing or inactive login is never fresh. |
| `Authorization.ResponseCarries` | matrix-authentication-service/src/handlers/oauth2/authorization.rs:221-237 | The parameters sent back hold `state` exactly as requested. They hold `code` exactly when one was issued, and `access_token` exactly when `token` was asked for. Each key appears once. |
| `Authorization.Get` | matrix-authentication-service/src/handlers/oauth2/authorization.rs:155-260 | An unknown client or redirect URI is refused with no transaction begun. A refused response mode is refused with nothing recorded. Otherwise one session with the space-joined scope is recorded, plus a code exactly for the code flow. With an active login no older than the deadline, the client is sent its parameters after the commit, or the request panics (nothing kept) when an ID token was asked for. Without such a login, the session is committed and returned waiting. |
| `Authorization.CodeFlowRedirect` | matrix-authentication-service/src/handlers/oauth2/authorization.rs:221-247 | The reply that `Get`'s fresh-login branch builds for the code flow alone, in query mode, to a registered URI with no query or fragment: a 303 to that URI whose query decodes to exactly the 32-character code and the state. |
| `Storage.Store.Begin` | matrix-authentication-service/src/handlers/oauth2/authorization.rs:175 | It opens a transaction with nothing written yet. Committed data is unchanged. |
| `Storage.Store.StartSession` | matrix-authentication-service/src/handlers/oauth2/authorization.rs:187-199 | It records one session with the given fields and the next id, inside the transaction only. |
| `Storage.Store.AddCode` | matrix-authentication-service/src/handlers/oauth2/authorization.rs:206-209 | It records one code bound to a session of the transaction, inside the transaction only. |
| `Storage.Store.FetchSession` | matrix-authentication-service/src/handlers/oauth2/authorization.rs:217 | It returns a login session exactly when the OAuth2 session was started for a login key that the store knows, and then the login stored under that key; otherwise nothing. |
| `Storage.Store.Commit` | matrix-authentication-service/src/handlers/oauth2/authorization.rs:244 | The transaction's sessions and codes are appended to the committed ones. Every code still belongs to a committed session. |
| `Storage.Store.Rollback` | matrix-authentication-service/src/handlers/oauth2/authorization.rs:185 | A dropped transaction leaves the committed sessions and codes as they were. |

## Left out

- The routing filter (lines 138-153) and the request extractors: HTTP wiring.
- The database itself. `pool.begin`, `commit`, `start_session`, `add_code`
  and `fetch_session` are an in-memory store whose calls always succeed. A
  failing storage call, and the rollback it causes, are not modelled. The
  storage code is not part of this model.
- `max_auth_time` is computed in storage code that is not part of this
  model. `Get` takes the deadline as a parameter.
- The type of the request's scope is not part of this model; the model
  takes the scope tokens as a sequence in request order. If it is a set,
  the join at line 179 follows the set's iteration order and holds no
  duplicates, which the model does not capture.
- `rand::random` (line 203): the 24 random bytes are a parameter.
- `resolve_redirect_uri` belongs to the client configuration, which is not
  part of this model. `Authorization.ResolveRedirectUri` follows the
  documented rule: an exact match, or the single registered URI when none is
  requested.
- serde_urlencoded and `url`. `FormUrlencoded` stands in for them over
  characters rather than UTF-8 bytes. It escapes ASCII characters other than
  `A-Za-z0-9*-._` as `%XX`, writes a space as `+`, and keeps non-ASCII
  characters as they are. The URL library's own escaping in
  `set_query`/`set_fragment` is not modelled.
- The order in which a `HashMap` yields its entries is unspecified.
  `Collapse` fixes one order, and the contracts only speak of membership.
- `HeaderValue::from_str` (line 100) is not modelled: it cannot fail on a
  serialised URL. A failing `serde_urlencoded::to_string` is not modelled
  either: it cannot fail on string pairs.
- Rendering the form-post page (lines 91-93) and the JSON of the waiting
  response (lines 255-259). The model returns the URI and fields, and the
  session, code and URI, instead. A template rendering error is not
  modelled.
- The placeholder access token (line 235) is an opaque parameter. The other
  fields of the flattened access-token response are not modelled, and
  neither is the order of the serialised response fields.
- Authorization.Get: the ID-token `todo!` is modelled as an outcome that
  keeps nothing, not as an unwinding panic.
- Concurrency between requests: one request runs against the store at a
  time.
