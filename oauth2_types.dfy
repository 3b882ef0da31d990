/** The records the authorization endpoint reads and writes: the request,
    the configured clients, the sessions and codes it stores, and the
    response parameters it sends back. */
module OAuth2Types {
  import opened Common

  datatype ResponseType = Code | Token | IdToken

  datatype ResponseMode = Query | Fragment | FormPost

  /** A URL, as far as the handler looks into it: everything before the
      query, the query and the fragment (each absent or present, possibly
      empty). */
  datatype Uri = Uri(base: string, query: Option<string>, fragment: Option<string>)

  datatype PkceRequest = PkceRequest(codeChallenge: string, codeChallengeMethod: string)

  /** The query parameters of a request to the authorization endpoint. */
  datatype AuthorizationRequest = AuthorizationRequest(
    clientId: string,
    redirectUri: Option<Uri>,
    responseType: set<ResponseType>,
    responseMode: Option<ResponseMode>,
    scope: seq<string>,
    state: Option<string>,
    nonce: Option<string>,
    maxAge: Option<int>)

  /** A client from the static configuration. */
  datatype ClientConfig = ClientConfig(clientId: string, redirectUris: seq<Uri>)

  /** The end-user's login session, looked up through the OAuth2 session;
      timestamps are plain integers. */
  datatype UserSession = UserSession(active: bool, lastAuthdAt: int)

  /** One authorization transaction, as `start_session` records it. */
  datatype OAuth2Session = OAuth2Session(
    id: nat,
    userSessionId: Option<nat>,
    clientId: string,
    scope: string,
    state: Option<string>,
    nonce: Option<string>,
    maxAge: Option<int>,
    responseType: set<ResponseType>,
    responseMode: ResponseMode)

  /** An authorization code, as `add_code` records it. */
  datatype AuthorizationCode = AuthorizationCode(sessionId: nat, code: string, pkce: Option<PkceRequest>)

  /** The parameters sent back to the client on completion; the access token
      stands for the whole flattened access-token response. */
  datatype AuthorizationResponse = AuthorizationResponse(
    code: Option<string>,
    state: Option<string>,
    accessToken: Option<string>)

  datatype Error =
    | UnknownClient
    | InvalidRedirectUri
    | InvalidResponseMode
    | MalformedRedirectTarget
}
