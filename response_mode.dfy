/** Which response mode a request gets (`resolve_response_mode`), after
    sections 2.1 and 5 of OAuth 2.0 Multiple Response Type Encoding
    Practices: a response carrying a token or an ID token defaults to the
    fragment and must never travel in the query. */
module ResponseModes {
  import opened Common
  import opened OAuth2Types

  /** True when the requested response types include an implicit part. */
  predicate Implicit(responseType: set<ResponseType>)
  {
    Token in responseType || IdToken in responseType
  }

  function ResolveResponseMode(responseType: set<ResponseType>, suggested: Option<ResponseMode>)
    : (r: Result<ResponseMode, Error>)
    // an error only for `query` asked for together with an implicit type
    ensures r.Err? <==> Implicit(responseType) && suggested == Some(Query)
    ensures r.Err? ==> r.error == InvalidResponseMode
    // the query is never used for tokens
    ensures r.Ok? && Implicit(responseType) ==> r.value != Query
    // a suggestion that is accepted is used as it is
    ensures r.Ok? && suggested.Some? ==> r.value == suggested.value
    // the defaults
    ensures suggested.None? ==> r == Ok(if Implicit(responseType) then Fragment else Query)
  {
    if Token in responseType || IdToken in responseType then
      match suggested
      case None => Ok(Fragment)
      case Some(Query) => Err(InvalidResponseMode)
      case Some(mode) => Ok(mode)
    else
      Ok(if suggested.Some? then suggested.value else Query)
  }
}
