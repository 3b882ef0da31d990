/** Sending the response parameters back to the client (`back_to_client`):
    in the query or the fragment of its redirect URI, next to the
    parameters already there, or through a form post. */
module Redirect {
  import opened Common
  import opened OAuth2Types
  import opened FormUrlencoded
  import opened Strings

  /** What the handler answers: a 303 See Other whose `Location` is the
      given URI, or an HTML page (`text/html`) that posts the fields to the
      given URI. */
  datatype Reply = SeeOther(location: Uri) | FormPostPage(action: Uri, fields: seq<Pair>)

  /** True when the existing component, read as a map of keys to values,
      holds the entry `p`. */
  predicate Carries(component: Option<string>, p: Pair)
  {
    component.Some? && p.0 in ToMap(Decode(component.value)) && ToMap(Decode(component.value))[p.0] == p.1
  }

  /** The new text of a query or fragment: the existing entries, if the
      component was there, then the new parameters, both written out as they
      come (a key present in both is written twice). The existing text must
      be readable without unescaping. */
  function MergeComponent(component: Option<string>, params: seq<Pair>): Result<string, Error>
  {
    match component
    case None => Ok(Encode(params))
    case Some(text) =>
      match DecodeBorrowed(text)
      case None => Err(MalformedRedirectTarget)
      case Some(existing) => Ok(Encode(Collapse(existing) + params))
  }

  /** The reply `back_to_client` builds. */
  function BackToClientReply(redirectUri: Uri, mode: ResponseMode, params: seq<Pair>): Result<Reply, Error>
  {
    match mode
    case Query =>
      (match MergeComponent(redirectUri.query, params)
       case Err(e) => Err(e)
       case Ok(text) => Ok(SeeOther(redirectUri.(query := Some(text)))))
    case Fragment =>
      (match MergeComponent(redirectUri.fragment, params)
       case Err(e) => Err(e)
       case Ok(text) => Ok(SeeOther(redirectUri.(fragment := Some(text)))))
    case FormPost => Ok(FormPostPage(redirectUri, params))
  }

  /** Merging fails exactly when the existing component needs unescaping;
      otherwise the new text holds every entry of the existing component and
      every new parameter, and nothing else. */
  lemma MergeComponentContents(component: Option<string>, params: seq<Pair>)
    ensures MergeComponent(component, params).Err? <==>
      component.Some? && DecodeBorrowed(component.value).None?
    ensures MergeComponent(component, params).Ok? ==>
      forall p :: p in Decode(MergeComponent(component, params).value) <==>
        Carries(component, p) || p in params
  {
    match component
    case None =>
      DecodeEncode(params);
    case Some(text) =>
      match DecodeBorrowed(text)
      case None =>
      case Some(existing) =>
        var merged := Collapse(existing) + params;
        DecodeEncode(merged);
        CollapseIsMap(existing);
        assert existing == Decode(text);
        forall p ensures p in merged <==> p in Collapse(existing) || p in params {
        }
  }

  method BackToClient(redirectUri: Uri, mode: ResponseMode, params: seq<Pair>) returns (r: Result<Reply, Error>)
    ensures r == BackToClientReply(redirectUri, mode, params)
    // form post: the URI is left as it is and no Location is sent
    ensures mode == FormPost ==> r == Ok(FormPostPage(redirectUri, params))
    // an existing component that cannot be read is an error, and the only one
    ensures r.Err? <==>
      (mode == Query && redirectUri.query.Some? && DecodeBorrowed(redirectUri.query.value).None?) ||
      (mode == Fragment && redirectUri.fragment.Some? && DecodeBorrowed(redirectUri.fragment.value).None?)
    ensures r.Err? ==> r.error == MalformedRedirectTarget
    // query: only the query changes, and it holds the old entries and the new parameters
    ensures mode == Query && r.Ok? ==>
      && r.value.SeeOther?
      && r.value.location.base == redirectUri.base
      && r.value.location.fragment == redirectUri.fragment
      && r.value.location.query.Some?
      && forall p :: p in Decode(r.value.location.query.value) <==> Carries(redirectUri.query, p) || p in params
    // fragment: only the fragment changes, likewise
    ensures mode == Fragment && r.Ok? ==>
      && r.value.SeeOther?
      && r.value.location.base == redirectUri.base
      && r.value.location.query == redirectUri.query
      && r.value.location.fragment.Some?
      && forall p :: p in Decode(r.value.location.fragment.value) <==> Carries(redirectUri.fragment, p) || p in params
  {
    var uri := redirectUri;
    match mode {
      case Query =>
        MergeComponentContents(uri.query, params);
        var existing: Option<seq<Pair>> := None;
        if uri.query.Some? {
          existing := DecodeBorrowed(uri.query.value);
          if existing.None? {
            return Err(MalformedRedirectTarget);
          }
        }
        var merged := if existing.Some? then Collapse(existing.value) + params else params;
        uri := uri.(query := Some(Encode(merged)));
      case Fragment =>
        MergeComponentContents(uri.fragment, params);
        var existing: Option<seq<Pair>> := None;
        if uri.fragment.Some? {
          existing := DecodeBorrowed(uri.fragment.value);
          if existing.None? {
            return Err(MalformedRedirectTarget);
          }
        }
        var merged := if existing.Some? then Collapse(existing.value) + params else params;
        uri := uri.(fragment := Some(Encode(merged)));
      case FormPost =>
        return Ok(FormPostPage(uri, params));
    }
    r := Ok(SeeOther(uri));
  }

  /** A parameter already in the client's query is not replaced by a new
      one with the same key: both are sent. */
  lemma CollidingKeysAreBothSent()
    ensures var uri := Uri("https://rp.example/cb", Some("state=evil"), None);
      var r := BackToClientReply(uri, Query, [("state", "xyz")]);
      && r.Ok? && r.value.SeeOther?
      && r.value.location.query.Some?
      && Decode(r.value.location.query.value) == [("state", "evil"), ("state", "xyz")]
  {
    ReadStateEvil();
    assert Collapse([("state", "evil")]) == [("state", "evil")];
    var merged := [("state", "evil"), ("state", "xyz")];
    assert [("state", "evil")] + [("state", "xyz")] == merged;
    assert MergeComponent(Some("state=evil"), [("state", "xyz")]) == Ok(Encode(merged));
    DecodeEncode(merged);
  }

  lemma ReadStateEvil()
    ensures DecodeBorrowed("state=evil") == Some([("state", "evil")])
  {
    var text := "state=evil";
    PlainText("state");
    PlainText("evil");
    assert "state" + ['='] + "evil" == text;
    assert Free(text, '&');
    SplitFree(text, '&');
    SplitOnceAt("state", '=', "evil");
    assert RawPairs(text) == [("state", "evil")];
    assert Decode(text) == [("state", "evil")];
  }
}
