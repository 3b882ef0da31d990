/** An in-memory stand-in for the database the handler writes through one
    transaction: what `start_session` and `add_code` record, what
    `fetch_session` reads, and what `commit` makes durable. A transaction
    that is dropped without a commit is rolled back. */
module Storage {
  import opened Common
  import opened OAuth2Types

  class Store {
    /** Committed OAuth2 sessions; a session's id is its position. */
    var sessions: seq<OAuth2Session>
    /** Committed authorization codes. */
    var codes: seq<AuthorizationCode>
    /** End-user login sessions by key; the authorization endpoint only reads them. */
    const userSessions: map<nat, UserSession>

    /** The open transaction, if any, and what it has written so far. */
    var inTxn: bool
    var txnSessions: seq<OAuth2Session>
    var txnCodes: seq<AuthorizationCode>

    /** How many transactions were begun and how many committed. */
    var begun: nat
    var commits: nat

    /** Ids follow positions, pending writes exist only inside a transaction,
        and every code belongs to a session visible beside it. */
    ghost predicate Valid()
      reads this
    {
      && (!inTxn ==> txnSessions == [] && txnCodes == [])
      && (forall i :: 0 <= i < |sessions| ==> sessions[i].id == i)
      && (forall i :: 0 <= i < |txnSessions| ==> txnSessions[i].id == |sessions| + i)
      && (forall c :: c in codes ==> c.sessionId < |sessions|)
      && (forall c :: c in txnCodes ==> c.sessionId < |sessions| + |txnSessions|)
    }

    constructor (userSessions: map<nat, UserSession>)
      ensures Valid() && !inTxn
      ensures this.userSessions == userSessions
      ensures sessions == [] && codes == [] && begun == 0 && commits == 0
    {
      this.userSessions := userSessions;
      sessions, codes := [], [];
      inTxn, txnSessions, txnCodes := false, [], [];
      begun, commits := 0, 0;
    }

    /** `pool.begin()`. */
    method Begin()
      requires Valid() && !inTxn
      modifies this
      ensures Valid() && inTxn
      ensures txnSessions == [] && txnCodes == []
      ensures begun == old(begun) + 1
      ensures sessions == old(sessions) && codes == old(codes) && commits == old(commits)
    {
      inTxn := true;
      begun := begun + 1;
    }

    /** `start_session`: records a new OAuth2 session in the transaction. */
    method StartSession(
      userSessionId: Option<nat>, clientId: string, scope: string, state: Option<string>,
      nonce: Option<string>, maxAge: Option<int>, responseType: set<ResponseType>, responseMode: ResponseMode)
      returns (s: OAuth2Session)
      requires Valid() && inTxn
      modifies this
      ensures Valid() && inTxn
      ensures s == OAuth2Session(|sessions| + |old(txnSessions)|, userSessionId, clientId, scope, state,
                                 nonce, maxAge, responseType, responseMode)
      ensures txnSessions == old(txnSessions) + [s] && txnCodes == old(txnCodes)
      ensures sessions == old(sessions) && codes == old(codes)
      ensures begun == old(begun) && commits == old(commits)
    {
      s := OAuth2Session(|sessions| + |txnSessions|, userSessionId, clientId, scope, state,
                         nonce, maxAge, responseType, responseMode);
      txnSessions := txnSessions + [s];
    }

    /** `add_code`: records a code for a session of this transaction. */
    method AddCode(session: OAuth2Session, code: string, pkce: Option<PkceRequest>)
      returns (c: AuthorizationCode)
      requires Valid() && inTxn
      requires session in txnSessions
      modifies this
      ensures Valid() && inTxn
      ensures c == AuthorizationCode(session.id, code, pkce)
      ensures txnCodes == old(txnCodes) + [c] && txnSessions == old(txnSessions)
      ensures sessions == old(sessions) && codes == old(codes)
      ensures begun == old(begun) && commits == old(commits)
    {
      c := AuthorizationCode(session.id, code, pkce);
      txnCodes := txnCodes + [c];
    }

    /** The login session a session was started for, if there is one. */
    function LinkedUserSession(userSessionId: Option<nat>): Option<UserSession>
      reads this
    {
      if userSessionId.Some? && userSessionId.value in userSessions
      then Some(userSessions[userSessionId.value])
      else None
    }

    /** `fetch_session`: reads the login session of an OAuth2 session. */
    method FetchSession(session: OAuth2Session) returns (u: Option<UserSession>)
      ensures u.Some? <==> session.userSessionId.Some? && session.userSessionId.value in userSessions
      ensures u.Some? ==> u.value == userSessions[session.userSessionId.value]
    {
      u := LinkedUserSession(session.userSessionId);
    }

    /** `commit`: the transaction's writes become durable. */
    method Commit()
      requires Valid() && inTxn
      modifies this
      ensures Valid() && !inTxn
      ensures sessions == old(sessions) + old(txnSessions)
      ensures codes == old(codes) + old(txnCodes)
      ensures begun == old(begun) && commits == old(commits) + 1
    {
      sessions := sessions + txnSessions;
      codes := codes + txnCodes;
      txnSessions, txnCodes := [], [];
      inTxn := false;
      commits := commits + 1;
    }

    /** The transaction is dropped: nothing it wrote remains. */
    method Rollback()
      requires Valid() && inTxn
      modifies this
      ensures Valid() && !inTxn
      ensures sessions == old(sessions) && codes == old(codes)
      ensures begun == old(begun) && commits == old(commits)
    {
      txnSessions, txnCodes := [], [];
      inTxn := false;
    }
  }
}
