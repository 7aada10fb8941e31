/** The protocol's session slot is what the handlers' cookies leave in a browser's jar. */
module BrowserJar {
  import opened Wrappers
  import opened Session
  import opened Http
  import opened Gateway
  import opened Oidc
  import LoginFlow
  import Protocol

  /** What the session cookie of a jar is to the gateway. */
  function PresentedBy(jar: Jar, now: Time): Presented {
    match CookieOf(jar, SESSION_COOKIE, now)
    case None => Absent
    case Some(Text(_)) => Unreadable
    case Some(Token(data)) => Sealed(data)
  }

  lemma VerdictOfJar(cfg: Config, jar: Jar, s: Protocol.State)
    requires Slot(jar, s.jar)
    ensures Validate(cfg, PresentedBy(jar, s.now), s.now) == Protocol.Verdict(cfg, s)
  {
  }

  /** A request's response does to the jar what the protocol's step does to the slot. */
  lemma RequestStep(cfg: Config, jar: Jar, s: Protocol.State)
    requires Slot(jar, s.jar)
    ensures Slot(ReceiveAll(jar, AuthCookies(cfg, PresentedBy(jar, s.now), s.now), s.now), Protocol.AfterRequest(cfg, s).jar)
  {
    VerdictOfJar(cfg, jar, s);
    match Protocol.Verdict(cfg, s) {
      case Ok(data) =>
        var touched := Touch(cfg, data, s.now);
        LoginFlow.ReceiveOne(jar, SessionCookie(cfg, touched, s.now), s.now);
        SessionCookieKept(cfg, jar, touched, s.now);
      case Err(_) =>
        LoginFlow.ReceiveOne(jar, ClearedSessionCookie(), s.now);
    }
  }

  /** Signing out does, too. */
  lemma SignOutStep(settings: Settings, jar: Jar, s: Protocol.State)
    ensures Slot(ReceiveAll(jar, [ClearedSessionCookie()], s.now), Protocol.Step(settings, s, Protocol.SignOut).jar)
  {
    LoginFlow.ReceiveOne(jar, ClearedSessionCookie(), s.now);
  }

  /** An accepted callback leaves the session of the claimed email and its token, a refused one the session that was there. */
  lemma SignInStep(settings: Settings, jar: Jar, s: Protocol.State, query: Query, answer: Answer)
    requires Slot(jar, s.jar)
    ensures var verdict := CallbackVerdict(settings, jar, query, answer, s.now);
            var after := ReceiveAll(jar, CallbackCookies(settings, verdict, s.now), s.now);
            match verdict
            case Ok(_) =>
              && answer.IdToken? && answer.claims.Some?
              && Slot(after, Protocol.AfterSignIn(settings, s, answer.claims.value, answer.raw).jar)
              && (settings.session.Valid() && s.now > ZERO_TIME ==>
                    && SESSION_COOKIE in after && after[SESSION_COOKIE].value.Token?
                    && after[SESSION_COOKIE].value.session
                       == SessionData(answer.claims.value.email, s.now, s.now + settings.session.absoluteTtl, s.now, answer.raw))
            case Err(_) => Slot(after, s.jar)
  {
    hide ClearedFlowCookies, ReceiveAll, SecondsUntil;
    var verdict := CallbackVerdict(settings, jar, query, answer, s.now);
    var cleared := ReceiveAll(jar, ClearedFlowCookies(), s.now);
    ClearingKeepsSession(jar, s.now);
    match verdict {
      case Err(_) => assert CallbackCookies(settings, verdict, s.now) == ClearedFlowCookies();
      case Ok(grant) =>
        var data := NewSession(settings.session, grant.email, grant.idToken, s.now);
        VerdictIsFirstReason(settings, jar, query, answer, s.now);
        assert ClaimsDenial(settings, answer.claims.value, s.now) == None;
        LoginFlow.ReceiveAllSplit(jar, ClearedFlowCookies(), [SessionCookie(settings.session, data, s.now)], s.now);
        LoginFlow.ReceiveOne(cleared, SessionCookie(settings.session, data, s.now), s.now);
        SessionCookieKept(settings.session, cleared, data, s.now);
        if settings.session.Valid() {
          BrowserDropsAtDeadline(settings.session, data, s.now);
        }
    }
  }

  lemma ClearingKeepsSession(jar: Jar, now: Time)
    ensures var cleared := ReceiveAll(jar, ClearedFlowCookies(), now);
            && (SESSION_COOKIE in cleared <==> SESSION_COOKIE in jar)
            && (SESSION_COOKIE in jar ==> cleared[SESSION_COOKIE] == jar[SESSION_COOKIE])
  {
    var trio := [ClearedFlowCookie(STATE), ClearedFlowCookie(NONCE), ClearedFlowCookie(PKCE)];
    assert ClearedFlowCookies() == trio + [ClearedFlowCookie(NEXT)];
    LoginFlow.ReceiveAllSplit(jar, trio, [ClearedFlowCookie(NEXT)], now);
    LoginFlow.ReceiveThree(jar, trio[0], trio[1], trio[2], now);
    LoginFlow.ReceiveOne(ReceiveAll(jar, trio, now), ClearedFlowCookie(NEXT), now);
  }
}
