/** The authentication middleware (internal/auth/middleware.go). */
module Gateway {
  import opened Wrappers
  import opened Session
  import opened Http

  const SESSION_COOKIE := "atrium_session"
  const LOGGED_OUT_PATH := "/auth/logged-out"
  const LOGIN_PATH := "/auth/login"

  /** The session cookie for data; Max-Age tracks the session deadline. */
  function SessionCookie(cfg: Config, data: SessionData, now: Time): SetCookie {
    SetCookie(SESSION_COOKIE, Token(data), SecondsUntil(SessionDeadline(cfg, data), now))
  }

  function ClearedSessionCookie(): SetCookie {
    SetCookie(SESSION_COOKIE, Text(""), -1)
  }

  /** The seconds a response advertises for the session it leaves behind. */
  function Advertised(cfg: Config, session: SessionData, now: Time): int {
    SecondsUntil(SessionDeadline(cfg, session), now)
  }

  /** Counts the request as activity: a throttled re-issue, and the deadline derived from what is stored. */
  method TouchSession(cfg: Config, w: ResponseWriter, presented: SessionData, now: Time) returns (session: SessionData)
    requires w.status == None
    modifies w`cookies, w`expiresIn
    ensures session == Touch(cfg, presented, now)
    ensures w.cookies == if Refreshes(cfg, presented, now) then old(w.cookies) + [SessionCookie(cfg, session, now)]
                         else old(w.cookies)
    ensures w.expiresIn == Some(Advertised(cfg, session, now))
  {
    session := presented;
    if cfg.idleTtl > 0 && now - session.LastActivity() >= REFRESH_INTERVAL {
      var refreshed := session.(lastSeen := now);
      w.SetCookie(SessionCookie(cfg, refreshed, now));
      session := refreshed;
    }
    w.SetExpiresIn(SecondsUntil(SessionDeadline(cfg, session), now));
  }

  /** Where a browser without a session goes; next is the requested path, filtered and escaped. */
  function LoginAddress(next: string): string {
    if next == "" then LOGIN_PATH else LOGIN_PATH + "?next=" + next
  }

  /** The cookies the middleware adds to a response. */
  function AuthCookies(cfg: Config, presented: Presented, now: Time): seq<SetCookie> {
    match Validate(cfg, presented, now)
    case Ok(data) => if Refreshes(cfg, data, now) then [SessionCookie(cfg, Touch(cfg, data, now), now)] else []
    case Err(_) => [ClearedSessionCookie()]
  }

  /** Admits a request with a valid session, handing the next handler the touched session; any other
      request has its cookie cleared and is answered 401 or sent to the login page. */
  method RequireAuth(cfg: Config, w: ResponseWriter, presented: Presented, wantsJson: bool, next: string, now: Time)
    returns (admitted: Option<SessionData>)
    requires w.Fresh()
    modifies w
    ensures w.cookies == AuthCookies(cfg, presented, now)
    ensures match Validate(cfg, presented, now)
            case Ok(data) =>
              && admitted == Some(Touch(cfg, data, now))
              && w.status == None
              && w.expiresIn == Some(Advertised(cfg, admitted.value, now))
              && w.cookies == if Refreshes(cfg, data, now) then [SessionCookie(cfg, admitted.value, now)] else []
            case Err(_) =>
              && admitted == None
              && w.status == Some(if wantsJson then 401 else 302)
              && w.location == (if wantsJson then None else Some(LoginAddress(next)))
              && w.expiresIn == None
              && w.cookies == [ClearedSessionCookie()]
  {
    match Validate(cfg, presented, now) {
      case Ok(data) =>
        var session := TouchSession(cfg, w, data, now);
        admitted := Some(session);
      case Err(_) =>
        w.SetCookie(ClearedSessionCookie());
        DenyUnauthenticated(w, wantsJson, next);
        admitted := None;
    }
  }

  method DenyUnauthenticated(w: ResponseWriter, wantsJson: bool, next: string)
    requires w.status == None
    modifies w`status, w`location
    ensures w.status == Some(if wantsJson then 401 else 302)
    ensures w.location == if wantsJson then old(w.location) else Some(LoginAddress(next))
  {
    if wantsJson {
      w.WriteHeader(401);
      return;
    }
    var loginUrl := LOGIN_PATH;
    if next != "" {
      loginUrl := loginUrl + "?next=" + next;
    }
    w.Redirect(loginUrl, 302);
  }

  /** Forgets the session, and sends a browser whose session was valid to the provider's own logout if there is one;
      endSession builds that address from the ID token. */
  method LogoutHandler(cfg: Config, w: ResponseWriter, presented: Presented, endSession: Option<string -> string>, now: Time)
    requires w.Fresh()
    modifies w
    ensures w.cookies == [ClearedSessionCookie()] && w.status == Some(302) && w.expiresIn == None
    ensures w.location == match Validate(cfg, presented, now)
                          case Ok(data) =>
                            if endSession.Some? && data.idToken != "" then Some(endSession.value(data.idToken))
                            else Some(LOGGED_OUT_PATH)
                          case Err(_) => Some(LOGGED_OUT_PATH)
  {
    var session := Validate(cfg, presented, now);
    w.SetCookie(ClearedSessionCookie());
    if endSession.Some? && session.Ok? && session.value.idToken != "" {
      w.Redirect(endSession.value(session.value.idToken), 302);
      return;
    }
    w.Redirect(LOGGED_OUT_PATH, 302);
  }

  /** The browser's session slot after a response whose cookie is SessionCookie(cfg, data, now). */
  function KeptSession(cfg: Config, data: SessionData, now: Time): Option<Held<SessionData>> {
    Keep(data, SecondsUntil(SessionDeadline(cfg, data), now), now)
  }

  /** "The browser drops an idle cookie on its own", exactly: a live cookie leaves the browser within half a
      second of the deadline when at least half a second is left, and never when less is, because its
      Max-Age then rounds to zero and is not sent. */
  lemma BrowserDropsAtDeadline(cfg: Config, data: SessionData, now: Time)
    requires now <= SessionDeadline(cfg, data)
    ensures var deadline := SessionDeadline(cfg, data);
            var slot := KeptSession(cfg, data, now);
            && slot.Some? && slot.value.value == data
            && (2 * (deadline - now) >= SECOND <==> slot.value.dropAfter.Some?)
            && (slot.value.dropAfter.Some? ==> -SECOND < 2 * (slot.value.dropAfter.value - deadline) <= SECOND)
            && ((exists t :: Sent(slot, t) == None) <==> 2 * (deadline - now) >= SECOND)
  {
    SecondsUntilIsNearest(SessionDeadline(cfg, data), now);
    var slot := KeptSession(cfg, data, now);
    if slot.value.dropAfter.Some? {
      assert Sent(slot, slot.value.dropAfter.value + 1) == None;
    }
  }

  /** The session's slot in a jar of real cookies. */
  predicate Slot(jar: Jar, held: Option<Held<SessionData>>) {
    match held
    case None => "atrium_session" !in jar
    case Some(h) => "atrium_session" in jar && jar["atrium_session"] == Held(Token(h.value), h.dropAfter)
  }

  /** The session cookie that is sent is kept under its name as the protocol keeps it, other cookies stay, and its Max-Age
      is the session deadline's distance to within half a second. */
  lemma SessionCookieKept(cfg: Config, jar: Jar, data: SessionData, now: Time)
    ensures var cookie := SessionCookie(cfg, data, now);
            && Slot(Receive(jar, cookie, now), KeptSession(cfg, data, now))
            && (forall name :: name in jar && name != "atrium_session" ==>
                  name in Receive(jar, cookie, now) && Receive(jar, cookie, now)[name] == jar[name])
            && -SECOND <= 2 * (cookie.maxAge * SECOND - (SessionDeadline(cfg, data) - now)) <= SECOND
  {
    SecondsUntilIsNearest(SessionDeadline(cfg, data), now);
  }

  /** Clearing it leaves the browser without a session and with every other cookie. */
  lemma ClearedCookieForgets(jar: Jar, now: Time)
    ensures Receive(jar, ClearedSessionCookie(), now) == jar - {"atrium_session"}
  {
  }
}
