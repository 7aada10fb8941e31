/** The authorization-code login: the handlers and the claims they enforce (internal/auth/oidc.go). */
module Oidc {
  import opened Wrappers
  import opened Session
  import opened Http
  import opened Gateway

  const STATE := "oauth_state"
  const NONCE := "oauth_nonce"
  const PKCE := "oauth_pkce"
  const NEXT := "oauth_next"
  const FLOW_COOKIES := [STATE, NONCE, PKCE, NEXT]

  /** Max-Age of the flow cookies: five minutes. */
  const FLOW_MAX_AGE := 300

  const AUTH_TIME_LEEWAY: Duration := 30 * SECOND
  const ERROR_PATH := "/auth/error"

  /** safeNext is the same-site path filter, kept uninterpreted. */
  datatype Settings = Settings(
    session: Config, requireEmailVerified: bool, mfaAcr: set<string>, safeNext: string -> string)

  /** The ID-token claims the gateway relies on; authTime counts seconds since the epoch. */
  datatype Claims = Claims(email: string, emailVerified: bool, acr: string, authTime: int)

  datatype Query = Query(state: string, error: string)

  /** How the provider answers the code exchange. */
  datatype Answer =
    | ExchangeFailed
    | WithoutIdToken
    | UnverifiedIdToken
    | IdToken(raw: string, nonce: string, claims: Option<Claims>)

  datatype Denial =
    | StateMismatch | ProviderError | PkceMissing
    | NoToken | NonceMismatch | ClaimsUnreadable
    | EmailNotVerified | EmailMissing | MfaMissing | AuthTooOld

  datatype Grant = Grant(email: string, idToken: string)

  /** What the login redirect asks of the provider. */
  datatype AuthRequest = AuthRequest(state: string, nonce: string, verifier: string, maxAge: Option<int>)

  /** Whether the user's last authentication, as the ID token gives it, is recent enough: at most the window and the
      leeway ago. A missing auth_time reads as zero and is refused. */
  predicate AuthTimeFresh(authTime: int, within: Duration, now: Time) {
    authTime != 0 && now - authTime * SECOND <= within + AUTH_TIME_LEEWAY
  }

  function ClaimsDenial(settings: Settings, claims: Claims, now: Time): Option<Denial> {
    if settings.requireEmailVerified && !claims.emailVerified then Some(EmailNotVerified)
    else if claims.email == "" then Some(EmailMissing)
    else if settings.mfaAcr != {} && claims.acr !in settings.mfaAcr then Some(MfaMissing)
    else if settings.session.idleTtl > 0 && !AuthTimeFresh(claims.authTime, settings.session.idleTtl, now) then
      Some(AuthTooOld)
    else None
  }

  function TextOf(value: Option<CookieValue>): Option<string> {
    if value.Some? && value.value.Text? then Some(value.value.text) else None
  }

  /** The outcome of a callback, in the order the handler checks. */
  function CallbackVerdict(settings: Settings, jar: Jar, query: Query, answer: Answer, now: Time): Result<Grant, Denial> {
    if TextOf(CookieOf(jar, STATE, now)) != Some(query.state) then Err(StateMismatch)
    else if query.error != "" then Err(ProviderError)
    else if TextOf(CookieOf(jar, PKCE, now)) == None then Err(PkceMissing)
    else if !answer.IdToken? then Err(NoToken)
    else if TextOf(CookieOf(jar, NONCE, now)) != Some(answer.nonce) then Err(NonceMismatch)
    else if answer.claims == None then Err(ClaimsUnreadable)
    else
      match ClaimsDenial(settings, answer.claims.value, now)
      case Some(denial) => Err(denial)
      case None => Ok(Grant(answer.claims.value.email, answer.raw))
  }

  /** Where an accepted callback sends the browser. */
  function LandingPath(settings: Settings, jar: Jar, now: Time): string {
    match TextOf(CookieOf(jar, NEXT, now))
    case Some(stored) => if settings.safeNext(stored) != "" then settings.safeNext(stored) else "/"
    case None => "/"
  }

  function FlowCookie(name: string, value: string): SetCookie {
    SetCookie(name, Text(value), FLOW_MAX_AGE)
  }

  function ClearedFlowCookie(name: string): SetCookie {
    SetCookie(name, Text(""), -1)
  }

  function LoginCookies(state: string, nonce: string, verifier: string, next: string): seq<SetCookie> {
    [FlowCookie(STATE, state), FlowCookie(NONCE, nonce), FlowCookie(PKCE, verifier)]
    + if next != "" then [FlowCookie(NEXT, next)] else []
  }

  function ClearedFlowCookies(): seq<SetCookie> {
    [ClearedFlowCookie(STATE), ClearedFlowCookie(NONCE), ClearedFlowCookie(PKCE), ClearedFlowCookie(NEXT)]
  }

  function CallbackCookies(settings: Settings, verdict: Result<Grant, Denial>, now: Time): seq<SetCookie> {
    ClearedFlowCookies() +
    match verdict
    case Ok(grant) => [SessionCookie(settings.session, NewSession(settings.session, grant.email, grant.idToken, now), now)]
    case Err(_) => []
  }

  // ----- The checks, as a table -----

  /** The jar has an unexpired cookie of that name with that text. */
  predicate Carries(jar: Jar, name: string, text: string, now: Time) {
    && name in jar && jar[name].value == Text(text)
    && (jar[name].dropAfter.Some? ==> now <= jar[name].dropAfter.value)
  }

  /** The reasons to refuse a callback, in the order in which the first that applies is the one given. */
  const CHECKS := [StateMismatch, ProviderError, PkceMissing, NoToken, NonceMismatch, ClaimsUnreadable,
                   EmailNotVerified, EmailMissing, MfaMissing, AuthTooOld]

  /** Whether a reason applies to a callback that none of the earlier ones applies to. */
  ghost predicate Applies(settings: Settings, jar: Jar, query: Query, answer: Answer, now: Time, denial: Denial) {
    match denial
    case StateMismatch => !Carries(jar, "oauth_state", query.state, now)
    case ProviderError => query.error != ""
    case PkceMissing => !exists verifier: string :: Carries(jar, "oauth_pkce", verifier, now)
    case NoToken => !answer.IdToken?
    case NonceMismatch => answer.IdToken? && !Carries(jar, "oauth_nonce", answer.nonce, now)
    case ClaimsUnreadable => answer.IdToken? && answer.claims == None
    case EmailNotVerified =>
      settings.requireEmailVerified && answer.IdToken? && answer.claims.Some? && !answer.claims.value.emailVerified
    case EmailMissing => answer.IdToken? && answer.claims.Some? && answer.claims.value.email == ""
    case MfaMissing =>
      settings.mfaAcr != {} && answer.IdToken? && answer.claims.Some? && answer.claims.value.acr !in settings.mfaAcr
    case AuthTooOld =>
      && settings.session.idleTtl > 0 && answer.IdToken? && answer.claims.Some?
      && var authTime := answer.claims.value.authTime;
      && (authTime == 0 || now - authTime * SECOND > settings.session.idleTtl + 30 * SECOND)
  }

  lemma CarriesMeans(jar: Jar, name: string, text: string, now: Time)
    ensures Carries(jar, name, text, now) <==> TextOf(CookieOf(jar, name, now)) == Some(text)
  {
  }

  /** A callback is refused for the first reason that applies, and accepted exactly when none does: then the grant is for
      the email the ID token claims, with that token. */
  lemma VerdictIsFirstReason(settings: Settings, jar: Jar, query: Query, answer: Answer, now: Time)
    ensures match CallbackVerdict(settings, jar, query, answer, now)
            case Ok(grant) =>
              && (forall i :: 0 <= i < |CHECKS| ==> !Applies(settings, jar, query, answer, now, CHECKS[i]))
              && answer.IdToken? && answer.claims.Some?
              && grant == Grant(answer.claims.value.email, answer.raw)
            case Err(denial) =>
              exists i :: 0 <= i < |CHECKS| && CHECKS[i] == denial && Applies(settings, jar, query, answer, now, denial)
                          && forall j :: 0 <= j < i ==> !Applies(settings, jar, query, answer, now, CHECKS[j])
  {
    CarriesMeans(jar, STATE, query.state, now);
    forall verifier: string
      ensures Carries(jar, PKCE, verifier, now) <==> TextOf(CookieOf(jar, PKCE, now)) == Some(verifier)
    {
      CarriesMeans(jar, PKCE, verifier, now);
    }
    if TextOf(CookieOf(jar, PKCE, now)).Some? {
      assert Carries(jar, PKCE, TextOf(CookieOf(jar, PKCE, now)).value, now);
    }
    if answer.IdToken? {
      CarriesMeans(jar, NONCE, answer.nonce, now);
    }
    var verdict := CallbackVerdict(settings, jar, query, answer, now);
    if verdict.Err? {
      var i := Position(verdict.error);
      assert CHECKS[i] == verdict.error;
    }
  }

  function Position(denial: Denial): (i: nat)
    ensures i < |CHECKS| && CHECKS[i] == denial
  {
    match denial
    case StateMismatch => 0
    case ProviderError => 1
    case PkceMissing => 2
    case NoToken => 3
    case NonceMismatch => 4
    case ClaimsUnreadable => 5
    case EmailNotVerified => 6
    case EmailMissing => 7
    case MfaMissing => 8
    case AuthTooOld => 9
  }

  /** A callback that passes every earlier check is refused as too old exactly when the authentication is unknown or lies
      further back than the idle window and half a minute. */
  lemma TooOldExactly(settings: Settings, jar: Jar, query: Query, answer: Answer, now: Time)
    requires CallbackVerdict(settings, jar, query, answer, now).Ok?
          || CallbackVerdict(settings, jar, query, answer, now) == Err(AuthTooOld)
    ensures answer.IdToken? && answer.claims.Some?
    ensures var authTime := answer.claims.value.authTime;
            CallbackVerdict(settings, jar, query, answer, now) == Err(AuthTooOld)
            <==> settings.session.idleTtl > 0
                 && (authTime == 0 || now - authTime * SECOND > settings.session.idleTtl + 30 * SECOND)
  {
  }

  method SetFlowCookie(w: ResponseWriter, name: string, value: string)
    requires w.status == None
    modifies w`cookies
    ensures w.cookies == old(w.cookies) + [FlowCookie(name, value)]
  {
    w.SetCookie(SetCookie(name, Text(value), FLOW_MAX_AGE));
  }

  method ClearFlowCookies(w: ResponseWriter)
    requires w.status == None
    modifies w`cookies
    ensures w.cookies == old(w.cookies) + ClearedFlowCookies()
  {
    var i := 0;
    while i < |FLOW_COOKIES|
      invariant 0 <= i <= |FLOW_COOKIES|
      invariant w.cookies == old(w.cookies) + ClearedFlowCookies()[..i]
    {
      w.SetCookie(SetCookie(FLOW_COOKIES[i], Text(""), -1));
      i := i + 1;
    }
  }

  /** Starts the flow; a None stands for a failing random source. */
  method LoginHandler(settings: Settings, w: ResponseWriter, state: Option<string>, nonce: Option<string>,
                      verifier: string, next: string)
    returns (request: Option<AuthRequest>)
    requires w.Fresh()
    modifies w
    ensures state == None || nonce == None ==> request == None && w.cookies == [] && w.status == Some(500)
    ensures state != None && nonce != None ==>
              && w.cookies == LoginCookies(state.value, nonce.value, verifier, settings.safeNext(next))
              && w.status == Some(302)
              && request == Some(AuthRequest(
                   state.value, nonce.value, verifier,
                   if settings.session.idleTtl > 0 then Some(settings.session.idleTtl / SECOND) else None))
  {
    if state == None || nonce == None {
      w.WriteHeader(500);
      return None;
    }
    SetFlowCookie(w, STATE, state.value);
    SetFlowCookie(w, NONCE, nonce.value);
    SetFlowCookie(w, PKCE, verifier);
    var path := settings.safeNext(next);
    if path != "" {
      SetFlowCookie(w, NEXT, path);
    }
    var maxAge := None;
    if settings.session.idleTtl > 0 {
      maxAge := Some(settings.session.idleTtl / SECOND);
    }
    w.Redirect("authorize", 302);
    request := Some(AuthRequest(state.value, nonce.value, verifier, maxAge));
  }

  /** Completes the flow. The flow cookies are cleared before anything is written, so no outcome can
      leave the clearing out of the committed header. */
  method CallbackHandler(settings: Settings, w: ResponseWriter, jar: Jar, query: Query, answer: Answer, now: Time)
    returns (denial: Option<Denial>)
    requires w.Fresh()
    modifies w
    ensures var verdict := CallbackVerdict(settings, jar, query, answer, now);
            && w.cookies == CallbackCookies(settings, verdict, now)
            && denial == (if verdict.Ok? then None else Some(verdict.error))
            && w.status == Some(if verdict.Ok? then 302 else 303)
            && w.location == Some(if verdict.Ok? then LandingPath(settings, jar, now) else ERROR_PATH)
  {
    var next := "/";
    var stored := TextOf(CookieOf(jar, NEXT, now));
    if stored.Some? {
      var path := settings.safeNext(stored.value);
      if path != "" {
        next := path;
      }
    }
    ClearFlowCookies(w);

    var stateCookie := TextOf(CookieOf(jar, STATE, now));
    if stateCookie == None || stateCookie.value != query.state {
      denial := AuthError(w, StateMismatch);
      return;
    }
    if query.error != "" {
      denial := AuthError(w, ProviderError);
      return;
    }
    var pkceCookie := TextOf(CookieOf(jar, PKCE, now));
    if pkceCookie == None {
      denial := AuthError(w, PkceMissing);
      return;
    }
    if !answer.IdToken? {
      denial := AuthError(w, NoToken);
      return;
    }
    var nonceCookie := TextOf(CookieOf(jar, NONCE, now));
    if nonceCookie == None || nonceCookie.value != answer.nonce {
      denial := AuthError(w, NonceMismatch);
      return;
    }
    if answer.claims == None {
      denial := AuthError(w, ClaimsUnreadable);
      return;
    }
    var claims := answer.claims.value;
    var refusal := ClaimsDenial(settings, claims, now);
    if refusal.Some? {
      denial := AuthError(w, refusal.value);
      return;
    }
    var data := NewSession(settings.session, claims.email, answer.raw, now);
    w.SetCookie(SessionCookie(settings.session, data, now));
    w.Redirect(next, 302);
    denial := None;
  }

  method AuthError(w: ResponseWriter, reason: Denial) returns (denial: Option<Denial>)
    requires w.status == None
    modifies w`status, w`location
    ensures denial == Some(reason) && w.status == Some(303) && w.location == Some(ERROR_PATH)
  {
    w.Redirect(ERROR_PATH, 303);
    denial := Some(reason);
  }
}
