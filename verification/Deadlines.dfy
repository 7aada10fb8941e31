/** How far the app's stored deadline can be from the gateway's, in every reachable state of a browser whose
    exchanges follow one another, and when "stay signed in" works. */
module Deadlines {
  import opened Wrappers
  import opened Session
  import opened Http
  import opened Gateway
  import opened Oidc
  import opened ClientDeadline
  import opened Protocol

  /** The stored deadline in nanoseconds. */
  function ClientTime(s: State): Time
    requires s.client.Some?
  {
    s.client.value * MILLISECOND
  }

  /** The deadline of the session cookie the browser holds. */
  function GatewayTime(cfg: Config, s: State): Time
    requires s.jar.Some?
  {
    SessionDeadline(cfg, s.jar.value.value)
  }

  /** The held session: issued by a sign-in, active at the latest request up to the throttle, and live then. */
  predicate HeldInvariant(cfg: Config, s: State) {
    s.jar.Some? ==>
      var data := s.jar.value.value;
      && MILLISECOND <= data.issuedAt <= data.lastSeen <= s.lastRequest <= s.now
      && s.lastRequest - data.lastSeen < REFRESH_INTERVAL
      && data.expiresAt == data.issuedAt + cfg.absoluteTtl
      && s.lastRequest <= GatewayTime(cfg, s)
  }

  /** The stored deadline never runs ahead of a full idle window from now, nor of what the last exchange or
      the last download guess can account for. */
  predicate CeilingInvariant(cfg: Config, s: State) {
    s.client.Some? ==>
      && ClientTime(s) <= s.now + cfg.idleTtl + SECOND / 2
      && (s.jar.Some? ==> ClientTime(s) <= Max(GatewayTime(cfg, s) + SECOND / 2, s.lastUnread + cfg.idleTtl))
  }

  /** Once told, the stored deadline is no more than a second and a clock tick early, and no more than half a
      second and a tick before the window the app knows, counted from the stored activity. */
  predicate FloorInvariant(cfg: Config, s: State) {
    s.client.Some? && s.jar.Some? && s.told ==>
      var data := s.jar.value.value;
      && ClientTime(s) > GatewayTime(cfg, s) - SECOND - MILLISECOND
      && ClientTime(s) > Min(data.lastSeen + IdleSeconds(cfg) * SECOND, data.expiresAt) - SECOND / 2 - MILLISECOND
  }

  predicate Invariant(cfg: Config, s: State) {
    && cfg.Valid() && cfg.idleTtl > 0
    && MILLISECOND <= s.now
    && s.lastUnread <= s.lastRequest <= s.now
    && HeldInvariant(cfg, s)
    && CeilingInvariant(cfg, s)
    && FloorInvariant(cfg, s)
  }

  lemma MillisBounds(now: Time)
    ensures now - MILLISECOND < Millis(now) * MILLISECOND <= now
  {
  }

  /** The deadline a response leads the app to: within half a second above the gateway's and half a
      second and a tick below. */
  lemma ReadingBounds(deadline: Time, now: Time)
    requires now >= MILLISECOND && deadline >= now
    ensures var at := Millis(now) + SecondsUntil(deadline, now) * 1000;
            at > 0 && deadline - SECOND / 2 - MILLISECOND < at * MILLISECOND <= deadline + SECOND / 2
  {
    MillisBounds(now);
    SecondsUntilIsNearest(deadline, now);
    var n := SecondsUntil(deadline, now);
    assert n >= 0;
    assert (Millis(now) + n * 1000) * MILLISECOND == Millis(now) * MILLISECOND + n * SECOND;
  }

  /** The guess for an unread download: at most a full idle window away, short of it by less than a second
      and a tick. */
  lemma GuessBounds(cfg: Config, now: Time)
    requires now >= MILLISECOND && cfg.idleTtl > 0
    ensures var at := Millis(now) + IdleSeconds(cfg) * 1000;
            && at > 0
            && now + cfg.idleTtl - SECOND - MILLISECOND < at * MILLISECOND <= now + cfg.idleTtl
            && now + IdleSeconds(cfg) * SECOND - MILLISECOND < at * MILLISECOND
  {
    MillisBounds(now);
    var n := IdleSeconds(cfg);
    assert (Millis(now) + n * 1000) * MILLISECOND == Millis(now) * MILLISECOND + n * SECOND;
  }

  /** What one accepted request does to the browser's session. */
  lemma RequestKeepsHeld(cfg: Config, s: State)
    requires Invariant(cfg, s) && Verdict(cfg, s).Ok?
    ensures var after := AfterRequest(cfg, s);
            && s.jar.Some? && after.jar.Some? && Verdict(cfg, s).value == s.jar.value.value
            && after.jar.value.value == Touch(cfg, s.jar.value.value, s.now)
            && HeldInvariant(cfg, after)
            && GatewayTime(cfg, s) <= GatewayTime(cfg, after) <= s.now + cfg.idleTtl
            && s.now <= GatewayTime(cfg, after)
            && (cfg.idleTtl < REFRESH_INTERVAL ==> s.jar.value.value == after.jar.value.value)
  {
    var data := Verdict(cfg, s).value;
    assert data == s.jar.value.value;
    BrowserDropsAtDeadline(cfg, Touch(cfg, data, s.now), s.now);
  }

  lemma CallKeeps(cfg: Config, s: State)
    requires Invariant(cfg, s)
    ensures Invariant(cfg, AfterCall(cfg, s))
  {
    if Verdict(cfg, s).Ok? {
      RequestKeepsHeld(cfg, s);
      var served := AfterRequest(cfg, s);
      var after := AfterCall(cfg, s);
      var deadline := GatewayTime(cfg, served);
      var at := Millis(s.now) + SecondsUntil(deadline, s.now) * 1000;
      ReadingBounds(deadline, s.now);
      assert after == served.(client := Extend(s.client, at), told := true);
      CallBounds(cfg, s, after, at);
    }
  }

  /** An exchange that told the app the gateway's deadline re-establishes both bounds. */
  lemma CallBounds(cfg: Config, s: State, after: State, at: int)
    requires Invariant(cfg, s) && s.jar.Some? && after.jar.Some? && HeldInvariant(cfg, after)
    requires after.client == Extend(s.client, at) && at > 0
    requires after.now == s.now && after.lastUnread == s.lastUnread
    requires GatewayTime(cfg, s) <= GatewayTime(cfg, after) <= s.now + cfg.idleTtl
    requires GatewayTime(cfg, after) - SECOND / 2 - MILLISECOND < at * MILLISECOND <= GatewayTime(cfg, after) + SECOND / 2
    ensures CeilingInvariant(cfg, after) && FloorInvariant(cfg, after)
  {
    assert ClientTime(after) >= at * MILLISECOND;
    var data := after.jar.value.value;
    assert GatewayTime(cfg, after) >= Min(data.lastSeen + IdleSeconds(cfg) * SECOND, data.expiresAt);
  }

  lemma DownloadKeeps(cfg: Config, s: State)
    requires Invariant(cfg, s)
    ensures Invariant(cfg, AfterDownload(cfg, s))
  {
    var after := AfterDownload(cfg, s);
    GuessBounds(cfg, s.now);
    if Verdict(cfg, s).Ok? {
      RequestKeepsHeld(cfg, s);
      DownloadBounds(cfg, s, after);
    }
  }

  lemma DownloadBounds(cfg: Config, s: State, after: State)
    requires Invariant(cfg, s) && s.jar.Some? && after.jar.Some? && HeldInvariant(cfg, after)
    requires after.client == AfterUnread(s.client, IdleSeconds(cfg), Millis(s.now))
    requires after.now == after.lastUnread == s.now
    requires after.told == (s.told || IdleSeconds(cfg) > 0)
    requires GatewayTime(cfg, s) <= GatewayTime(cfg, after) <= s.now + cfg.idleTtl
    requires cfg.idleTtl < REFRESH_INTERVAL ==> s.jar.value.value == after.jar.value.value
    ensures CeilingInvariant(cfg, after) && FloorInvariant(cfg, after)
  {
    GuessBounds(cfg, s.now);
    var at := Millis(s.now) + IdleSeconds(cfg) * 1000;
    if IdleSeconds(cfg) > 0 {
      assert after.client.Some? && ClientTime(after) >= at * MILLISECOND;
    }
  }

  lemma SignInKeeps(settings: Settings, s: State, claims: Claims, idToken: string)
    requires Invariant(settings.session, s)
    ensures Invariant(settings.session, AfterSignIn(settings, s, claims, idToken))
  {
  }

  lemma StartUpKeeps(settings: Settings, s: State)
    requires Invariant(settings.session, s)
    ensures Invariant(settings.session, Step(settings, s, StartUp))
  {
  }

  lemma StepKeeps(settings: Settings, s: State, event: Event)
    requires Invariant(settings.session, s)
    ensures Invariant(settings.session, Step(settings, s, event))
  {
    match event {
      case Wait(_) =>
      case SignIn(claims, idToken) => SignInKeeps(settings, s, claims, idToken);
      case Call => CallKeeps(settings.session, s);
      case Download => DownloadKeeps(settings.session, s);
      case Replay(_) =>
      case SignOut =>
      case StartUp => StartUpKeeps(settings, s);
    }
  }

  lemma {:induction false} ReachableInvariant(settings: Settings, start: Time, events: seq<Event>)
    requires settings.session.Valid() && settings.session.idleTtl > 0 && start >= MILLISECOND
    ensures Invariant(settings.session, Run(settings, start, events))
  {
    if events != [] {
      var before := events[..|events| - 1];
      ReachableInvariant(settings, start, before);
      StepKeeps(settings, Run(settings, start, before), events[|events| - 1]);
    }
  }

  /** The app and the gateway agree. In every reachable state with a session cookie in the browser, across any
      number of sign-ins, the app's deadline is less than a minute past the gateway's, unless a download
      fell within the idle window of the absolute expiry, and then it is past it by no more than the idle
      window or half a second; and once the app has been told anything since the sign-in it is early by
      at most a second and a clock tick. */
  lemma DeadlinesAgree(settings: Settings, start: Time, events: seq<Event>)
    requires settings.session.Valid() && settings.session.idleTtl > 0 && start >= MILLISECOND
    requires var s := Run(settings, start, events); s.jar.Some? && s.client.Some?
    ensures var cfg := settings.session;
            var s := Run(settings, start, events);
            var ahead := ClientTime(s) - GatewayTime(cfg, s);
            && (s.lastUnread + cfg.idleTtl <= s.jar.value.value.expiresAt ==> ahead < REFRESH_INTERVAL)
            && (s.lastUnread + cfg.idleTtl > s.jar.value.value.expiresAt ==>
                  ahead < REFRESH_INTERVAL || ahead <= cfg.idleTtl)
            && (s.told ==> ahead > -SECOND - MILLISECOND)
  {
    ReachableInvariant(settings, start, events);
  }

  /** A sign-in or a re-issue never moves the gateway's deadline back, whatever happened before. */
  lemma GatewayDeadlineMonotone(settings: Settings, start: Time, events: seq<Event>, event: Event)
    requires settings.session.Valid() && settings.session.idleTtl > 0 && start >= MILLISECOND
    requires Run(settings, start, events).jar.Some? && Run(settings, start, events + [event]).jar.Some?
    ensures GatewayTime(settings.session, Run(settings, start, events))
         <= GatewayTime(settings.session, Run(settings, start, events + [event]))
  {
    assert (events + [event])[..|events|] == events;
    ReachableInvariant(settings, start, events);
    var s := Run(settings, start, events);
    if (event == Call || event == Download) && Verdict(settings.session, s).Ok? {
      RequestKeepsHeld(settings.session, s);
    }
  }

  // ----- "Stay signed in" -----

  const HALF_PAST_WARNING: Duration := WARN_BEFORE_SECONDS * SECOND + SECOND / 2

  function Shown(s: State): Countdown {
    SecondsLeft(s.client, Millis(s.now))
  }

  /** The warning is on screen and the gateway would still accept a request. An app that is told an idle window of zero
      seconds, because it is shorter than one, runs no timer and reads the deadline only when it is mounted. */
  predicate Warned(cfg: Config, s: State) {
    Verdict(cfg, s).Ok? && Shown(s).Left? && Shown(s).seconds > 0
  }

  /** With an idle window of at least 181 seconds, the extend request always re-issues the cookie with the
      present instant, whenever the warning shows the idle deadline the app was told. */
  lemma StayReissues(settings: Settings, start: Time, events: seq<Event>)
    requires settings.session.Valid() && settings.session.idleTtl >= 181 * SECOND && start >= MILLISECOND
    requires var s := Run(settings, start, events);
             && Warned(settings.session, s) && s.told
             && s.jar.Some? && s.jar.value.value.lastSeen + settings.session.idleTtl <= s.jar.value.value.expiresAt
    ensures var after := Run(settings, start, events + [Call]);
            after.jar.Some? && after.jar.value.value.lastSeen == after.now
  {
    var cfg := settings.session;
    assert (events + [Call])[..|events|] == events;
    ReachableInvariant(settings, start, events);
    var s := Run(settings, start, events);
    RequestKeepsHeld(cfg, s);
    WarningComesAfterThrottle(cfg, s);
  }

  /** A warning of the idle deadline shows only when the stored activity is a minute old. */
  lemma WarningComesAfterThrottle(cfg: Config, s: State)
    requires Invariant(cfg, s) && cfg.idleTtl >= 181 * SECOND
    requires s.jar.Some? && s.client.Some? && s.told && Shown(s).Left?
    requires s.jar.value.value.lastSeen + cfg.idleTtl <= s.jar.value.value.expiresAt
    ensures s.now - s.jar.value.value.LastActivity() >= REFRESH_INTERVAL
  {
    var data := s.jar.value.value;
    CountdownMeaning(s.client.value, Millis(s.now));
    MillisBounds(s.now);
    assert ClientTime(s) <= s.now + 120 * SECOND;
    assert cfg.idleTtl >= IdleSeconds(cfg) * SECOND >= 181 * SECOND;
    assert ClientTime(s) > data.lastSeen + IdleSeconds(cfg) * SECOND - SECOND / 2 - MILLISECOND;
  }

  /** The shortest idle window that the throttle's minute cannot eat into the warning: 180.5 seconds, less a nanosecond. */
  const STAY_WINDOW: Duration := REFRESH_INTERVAL + HALF_PAST_WARNING - 1

  /** From that window on, and whenever the idle window is the whole lifetime, the extend request closes the warning
      exactly when at least 120.5 seconds of the absolute lifetime are left. */
  lemma StayClosesWarning(settings: Settings, start: Time, events: seq<Event>)
    requires settings.session.Valid() && settings.session.idleTtl > 0 && start >= MILLISECOND
    requires settings.session.idleTtl >= STAY_WINDOW || settings.session.idleTtl == settings.session.absoluteTtl
    requires Warned(settings.session, Run(settings, start, events))
    ensures var s := Run(settings, start, events);
            && s.jar.Some?
            && (Shown(Run(settings, start, events + [Call])) == Plenty
                <==> s.jar.value.value.expiresAt - s.now >= HALF_PAST_WARNING)
  {
    var cfg := settings.session;
    assert (events + [Call])[..|events|] == events;
    ReachableInvariant(settings, start, events);
    var s := Run(settings, start, events);
    RequestKeepsHeld(cfg, s);
    var deadline := GatewayTime(cfg, AfterRequest(cfg, s));
    assert deadline - s.now >= HALF_PAST_WARNING <==> s.jar.value.value.expiresAt - s.now >= HALF_PAST_WARNING;
    CallClosesWarning(cfg, s, deadline);
  }

  lemma CallClosesWarning(cfg: Config, s: State, deadline: Time)
    requires Invariant(cfg, s) && Warned(cfg, s) && s.jar.Some?
    requires deadline == SessionDeadline(cfg, Touch(cfg, s.jar.value.value, s.now)) && deadline >= s.now
    ensures Shown(AfterCall(cfg, s)) == Plenty <==> deadline - s.now >= HALF_PAST_WARNING
  {
    var n := SecondsUntil(deadline, s.now);
    SecondsUntilIsNearest(deadline, s.now);
    ReadingBounds(deadline, s.now);
    assert n > WARN_BEFORE_SECONDS <==> deadline - s.now >= HALF_PAST_WARNING;
    var after := AfterCall(cfg, s);
    assert after.client == Extend(s.client, Millis(s.now) + n * 1000);
    CountdownMeaning(s.client.value, Millis(s.now));
    CountdownMeaning(after.client.value, Millis(s.now));
  }

  /** An idle window that rounds to zero seconds never lets the app know of a deadline ahead. */
  lemma {:induction false} TinyWindowNeverAhead(settings: Settings, start: Time, events: seq<Event>)
    requires settings.session.Valid() && 0 < settings.session.idleTtl < SECOND / 2 && start >= MILLISECOND
    ensures var s := Run(settings, start, events); s.client.Some? ==> s.client.value <= Millis(s.now)
  {
    if events != [] {
      var cfg := settings.session;
      var before := events[..|events| - 1];
      var s := Run(settings, start, before);
      TinyWindowNeverAhead(settings, start, before);
      ReachableInvariant(settings, start, before);
      match events[|events| - 1] {
        case Wait(_) =>
        case SignIn(_, _) =>
        case Call => TinyCall(cfg, s);
        case Download =>
        case Replay(_) =>
        case SignOut =>
        case StartUp =>
      }
    }
  }

  lemma TinyCall(cfg: Config, s: State)
    requires Invariant(cfg, s) && cfg.idleTtl < SECOND / 2
    requires s.client.Some? ==> s.client.value <= Millis(s.now)
    ensures var after := AfterCall(cfg, s); after.client.Some? ==> after.client.value <= Millis(s.now)
  {
    hide Invariant, Extend;
    if Verdict(cfg, s).Ok? {
      RequestKeepsHeld(cfg, s);
      TinyReading(GatewayTime(cfg, AfterRequest(cfg, s)), s.now);
      ExtendedBelow(s.client, Millis(s.now), Millis(s.now));
    }
  }

  lemma TinyReading(deadline: Time, now: Time)
    requires now <= deadline < now + SECOND / 2
    ensures SecondsUntil(deadline, now) == 0
  {
    SecondsUntilIsNearest(deadline, now);
  }

  lemma ExtendedBelow(current: Option<int>, at: int, limit: int)
    requires at <= limit && (current.Some? ==> current.value <= limit)
    ensures Extend(current, at).Some? ==> Extend(current, at).value <= limit
  {
  }

  lemma TinyWindowNeverWarns(settings: Settings, start: Time, events: seq<Event>)
    requires settings.session.Valid() && 0 < settings.session.idleTtl < SECOND / 2 && start >= MILLISECOND
    ensures !Warned(settings.session, Run(settings, start, events))
  {
    var s := Run(settings, start, events);
    TinyWindowNeverAhead(settings, start, events);
    if s.client.Some? {
      CountdownMeaning(s.client.value, Millis(s.now));
    }
  }

  /** In every reachable state, staying closes a warning that the absolute lifetime leaves room to close. */
  ghost predicate StayWorks(settings: Settings, start: Time) {
    forall events: seq<Event> ::
      var s := Run(settings, start, events);
      Warned(settings.session, s) && s.jar.Some? && s.jar.value.value.expiresAt - s.now >= HALF_PAST_WARNING
      ==> Shown(AfterCall(settings.session, s)) == Plenty
  }

  /** "Stay signed in" works, exactly: it closes the warning in every reachable state if and only if the idle window is at
      least 180.5 seconds less a nanosecond, or is the whole lifetime; or there is nothing to close, because the window
      rounds to zero seconds and never warns, or the lifetime never leaves the room. */
  lemma StayWorksExactly(settings: Settings, start: Time)
    requires settings.session.Valid() && settings.session.idleTtl > 0 && start >= MILLISECOND
    ensures var cfg := settings.session;
            StayWorks(settings, start)
            <==> || cfg.idleTtl >= STAY_WINDOW || cfg.idleTtl == cfg.absoluteTtl
                 || cfg.idleTtl < SECOND / 2 || cfg.absoluteTtl < HALF_PAST_WARNING
  {
    var cfg := settings.session;
    if cfg.idleTtl >= STAY_WINDOW || cfg.idleTtl == cfg.absoluteTtl || cfg.idleTtl < SECOND / 2
       || cfg.absoluteTtl < HALF_PAST_WARNING {
      forall events: seq<Event> | var s := Run(settings, start, events);
          Warned(cfg, s) && s.jar.Some? && s.jar.value.value.expiresAt - s.now >= HALF_PAST_WARNING
        ensures Shown(AfterCall(cfg, Run(settings, start, events))) == Plenty
      {
        StayWorksHere(settings, start, events);
      }
    } else {
      var events := StayFails(settings, start);
    }
  }

  lemma StayWorksHere(settings: Settings, start: Time, events: seq<Event>)
    requires settings.session.Valid() && settings.session.idleTtl > 0 && start >= MILLISECOND
    requires var cfg := settings.session;
             || cfg.idleTtl >= STAY_WINDOW || cfg.idleTtl == cfg.absoluteTtl
             || cfg.idleTtl < SECOND / 2 || cfg.absoluteTtl < HALF_PAST_WARNING
    requires var s := Run(settings, start, events);
             Warned(settings.session, s) && s.jar.Some? && s.jar.value.value.expiresAt - s.now >= HALF_PAST_WARNING
    ensures Shown(AfterCall(settings.session, Run(settings, start, events))) == Plenty
  {
    var cfg := settings.session;
    ReachableInvariant(settings, start, events);
    assert cfg.absoluteTtl >= HALF_PAST_WARNING;
    if cfg.idleTtl < SECOND / 2 {
      TinyWindowNeverWarns(settings, start, events);
    } else {
      StayClosesWarning(settings, start, events);
      assert (events + [Call])[..|events|] == events;
    }
  }

  function AcceptedClaims(at: Time, acr: string): Claims {
    Claims("someone", true, acr, if at >= SECOND then at / SECOND else 1)
  }

  /** The first moments of a session: the app makes one request after delay, and looks again after pause. */
  function EarlyRun(claims: Claims, lead: nat, delay: nat, request: Event, pause: nat): seq<Event> {
    [Wait(lead), SignIn(claims, ""), Wait(delay), request, Wait(pause)]
  }

  /** The state just before that request. */
  function EarlyState(cfg: Config, start: Time, lead: nat, claims: Claims, delay: nat): State {
    var at := start + lead;
    var data := NewSession(cfg, claims.email, "", at);
    Start(start).(now := at + delay, jar := KeptSession(cfg, data, at), lastRequest := at,
                  log := [SignedIn(at, claims.authTime, data)])
  }

  lemma EarlyRunState(settings: Settings, start: Time, lead: nat, claims: Claims, delay: nat, request: Event, pause: nat)
    requires ClaimsDenial(settings, claims, start + lead) == None
    ensures Run(settings, start, EarlyRun(claims, lead, delay, request, pause))
         == Step(settings, Step(settings, EarlyState(settings.session, start, lead, claims, delay), request), Wait(pause))
  {
    var events := EarlyRun(claims, lead, delay, request, pause);
    assert events[..4][..3] == events[..3] && events[..3][..2] == events[..2] && events[..2][..1] == events[..1];
    assert Run(settings, start, events[..1][..0]) == Start(start);
    assert Run(settings, start, events[..1]) == Start(start).(now := start + lead);
    assert Run(settings, start, events[..2]) == EarlyState(settings.session, start, lead, claims, 0);
    assert Run(settings, start, events[..3]) == EarlyState(settings.session, start, lead, claims, delay);
  }

  /** A request inside the throttle leaves the session of the sign-in as it was. */
  lemma EarlyRequest(cfg: Config, start: Time, lead: nat, claims: Claims, delay: nat)
    requires cfg.Valid() && cfg.idleTtl >= SECOND / 2 && start >= MILLISECOND
    requires delay < REFRESH_INTERVAL && 2 * (cfg.idleTtl - delay) >= SECOND
    ensures var s, data := EarlyState(cfg, start, lead, claims, delay), NewSession(cfg, claims.email, "", start + lead);
            && s.jar.Some? && s.jar.value.value == data
            && Verdict(cfg, s) == Ok(data) && !Refreshes(cfg, data, s.now)
            && SessionDeadline(cfg, data) == start + lead + cfg.idleTtl
  {
    var data := NewSession(cfg, claims.email, "", start + lead);
    BrowserDropsAtDeadline(cfg, data, start + lead);
  }

  /** A run that defeats the button for every other window: the app reads the deadline when 120.5 seconds less a
      nanosecond are left, which round to 120, and the throttle still holds the re-issue back. */
  lemma StayFails(settings: Settings, start: Time) returns (events: seq<Event>)
    requires settings.session.Valid() && start >= MILLISECOND
    requires SECOND / 2 <= settings.session.idleTtl < STAY_WINDOW
    requires settings.session.idleTtl < settings.session.absoluteTtl && HALF_PAST_WARNING <= settings.session.absoluteTtl
    ensures var s := Run(settings, start, events);
            && Warned(settings.session, s) && s.jar.Some?
            && s.jar.value.value.expiresAt - s.now >= HALF_PAST_WARNING
            && Shown(AfterCall(settings.session, s)) != Plenty
  {
    hide Invariant, Warned, AfterCall, EarlyState;
    var cfg := settings.session;
    var acr :| settings.mfaAcr != {} ==> acr in settings.mfaAcr;
    var claims := AcceptedClaims(start, acr);
    var delay := Max(0, cfg.idleTtl - HALF_PAST_WARNING + 1);
    assert ClaimsDenial(settings, claims, start) == None;
    events := EarlyRun(claims, 0, delay, Call, 0);
    EarlyRunState(settings, start, 0, claims, delay, Call, 0);
    ReachableInvariant(settings, start, events);
    EarlyCallWarns(cfg, start, claims, delay);
    EarlyRequest(cfg, start, 0, claims, delay);
    var s := AfterCall(cfg, EarlyState(cfg, start, 0, claims, delay));
    assert Run(settings, start, events) == s.(now := s.now + 0) == s;
    StillWarns(cfg, s, start, claims, delay);
  }

  lemma StillWarns(cfg: Config, s: State, start: Time, claims: Claims, delay: nat)
    requires Invariant(cfg, s) && Warned(cfg, s) && s.jar.Some?
    requires s.now == start + delay && s.jar.value.value == NewSession(cfg, claims.email, "", start)
    requires start >= MILLISECOND && delay < REFRESH_INTERVAL && 0 <= cfg.idleTtl - delay < HALF_PAST_WARNING
    ensures Shown(AfterCall(cfg, s)) != Plenty
  {
    CallClosesWarning(cfg, s, start + cfg.idleTtl);
  }

  /** Reading the deadline with at most 120.5 seconds left shows the warning at once. */
  lemma EarlyCallWarns(cfg: Config, start: Time, claims: Claims, delay: nat)
    requires cfg.Valid() && start >= MILLISECOND && cfg.idleTtl >= SECOND / 2
    requires delay < REFRESH_INTERVAL && SECOND / 2 <= cfg.idleTtl - delay < HALF_PAST_WARNING
    ensures var s := EarlyState(cfg, start, 0, claims, delay);
            var after := AfterCall(cfg, s);
            && Warned(cfg, after) && after.told && after.jar == s.jar && after.now == s.now == start + delay
            && after.client == Some(Millis(s.now) + SecondsUntil(start + cfg.idleTtl, s.now) * 1000)
            && 0 < SecondsUntil(start + cfg.idleTtl, s.now) <= 120
  {
    hide SecondsUntil, KeptSession;
    var s := EarlyState(cfg, start, 0, claims, delay);
    var n := SecondsUntil(start + cfg.idleTtl, s.now);
    EarlyRequest(cfg, start, 0, claims, delay);
    EarlySeconds(start + cfg.idleTtl, s.now);
    EarlyReading(cfg, start, claims, delay);
    CountdownMeaning(Millis(s.now) + n * 1000, Millis(s.now));
  }

  /** What the app stores after its first request. */
  lemma EarlyReading(cfg: Config, start: Time, claims: Claims, delay: nat)
    requires cfg.Valid() && start >= MILLISECOND && cfg.idleTtl >= SECOND / 2
    requires delay < REFRESH_INTERVAL && 2 * (cfg.idleTtl - delay) >= SECOND
    ensures var s := EarlyState(cfg, start, 0, claims, delay);
            var after := AfterCall(cfg, s);
            && after.told && after.jar == s.jar && after.now == s.now == start + delay
            && after.client == Some(Millis(s.now) + SecondsUntil(start + cfg.idleTtl, s.now) * 1000)
  {
    var s := EarlyState(cfg, start, 0, claims, delay);
    EarlyRequest(cfg, start, 0, claims, delay);
    ReadingIsPositive(start + cfg.idleTtl, s.now);
    hide SecondsUntil, KeptSession;
    assert AfterCall(cfg, s).client == Extend(None, Millis(s.now) + SecondsUntil(start + cfg.idleTtl, s.now) * 1000);
  }

  lemma ReadingIsPositive(deadline: Time, now: Time)
    requires now >= MILLISECOND && deadline >= now
    ensures Millis(now) + SecondsUntil(deadline, now) * 1000 > 0
  {
    ReadingBounds(deadline, now);
  }

  lemma EarlySeconds(deadline: Time, now: Time)
    requires SECOND / 2 <= deadline - now < HALF_PAST_WARNING
    ensures 0 < SecondsUntil(deadline, now) <= 120
  {
    SecondsUntilIsNearest(deadline, now);
  }

  // ----- When staying re-issues the cookie -----

  /** A told warning of the idle deadline always leads to a re-issue with the present instant. */
  ghost predicate StayAlwaysReissues(settings: Settings, start: Time) {
    forall events: seq<Event> ::
      var s := Run(settings, start, events);
      Warned(settings.session, s) && s.told
      && s.jar.Some? && s.jar.value.value.lastSeen + settings.session.idleTtl <= s.jar.value.value.expiresAt
      ==> Reissued(AfterCall(settings.session, s))
  }

  predicate Reissued(s: State) {
    s.jar.Some? && s.jar.value.value.lastSeen == s.now
  }

  /** Staying re-issues the cookie, exactly: in every reachable state if and only if the idle window is at least 181
      seconds, or rounds to zero seconds so that nothing ever warns. */
  lemma StayReissuesExactly(settings: Settings, start: Time)
    requires settings.session.Valid() && settings.session.idleTtl > 0 && start >= MILLISECOND
    ensures StayAlwaysReissues(settings, start)
       <==> settings.session.idleTtl >= 181 * SECOND || settings.session.idleTtl < SECOND / 2
  {
    var cfg := settings.session;
    if cfg.idleTtl >= 181 * SECOND || cfg.idleTtl < SECOND / 2 {
      forall events: seq<Event> | var s := Run(settings, start, events);
          Warned(cfg, s) && s.told && s.jar.Some? && s.jar.value.value.lastSeen + cfg.idleTtl <= s.jar.value.value.expiresAt
        ensures Reissued(AfterCall(cfg, Run(settings, start, events)))
      {
        if cfg.idleTtl < SECOND / 2 {
          TinyWindowNeverWarns(settings, start, events);
        } else {
          StayReissues(settings, start, events);
          assert (events + [Call])[..|events|] == events;
        }
      }
    } else {
      var events := StayDoesNotReissue(settings, start);
    }
  }

  /** A warning that was there a nanosecond ago is still there. */
  lemma EarlyCallNotReissued(cfg: Config, start: Time, claims: Claims, delay: nat, pause: nat)
    requires cfg.Valid() && start >= MILLISECOND && cfg.idleTtl >= SECOND / 2
    requires delay < REFRESH_INTERVAL && SECOND / 2 <= cfg.idleTtl - delay < HALF_PAST_WARNING
    requires pause == if delay == 0 then 1 else 0
    ensures var read := AfterCall(cfg, EarlyState(cfg, start, 0, claims, delay));
            var s := read.(now := read.now + pause);
            && Warned(cfg, s) && s.told && s.jar.Some?
            && s.jar.value.value == NewSession(cfg, claims.email, "", start)
            && !Reissued(AfterCall(cfg, s))
  {
    hide KeptSession, SecondsUntil, Extend;
    var read := AfterCall(cfg, EarlyState(cfg, start, 0, claims, delay));
    EarlyCallWarns(cfg, start, claims, delay);
    EarlyRequest(cfg, start, 0, claims, delay);
    EarlyVerdictLater(cfg, start, 0, claims, delay + pause);
    MillisTick(read.now);
    CountdownMeaning(read.client.value, Millis(read.now));
    CountdownMeaning(read.client.value, Millis(read.now + pause));
  }

  lemma MillisTick(t: Time)
    ensures Millis(t) <= Millis(t + 1) <= Millis(t) + 1
  {
  }

  /** The browser still presents the session of the sign-in while at least half a second, or all but a nanosecond of it,
      is left. */
  lemma EarlyVerdictLater(cfg: Config, start: Time, lead: nat, claims: Claims, later: nat)
    requires cfg.Valid() && cfg.idleTtl >= SECOND / 2 && start >= MILLISECOND
    requires later < REFRESH_INTERVAL && (2 * (cfg.idleTtl - later) >= SECOND || later == 1)
    ensures var at := start + lead;
            var data := NewSession(cfg, claims.email, "", at);
            && Sent(KeptSession(cfg, data, at), at + later) == Some(data)
            && Validate(cfg, Sealed(data), at + later) == Ok(data)
            && !Refreshes(cfg, data, at + later)
  {
    var at := start + lead;
    var data := NewSession(cfg, claims.email, "", at);
    BrowserDropsAtDeadline(cfg, data, at);
    assert SecondsUntil(at + cfg.idleTtl, at) >= 1;
  }

  /** A guess taken at the very end of a millisecond, and looked at 60 seconds later by the millisecond clock: 120
      seconds are shown while the throttle has most of a millisecond to go. */
  lemma EarlyDownloadNotReissued(cfg: Config, start: Time, lead: nat, claims: Claims)
    requires cfg.Valid() && start >= MILLISECOND && STAY_WINDOW <= cfg.idleTtl < 181 * SECOND
    requires lead == MILLISECOND - 1 - start % MILLISECOND
    ensures var read := AfterDownload(cfg, EarlyState(cfg, start, lead, claims, 0));
            var s := read.(now := read.now + (REFRESH_INTERVAL - MILLISECOND + 1));
            && Warned(cfg, s) && s.told && s.jar.Some?
            && s.jar.value.value == NewSession(cfg, claims.email, "", start + lead)
            && !Reissued(AfterCall(cfg, s))
  {
    var at, later := start + lead, REFRESH_INTERVAL - MILLISECOND + 1;
    var read := AfterDownload(cfg, EarlyState(cfg, start, lead, claims, 0));
    EarlyRequest(cfg, start, lead, claims, 0);
    EarlyVerdictLater(cfg, start, lead, claims, later);
    GuessBounds(cfg, at);
    EndOfMillisecond(start);
    assert IdleSeconds(cfg) == 180;
    assert read.client == Some(Millis(at) + 180_000);
    CountdownMeaning(Millis(at) + 180_000, Millis(at + later));
  }

  lemma EndOfMillisecond(start: Time)
    ensures var at := start + (MILLISECOND - 1 - start % MILLISECOND);
            Millis(at + (REFRESH_INTERVAL - MILLISECOND + 1)) == Millis(at) + 60_000
  {
    var n := start / MILLISECOND;
    var at := start + (MILLISECOND - 1 - start % MILLISECOND);
    assert at == n * MILLISECOND + MILLISECOND - 1;
    assert at + (REFRESH_INTERVAL - MILLISECOND + 1) == (n + 60_000) * MILLISECOND;
  }

  /** A told warning within the throttle: from a reading that rounds down, or from a download's guess in whole seconds
      and milliseconds. */
  lemma StayDoesNotReissue(settings: Settings, start: Time) returns (events: seq<Event>)
    requires settings.session.Valid() && start >= MILLISECOND
    requires SECOND / 2 <= settings.session.idleTtl < 181 * SECOND
    ensures var s := Run(settings, start, events);
            && Warned(settings.session, s) && s.told && s.jar.Some?
            && s.jar.value.value.lastSeen + settings.session.idleTtl <= s.jar.value.value.expiresAt
            && !Reissued(AfterCall(settings.session, s))
  {
    hide Warned, Reissued, AfterCall, EarlyState;
    var cfg := settings.session;
    var acr :| settings.mfaAcr != {} ==> acr in settings.mfaAcr;
    if cfg.idleTtl < STAY_WINDOW {
      var claims := AcceptedClaims(start, acr);
      var delay := Max(0, cfg.idleTtl - HALF_PAST_WARNING + 1);
      var pause := if delay == 0 then 1 else 0;
      assert ClaimsDenial(settings, claims, start) == None;
      events := EarlyRun(claims, 0, delay, Call, pause);
      EarlyRunState(settings, start, 0, claims, delay, Call, pause);
      EarlyCallNotReissued(cfg, start, claims, delay, pause);
    } else {
      var lead := MILLISECOND - 1 - start % MILLISECOND;
      var pause := REFRESH_INTERVAL - MILLISECOND + 1;
      var claims := AcceptedClaims(start + lead, acr);
      assert ClaimsDenial(settings, claims, start + lead) == None;
      events := EarlyRun(claims, lead, 0, Download, pause);
      EarlyRunState(settings, start, lead, claims, 0, Download, pause);
      EarlyDownloadNotReissued(cfg, start, lead, claims);
    }
  }

  /** Why the app must have been told: a tab still warning of the session before a new sign-in shows a deadline that is
      not the cookie's, and staying does not re-issue the fresh cookie. */
  lemma StaleWarning(settings: Settings, start: Time) returns (events: seq<Event>)
    requires settings.session.Valid() && settings.session.idleTtl >= 181 * SECOND && start >= MILLISECOND
    ensures var s := Run(settings, start, events);
            && Warned(settings.session, s) && !s.told && s.jar.Some?
            && s.jar.value.value.lastSeen + settings.session.idleTtl <= s.jar.value.value.expiresAt
            && !Reissued(AfterCall(settings.session, s))
  {
    hide Warned, Reissued, AfterCall, EarlyState, AfterSignIn;
    var cfg := settings.session;
    var acr :| settings.mfaAcr != {} ==> acr in settings.mfaAcr;
    var claims := AcceptedClaims(start, acr);
    var n := SecondsUntil(start + cfg.idleTtl, start);
    SecondsUntilIsNearest(start + cfg.idleTtl, start);
    hide SecondsUntil, Extend, KeptSession;
    var pause := (n - 120) * SECOND;
    assert ClaimsDenial(settings, claims, start) == None && ClaimsDenial(settings, claims, start + pause) == None;
    var early := EarlyRun(claims, 0, 0, Call, pause);
    EarlyRunState(settings, start, 0, claims, 0, Call, pause);
    EarlyReading(cfg, start, claims, 0);
    events := early + [SignIn(claims, "")] + [Wait(SECOND)];
    RunAppend(settings, start, early, SignIn(claims, ""));
    RunAppend(settings, start, early + [SignIn(claims, "")], Wait(SECOND));
    var s := Run(settings, start, early);
    hide Run;
    SignedInAgain(settings, s, claims, start, n);
  }

  lemma RunAppend(settings: Settings, start: Time, events: seq<Event>, event: Event)
    ensures Run(settings, start, events + [event]) == Step(settings, Run(settings, start, events), event)
  {
    assert (events + [event])[..|events|] == events;
  }

  lemma SignedInAgain(settings: Settings, s: State, claims: Claims, start: Time, n: int)
    requires settings.session.Valid() && settings.session.idleTtl >= 181 * SECOND && start >= MILLISECOND
    requires s.now == start + (n - 120) * SECOND >= start && s.client == Some(Millis(start) + n * 1000)
    requires ClaimsDenial(settings, claims, s.now) == None
    ensures var again := AfterSignIn(settings, s, claims, "");
            var later := again.(now := again.now + SECOND);
            && Warned(settings.session, later) && !later.told && later.jar.Some?
            && later.jar.value.value.lastSeen + settings.session.idleTtl <= later.jar.value.value.expiresAt
            && !Reissued(AfterCall(settings.session, later))
  {
    var cfg := settings.session;
    var data := NewSession(cfg, claims.email, "", s.now);
    BrowserDropsAtDeadline(cfg, data, s.now);
    MillisAhead(start, n - 119);
    CountdownMeaning(s.client.value, Millis(s.now + SECOND));
  }

  lemma MillisAhead(t: Time, n: int)
    ensures Millis(t + n * SECOND) == Millis(t) + n * 1000
  {
    assert t + n * SECOND == t + (n * 1000) * MILLISECOND;
  }

  // ----- The stored deadline itself -----

  /** Only a start-up ever takes the stored deadline away or back. */
  lemma DeadlineOnlyForward(settings: Settings, s: State, event: Event)
    requires event != StartUp && s.client.Some?
    ensures Step(settings, s, event).client.Some? && Step(settings, s, event).client.value >= s.client.value
  {
  }

  /** Over any run without a start-up. */
  lemma {:induction false} RunOnlyForward(settings: Settings, start: Time, before: seq<Event>, events: seq<Event>)
    requires StartUp !in events && Run(settings, start, before).client.Some?
    ensures var later := Run(settings, start, before + events).client;
            later.Some? && later.value >= Run(settings, start, before).client.value
    decreases |events|
  {
    if events == [] {
      assert before + events == before;
    } else {
      var init, last := events[..|events| - 1], events[|events| - 1];
      assert before + events == (before + init) + [last];
      RunOnlyForward(settings, start, before, init);
      RunAppend(settings, start, before + init, last);
      DeadlineOnlyForward(settings, Run(settings, start, before + init), last);
    }
  }
}
