/** One gateway, one browser running the single-page app, and anyone replaying cookies the gateway once
    issued: the sign-in, activity and deadline protocol over whole runs. */
module Protocol {
  import opened Wrappers
  import opened Session
  import opened Http
  import opened Gateway
  import opened Oidc
  import opened ClientDeadline

  /** The gateway's history. A served request records which entry issued the cookie it presented and
      the session it leaves behind. */
  datatype Entry =
    | SignedIn(at: Time, authTime: int, session: SessionData)
    | Served(at: Time, source: nat, session: SessionData)

  /** The clock, the browser's session cookie and the entry that issued it, the app's stored deadline,
      and the history. lastRequest is the browser's latest accepted request or sign-in, lastUnread its
      latest accepted download; told says that the app has learned a deadline since the sign-in. */
  datatype State = State(
    now: Time,
    jar: Option<Held<SessionData>>,
    source: nat,
    client: Option<int>,
    log: seq<Entry>,
    lastRequest: Time,
    lastUnread: Time,
    told: bool)

  /** Call is a request whose response the app reads; Download is one it cannot read; Replay presents
      the cookie some entry issued, outside this browser. */
  datatype Event =
    | Wait(ns: nat)
    | SignIn(claims: Claims, idToken: string)
    | Call
    | Download
    | Replay(entry: nat)
    | SignOut
    | StartUp

  /** Date.now(). */
  function Millis(now: Time): int {
    now / MILLISECOND
  }

  /** The idle TTL as the app is told it, in whole seconds. */
  function IdleSeconds(cfg: Config): int {
    cfg.idleTtl / SECOND
  }

  function Start(at: Time): State {
    State(at, None, 0, None, [], at, at, false)
  }

  function Verdict(cfg: Config, s: State): Result<SessionData, SessionError> {
    match Sent(s.jar, s.now)
    case Some(data) => Validate(cfg, Sealed(data), s.now)
    case None => Validate(cfg, Absent, s.now)
  }

  function AfterSignIn(settings: Settings, s: State, claims: Claims, idToken: string): State {
    if ClaimsDenial(settings, claims, s.now).Some? then s
    else
      var data := NewSession(settings.session, claims.email, idToken, s.now);
      s.(jar := KeptSession(settings.session, data, s.now),
         source := |s.log|,
         log := s.log + [SignedIn(s.now, claims.authTime, data)],
         lastRequest := s.now,
         told := false)
  }

  /** The browser's request and the response's cookies; the stored deadline is not touched. */
  function AfterRequest(cfg: Config, s: State): State {
    match Verdict(cfg, s)
    case Err(_) => s.(jar := None)
    case Ok(data) =>
      var touched := Touch(cfg, data, s.now);
      var reissued := Refreshes(cfg, data, s.now);
      s.(jar := if reissued then KeptSession(cfg, touched, s.now) else s.jar,
         source := if reissued then |s.log| else s.source,
         log := s.log + [Served(s.now, s.source, touched)],
         lastRequest := s.now)
  }

  function AfterCall(cfg: Config, s: State): State {
    var served := AfterRequest(cfg, s);
    match Verdict(cfg, s)
    case Err(_) => served.(client := AfterHeader(s.client, Missing, Millis(s.now)))
    case Ok(data) =>
      var header := Seconds(Advertised(cfg, Touch(cfg, data, s.now), s.now));
      served.(client := AfterHeader(s.client, header, Millis(s.now)), told := true)
  }

  function AfterDownload(cfg: Config, s: State): State {
    var served := AfterRequest(cfg, s);
    var noted := served.(client := AfterUnread(s.client, IdleSeconds(cfg), Millis(s.now)));
    if Verdict(cfg, s).Ok? then noted.(lastUnread := s.now, told := s.told || IdleSeconds(cfg) > 0) else noted
  }

  function AfterReplay(cfg: Config, s: State, entry: nat): State {
    if entry >= |s.log| then s
    else
      match Validate(cfg, Sealed(s.log[entry].session), s.now)
      case Err(_) => s
      case Ok(data) => s.(log := s.log + [Served(s.now, entry, Touch(cfg, data, s.now))])
  }

  function Step(settings: Settings, s: State, event: Event): State {
    match event
    case Wait(ns) => s.(now := s.now + ns)
    case SignIn(claims, idToken) => AfterSignIn(settings, s, claims, idToken)
    case Call => AfterCall(settings.session, s)
    case Download => AfterDownload(settings.session, s)
    case Replay(entry) => AfterReplay(settings.session, s, entry)
    case SignOut => s.(jar := None)
    case StartUp => s.(client := AfterStartUp(s.client, Millis(s.now)))
  }

  function Run(settings: Settings, start: Time, events: seq<Event>): State {
    if events == [] then Start(start)
    else Step(settings, Run(settings, start, events[..|events| - 1]), events[|events| - 1])
  }

  /** The history has an entry for every accepted request, whoever sent it, and for every sign-in, and for nothing else. */
  lemma AcceptedIsLogged(settings: Settings, s: State, event: Event)
    ensures var cfg, log, after := settings.session, s.log, Step(settings, s, event).log;
            match event
            case SignIn(claims, idToken) =>
              if ClaimsDenial(settings, claims, s.now).Some? then after == log
              else |after| == |log| + 1 && log <= after && after[|log|].SignedIn? && after[|log|].at == s.now
                   && after[|log|].authTime == claims.authTime && after[|log|].session.email == claims.email
                   && after[|log|].session.idToken == idToken
            case Replay(i) =>
              if i >= |log| || Validate(cfg, Sealed(log[i].session), s.now).Err? then after == log
              else after == log + [Served(s.now, i, Touch(cfg, log[i].session, s.now))]
            case Wait(_) => after == log
            case SignOut => after == log
            case StartUp => after == log
            case _ =>
              if s.jar == None || (s.jar.value.dropAfter.Some? && s.now > s.jar.value.dropAfter.value)
                 || Validate(cfg, Sealed(s.jar.value.value), s.now).Err? then after == log
              else after == log + [Served(s.now, s.source, Touch(cfg, s.jar.value.value, s.now))]
  {
  }

  /** What moves the app's stored deadline: the seconds of an accepted response, a full window for a download, which it
      cannot read, and a start-up that finds it passed. */
  lemma AppLearns(settings: Settings, s: State, event: Event)
    ensures var cfg, client, after := settings.session, s.client, Step(settings, s, event).client;
            match event
            case Call =>
              if Verdict(cfg, s).Err? then after == client
              else after == Extend(client, s.now / 1_000_000
                                           + SecondsUntil(SessionDeadline(cfg, Touch(cfg, Verdict(cfg, s).value, s.now)), s.now) * 1000)
            case Download =>
              if cfg.idleTtl / SECOND <= 0 then after == client
              else after == Extend(client, s.now / 1_000_000 + cfg.idleTtl / SECOND * 1000)
            case StartUp =>
              if client.Some? && client.value <= s.now / 1_000_000 then after == None else after == client
            case _ => after == client
  {
  }

  // ----- Every accepted request descends from a fresh sign-in -----

  /** Entry i was produced by the gateway's rules from an earlier entry. */
  predicate Sound(settings: Settings, log: seq<Entry>, i: nat)
    requires i < |log|
  {
    var cfg := settings.session;
    match log[i]
    case SignedIn(at, authTime, session) =>
      && (cfg.idleTtl > 0 ==> authTime != 0 && at - authTime * SECOND <= cfg.idleTtl + 30 * SECOND)
      && session.issuedAt == session.lastSeen == at && session.expiresAt == at + cfg.absoluteTtl
    case Served(at, source, session) =>
      && source < i
      && log[source].at <= at
      && Validate(cfg, Sealed(log[source].session), at).Ok?
      && session == Touch(cfg, log[source].session, at)
  }

  predicate SoundLog(settings: Settings, log: seq<Entry>, now: Time) {
    forall i :: 0 <= i < |log| ==> Sound(settings, log, i) && ZERO_TIME < log[i].at <= now
  }

  /** Entry to is a request served to entry from's session, later in the history and no more than the
      idle window after it. */
  predicate Link(cfg: Config, log: seq<Entry>, from: nat, to: nat) {
    && from < to < |log|
    && log[to].Served?
    && log[to].session.SameSession(log[from].session)
    && 0 <= log[to].at - log[from].at <= cfg.idleTtl
  }

  /** A sign-in whose authentication was fresh, then requests linked one to the next. */
  predicate Chain(cfg: Config, log: seq<Entry>, chain: seq<nat>) {
    && |chain| > 0
    && chain[0] < |log|
    && log[chain[0]].SignedIn?
    && log[chain[0]].authTime != 0
    && log[chain[0]].at - log[chain[0]].authTime * SECOND <= cfg.idleTtl + 30 * SECOND
    && forall k :: 0 <= k < |chain| - 1 ==> Link(cfg, log, chain[k], chain[k + 1])
  }

  predicate Backward(log: seq<Entry>) {
    forall i :: 0 <= i < |log| && log[i].Served? ==> log[i].source < i
  }

  /** The entry whose instant the session's stored activity is: where the last re-issue happened. */
  function Anchor(cfg: Config, log: seq<Entry>, i: nat): (a: nat)
    requires i < |log| && Backward(log)
    ensures a <= i
    decreases i
  {
    if log[i].SignedIn? || Refreshes(cfg, log[log[i].source].session, log[i].at) then i
    else Anchor(cfg, log, log[i].source)
  }

  /** The chain that ends at entry i. */
  function ChainTo(cfg: Config, log: seq<Entry>, i: nat): seq<nat>
    requires i < |log| && Backward(log)
    decreases i
  {
    if log[i].SignedIn? then [i] else ChainTo(cfg, log, Anchor(cfg, log, log[i].source)) + [i]
  }

  /** The stored activity is the instant of the anchor, in the same session. */
  lemma {:induction false} AnchorMeaning(settings: Settings, log: seq<Entry>, now: Time, i: nat)
    requires SoundLog(settings, log, now) && Backward(log) && i < |log|
    ensures var a := Anchor(settings.session, log, i);
            && log[a].at == log[i].session.LastActivity() <= log[i].at
            && log[a].session == log[i].session
    decreases i
  {
    assert Sound(settings, log, i) && ZERO_TIME < log[i].at;
    if log[i].Served? {
      AnchorMeaning(settings, log, now, log[i].source);
    }
  }

  /** One more accepted request of the session extends the chain. */
  lemma ExtendChain(cfg: Config, log: seq<Entry>, chain: seq<nat>, i: nat)
    requires Chain(cfg, log, chain) && Link(cfg, log, chain[|chain| - 1], i)
    ensures Chain(cfg, log, chain + [i])
  {
    var longer := chain + [i];
    forall k | 0 <= k < |longer| - 1 ensures Link(cfg, log, longer[k], longer[k + 1]) {
      if k < |chain| - 1 {
        assert Link(cfg, log, chain[k], chain[k + 1]);
      }
    }
  }

  lemma {:induction false} ChainEndsAt(settings: Settings, log: seq<Entry>, now: Time, i: nat)
    requires settings.session.Valid() && settings.session.idleTtl > 0
    requires SoundLog(settings, log, now) && Backward(log) && i < |log|
    ensures var chain := ChainTo(settings.session, log, i);
            && Chain(settings.session, log, chain) && chain[|chain| - 1] == i
            && log[i].session.SameSession(log[chain[0]].session)
            && log[i].session.expiresAt == log[chain[0]].at + settings.session.absoluteTtl
            && log[i].at <= log[i].session.expiresAt
    decreases i
  {
    assert Sound(settings, log, i);
    if log[i].Served? {
      var cfg := settings.session;
      var a := Anchor(cfg, log, log[i].source);
      AnchorMeaning(settings, log, now, log[i].source);
      ChainEndsAt(settings, log, now, a);
      ExtendChain(cfg, log, ChainTo(cfg, log, a), i);
    }
  }

  /** The history stays sound and the browser's cookie is always one that some entry issued. */
  predicate LogInvariant(settings: Settings, s: State) {
    && SoundLog(settings, s.log, s.now)
    && Backward(s.log)
    && s.now > ZERO_TIME
    && (s.jar.Some? ==> s.source < |s.log| && s.log[s.source].session == s.jar.value.value)
  }

  lemma AppendSound(settings: Settings, log: seq<Entry>, now: Time, entry: Entry)
    requires SoundLog(settings, log, now) && Backward(log) && ZERO_TIME < entry.at <= now
    requires entry.Served? ==> entry.source < |log|
    requires Sound(settings, log + [entry], |log|)
    ensures SoundLog(settings, log + [entry], now) && Backward(log + [entry])
  {
    forall i | 0 <= i < |log| ensures Sound(settings, log + [entry], i) && ZERO_TIME < (log + [entry])[i].at <= now {
      assert Sound(settings, log, i);
    }
  }

  lemma StepKeepsLog(settings: Settings, s: State, event: Event)
    requires LogInvariant(settings, s)
    ensures LogInvariant(settings, Step(settings, s, event))
  {
    match event {
      case Wait(ns) => WaitKeepsLog(settings, s, ns);
      case SignIn(claims, idToken) => SignInKeepsLog(settings, s, claims, idToken);
      case Call => RequestKeepsLog(settings, s);
      case Download => RequestKeepsLog(settings, s);
      case Replay(entry) => ReplayKeepsLog(settings, s, entry);
      case SignOut =>
      case StartUp =>
    }
  }

  lemma WaitKeepsLog(settings: Settings, s: State, ns: nat)
    requires LogInvariant(settings, s)
    ensures LogInvariant(settings, s.(now := s.now + ns))
  {
    forall i | 0 <= i < |s.log| ensures Sound(settings, s.log, i) && ZERO_TIME < s.log[i].at <= s.now + ns {
    }
  }

  lemma SignInKeepsLog(settings: Settings, s: State, claims: Claims, idToken: string)
    requires LogInvariant(settings, s)
    ensures LogInvariant(settings, AfterSignIn(settings, s, claims, idToken))
  {
    if ClaimsDenial(settings, claims, s.now).None? {
      var data := NewSession(settings.session, claims.email, idToken, s.now);
      AppendSound(settings, s.log, s.now, SignedIn(s.now, claims.authTime, data));
    }
  }

  lemma ReplayKeepsLog(settings: Settings, s: State, entry: nat)
    requires LogInvariant(settings, s)
    ensures LogInvariant(settings, AfterReplay(settings.session, s, entry))
  {
    var cfg := settings.session;
    if entry < |s.log| && Validate(cfg, Sealed(s.log[entry].session), s.now).Ok? {
      AppendSound(settings, s.log, s.now, Served(s.now, entry, Touch(cfg, s.log[entry].session, s.now)));
    }
  }

  lemma RequestKeepsLog(settings: Settings, s: State)
    requires LogInvariant(settings, s)
    ensures LogInvariant(settings, AfterRequest(settings.session, s))
  {
    var cfg := settings.session;
    if Verdict(cfg, s).Ok? {
      AppendSound(settings, s.log, s.now, Served(s.now, s.source, Touch(cfg, Verdict(cfg, s).value, s.now)));
    }
  }

  lemma {:induction false} LogIsSound(settings: Settings, start: Time, events: seq<Event>)
    requires start > ZERO_TIME
    ensures LogInvariant(settings, Run(settings, start, events))
  {
    if events != [] {
      var before := events[..|events| - 1];
      LogIsSound(settings, start, before);
      StepKeepsLog(settings, Run(settings, start, before), events[|events| - 1]);
    }
  }

  /** Every sign-in of a run rests on an authentication that is known and at most the idle window and half a minute old. */
  lemma SignInsAreRecent(settings: Settings, start: Time, events: seq<Event>, i: nat)
    requires settings.session.idleTtl > 0 && start > ZERO_TIME
    requires i < |Run(settings, start, events).log| && Run(settings, start, events).log[i].SignedIn?
    ensures var entry := Run(settings, start, events).log[i];
            entry.authTime != 0 && entry.at - entry.authTime * SECOND <= settings.session.idleTtl + 30 * SECOND
  {
    LogIsSound(settings, start, events);
    assert Sound(settings, Run(settings, start, events).log, i);
  }

  /** No quiet period is silently undone. With the idle timeout on, every request the gateway accepts in
      any run, replays of old cookies included, is the end of a chain that starts at a sign-in whose
      authentication was at most the idle window and the leeway old, and continues through accepted
      requests of that session with no gap beyond the idle window; and it falls within the absolute
      lifetime of that sign-in. */
  lemma NoQuietPeriodUndone(settings: Settings, start: Time, events: seq<Event>, i: nat)
    requires settings.session.Valid() && settings.session.idleTtl > 0 && start > ZERO_TIME
    requires i < |Run(settings, start, events).log|
    ensures var log := Run(settings, start, events).log;
            exists chain: seq<nat> ::
              && Chain(settings.session, log, chain)
              && log[chain[0]].authTime != 0
              && log[chain[0]].at - log[chain[0]].authTime * SECOND <= settings.session.idleTtl + 30 * SECOND
              && chain[|chain| - 1] == i
              && log[i].session.SameSession(log[chain[0]].session)
              && log[i].at <= log[chain[0]].at + settings.session.absoluteTtl
  {
    LogIsSound(settings, start, events);
    var s := Run(settings, start, events);
    ChainEndsAt(settings, s.log, s.now, i);
  }

  /** A cookie that outlives its session: with the idle window as long as the lifetime, a request in the last half second
      re-issues the cookie with a Max-Age that rounds to zero and is left out, and the browser keeps it for good. */
  lemma CookieOutlivesSession(settings: Settings, start: Time, claims: Claims, idToken: string)
    requires settings.session.idleTtl == settings.session.absoluteTtl >= REFRESH_INTERVAL + SECOND && start > ZERO_TIME
    requires ClaimsDenial(settings, claims, start) == None
    ensures var cfg := settings.session;
            var almost := cfg.absoluteTtl - SECOND / 2 + 1;
            var s := Run(settings, start, [SignIn(claims, idToken), Wait(almost), Call]);
            && s.jar.Some? && s.jar.value.value.lastSeen == s.now == start + almost
            && s.jar.value.dropAfter == None
            && (forall t :: Sent(s.jar, t) == Some(s.jar.value.value))
            && (forall t :: t > start + cfg.absoluteTtl ==>
                  Validate(cfg, Sealed(s.jar.value.value), t) == Err(SessionExpired))
  {
    var cfg := settings.session;
    var almost := cfg.absoluteTtl - SECOND / 2 + 1;
    var events := [SignIn(claims, idToken), Wait(almost), Call];
    assert events[..2][..1] == events[..1] && Run(settings, start, events[..1][..0]) == Start(start);
    assert Run(settings, start, events[..1]) == AfterSignIn(settings, Start(start), claims, idToken);
    LastMomentRequest(cfg, Run(settings, start, events[..2]), start, NewSession(cfg, claims.email, idToken, start));
  }

  lemma LastMomentRequest(cfg: Config, s: State, start: Time, data: SessionData)
    requires cfg.idleTtl == cfg.absoluteTtl >= REFRESH_INTERVAL + SECOND && start > ZERO_TIME
    requires data == NewSession(cfg, data.email, data.idToken, start) && s.jar == KeptSession(cfg, data, start)
    requires s.now == start + cfg.absoluteTtl - SECOND / 2 + 1
    ensures var after := AfterCall(cfg, s); after.jar == Some(Held(data.(lastSeen := s.now), None)) && after.now == s.now
  {
    hide SecondsUntil;
    BrowserDropsAtDeadline(cfg, data, start);
    BrowserDropsAtDeadline(cfg, data.(lastSeen := s.now), s.now);
  }
}
