/** How far the idle window slides for a browser, which drops the cookie when its Max-Age, a whole number of seconds, is
    over (internal/auth/middleware.go, internal/auth/session.go). */
module BrowserWindow {
  import opened Wrappers
  import opened Session
  import opened Http
  import opened Gateway
  import opened Oidc
  import opened Protocol
  import opened SlidingWindow

  /** The protocol's state after some requests, or the time and reason of the first refusal. */
  datatype Visit = Served(state: State) | Refused(at: Time, error: SessionError)

  function Visits(cfg: Config, s: State, requests: seq<Time>): Visit
    decreases |requests|
  {
    if requests == [] then Visit.Served(s)
    else
      var now := s.(now := requests[0]);
      match Verdict(cfg, now)
      case Err(error) => Refused(requests[0], error)
      case Ok(_) => Visits(cfg, AfterRequest(cfg, now), requests[1..])
  }

  /** How long after a re-issue the cookie is both held and accepted: a window that rounds down is cut short by its
      Max-Age, and one that rounds to zero has none. */
  function Window(cfg: Config): Duration {
    var rounded := RoundToSecond(cfg.idleTtl);
    if rounded == 0 then cfg.idleTtl else Min(cfg.idleTtl, rounded)
  }

  function LongestBrowserGap(cfg: Config): Duration {
    if cfg.idleTtl < REFRESH_INTERVAL then 0 else Window(cfg) - REFRESH_INTERVAL + 1
  }

  /** A refusal while at least half a second of the absolute lifetime is left. */
  predicate TooEarly(visit: Visit, expiresAt: Time) {
    visit.Refused? && 2 * (expiresAt - visit.at) >= SECOND
  }

  /** No browser whose requests are so close together is refused before the last half second, counting from the sign-in. */
  ghost predicate BrowserGapSafe(cfg: Config, s: State, expiresAt: Time, gap: Duration) {
    forall requests: seq<Time> :: Paced(s.now, requests, gap) ==> !TooEarly(Visits(cfg, s, requests), expiresAt)
  }

  /** The browser holds the cookie that the latest re-issue set, and no request since was a minute later. */
  predicate Holds(cfg: Config, s: State, data: SessionData) {
    && cfg.Valid() && 0 < cfg.idleTtl && ZERO_TIME < data.lastSeen <= SessionDeadline(cfg, data)
    && s.jar == KeptSession(cfg, data, data.lastSeen)
  }

  /** Rounding is determined by the difference alone. */
  lemma MaxAgeOfWindow(cfg: Config, data: SessionData)
    requires cfg.idleTtl > 0
    ensures SecondsUntil(data.lastSeen + cfg.idleTtl, data.lastSeen) * SECOND == RoundToSecond(cfg.idleTtl)
    ensures RoundToSecond(cfg.idleTtl) >= 0
  {
  }

  /** Within the window the cookie is sent and accepted. */
  lemma InWindow(cfg: Config, s: State, data: SessionData)
    requires Holds(cfg, s, data) && data.lastSeen <= s.now <= data.lastSeen + Window(cfg)
    requires 2 * (data.expiresAt - s.now) >= SECOND
    ensures Verdict(cfg, s) == Ok(data)
  {
    MaxAgeOfWindow(cfg, data);
    BrowserDropsAtDeadline(cfg, data, data.lastSeen);
  }

  /** Just past it, it is not. */
  lemma PastWindow(cfg: Config, s: State, data: SessionData)
    requires Holds(cfg, s, data) && s.now > data.lastSeen + Window(cfg)
    requires data.lastSeen + cfg.idleTtl <= data.expiresAt
    ensures Verdict(cfg, s).Err?
  {
    MaxAgeOfWindow(cfg, data);
  }

  lemma RequestHolds(cfg: Config, s: State, data: SessionData)
    requires Holds(cfg, s, data) && Verdict(cfg, s) == Ok(data) && data.lastSeen <= s.now
    ensures Holds(cfg, AfterRequest(cfg, s), Touch(cfg, data, s.now))
  {
  }

  lemma {:induction false} RefusedLater(cfg: Config, s: State, requests: seq<Time>, gap: Duration)
    requires Paced(s.now, requests, gap)
    ensures Visits(cfg, s, requests).Refused? ==> Visits(cfg, s, requests).at >= s.now
    decreases |requests|
  {
    var now := if requests == [] then s else s.(now := requests[0]);
    if requests != [] && Verdict(cfg, now).Ok? {
      RefusedLater(cfg, AfterRequest(cfg, now), requests[1..], gap);
    }
  }

  /** One request in time and in the window is served; one in the last half second may be refused. */
  lemma NextRequest(cfg: Config, s: State, data: SessionData, requests: seq<Time>, gap: Duration)
    requires Holds(cfg, s, data) && data.lastSeen <= s.now && requests != [] && Paced(s.now, requests, gap)
    requires 2 * (data.expiresAt - requests[0]) >= SECOND ==> requests[0] <= data.lastSeen + Window(cfg)
    ensures var now := s.(now := requests[0]);
            && (2 * (data.expiresAt - requests[0]) < SECOND ==> !TooEarly(Visits(cfg, s, requests), data.expiresAt))
            && (2 * (data.expiresAt - requests[0]) >= SECOND ==>
                  && Visits(cfg, s, requests) == Visits(cfg, AfterRequest(cfg, now), requests[1..])
                  && Holds(cfg, AfterRequest(cfg, now), Touch(cfg, data, requests[0]))
                  && AfterRequest(cfg, now).now == requests[0])
  {
    var now := s.(now := requests[0]);
    if 2 * (data.expiresAt - requests[0]) < SECOND {
      if Verdict(cfg, now).Ok? {
        RefusedLater(cfg, AfterRequest(cfg, now), requests[1..], gap);
      }
    } else {
      InWindow(cfg, now, data);
      RequestHolds(cfg, now, data);
    }
  }

  lemma {:induction false} BrowserWindowSlides(cfg: Config, s: State, data: SessionData, requests: seq<Time>, gap: Duration)
    requires Holds(cfg, s, data) && cfg.idleTtl >= REFRESH_INTERVAL && gap <= LongestBrowserGap(cfg)
    requires data.lastSeen <= s.now < data.lastSeen + REFRESH_INTERVAL && Paced(s.now, requests, gap)
    ensures !TooEarly(Visits(cfg, s, requests), data.expiresAt)
    decreases |requests|
  {
    if requests != [] {
      NextRequest(cfg, s, data, requests, gap);
      if 2 * (data.expiresAt - requests[0]) >= SECOND {
        BrowserWindowSlides(cfg, AfterRequest(cfg, s.(now := requests[0])), Touch(cfg, data, requests[0]), requests[1..], gap);
      }
    }
  }

  /** Requests at the instant of the sign-in are served whatever the window. */
  lemma {:induction false} AtOnce(cfg: Config, s: State, data: SessionData, requests: seq<Time>, gap: Duration)
    requires Holds(cfg, s, data) && gap <= 0 && data.lastSeen == s.now && Paced(s.now, requests, gap)
    ensures !TooEarly(Visits(cfg, s, requests), data.expiresAt)
    decreases |requests|
  {
    if requests != [] {
      MaxAgeOfWindow(cfg, data);
      NextRequest(cfg, s, data, requests, gap);
      if 2 * (data.expiresAt - requests[0]) >= SECOND {
        AtOnce(cfg, AfterRequest(cfg, s.(now := requests[0])), data, requests[1..], gap);
      }
    }
  }

  /** Where the lifetime is over before the first window, give or take half a second, any pace is served. */
  lemma {:induction false} LifetimeComesFirst(cfg: Config, s: State, data: SessionData, requests: seq<Time>, gap: Duration)
    requires Holds(cfg, s, data) && data.expiresAt - SECOND / 2 <= data.lastSeen + Window(cfg)
    requires data.lastSeen <= s.now && Paced(s.now, requests, gap)
    ensures !TooEarly(Visits(cfg, s, requests), data.expiresAt)
    decreases |requests|
  {
    if requests != [] {
      NextRequest(cfg, s, data, requests, gap);
      if 2 * (data.expiresAt - requests[0]) >= SECOND {
        LifetimeComesFirst(cfg, AfterRequest(cfg, s.(now := requests[0])), Touch(cfg, data, requests[0]), requests[1..], gap);
      }
    }
  }

  /** A browser that is busy inside the throttle and then comes back just past the window. */
  lemma {:induction false} BusyThenPast(cfg: Config, s: State, data: SessionData, from: Time, until: Time, last: Time,
                                       gap: Duration)
    requires Holds(cfg, s, data) && data.lastSeen + cfg.idleTtl <= data.expiresAt
    requires data.lastSeen <= s.now == from - 1 <= until < data.lastSeen + REFRESH_INTERVAL
    requires until <= data.lastSeen + Window(cfg) && last == data.lastSeen + Window(cfg) + 1
    requires 2 * (data.expiresAt - last) >= SECOND
    requires gap >= 1 && last - until <= gap
    ensures Visits(cfg, s, Ticks(from, until) + [last]).Refused? && Visits(cfg, s, Ticks(from, until) + [last]).at == last
    decreases until - from + 1
  {
    var requests := Ticks(from, until) + [last];
    TicksArePaced(from, until, last, gap);
    if from > until {
      assert requests == [last];
      PastWindow(cfg, s.(now := last), data);
    } else {
      assert requests[0] == from && requests[1..] == Ticks(from + 1, until) + [last];
      NextRequest(cfg, s, data, requests, gap);
      BusyThenPast(cfg, AfterRequest(cfg, s.(now := from)), data, from + 1, until, last, gap);
    }
  }

  lemma BrowserGapTooLong(cfg: Config, s: State, data: SessionData, gap: Duration) returns (requests: seq<Time>)
    requires Holds(cfg, s, data) && s.now == data.lastSeen && data.expiresAt == data.lastSeen + cfg.absoluteTtl
    requires gap > LongestBrowserGap(cfg) && cfg.absoluteTtl - SECOND / 2 > Window(cfg)
    ensures Paced(s.now, requests, gap) && TooEarly(Visits(cfg, s, requests), data.expiresAt)
  {
    MaxAgeOfWindow(cfg, data);
    var busy := Min(Window(cfg), REFRESH_INTERVAL - 1);
    var last := data.lastSeen + Window(cfg) + 1;
    requests := Ticks(s.now + 1, s.now + busy) + [last];
    TicksArePaced(s.now + 1, s.now + busy, last, gap);
    BusyThenPast(cfg, s, data, s.now + 1, s.now + busy, last, gap);
  }

  /** The window of a browser, exactly: from any sign-in, gaps of at most g are never refused before the last half second
      of the lifetime if and only if g leaves the throttle's minute (less a nanosecond) of the window unused, a window
      that rounds down counting as rounded; or the lifetime is over before the first window could be. */
  lemma BrowserGapSafeExactly(settings: Settings, s: State, claims: Claims, idToken: string, gap: Duration)
    requires settings.session.Valid() && settings.session.idleTtl > 0 && s.now > ZERO_TIME
    requires ClaimsDenial(settings, claims, s.now) == None
    ensures var cfg := settings.session;
            BrowserGapSafe(cfg, AfterSignIn(settings, s, claims, idToken), s.now + cfg.absoluteTtl, gap)
            <==> gap <= LongestBrowserGap(cfg) || cfg.absoluteTtl - SECOND / 2 <= Window(cfg)
  {
    var cfg := settings.session;
    var data := NewSession(cfg, claims.email, idToken, s.now);
    var signedIn := AfterSignIn(settings, s, claims, idToken);
    if gap <= LongestBrowserGap(cfg) || cfg.absoluteTtl - SECOND / 2 <= Window(cfg) {
      forall requests: seq<Time> | Paced(s.now, requests, gap)
        ensures !TooEarly(Visits(cfg, signedIn, requests), data.expiresAt)
      {
        if cfg.absoluteTtl - SECOND / 2 <= Window(cfg) {
          LifetimeComesFirst(cfg, signedIn, data, requests, gap);
        } else if cfg.idleTtl < REFRESH_INTERVAL {
          AtOnce(cfg, signedIn, data, requests, gap);
        } else {
          BrowserWindowSlides(cfg, signedIn, data, requests, gap);
        }
      }
    } else {
      var requests := BrowserGapTooLong(cfg, signedIn, data, gap);
    }
  }
}
