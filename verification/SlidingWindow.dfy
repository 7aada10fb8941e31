/** How far the idle window really slides under the once-a-minute re-issue, for a client that always
    presents the cookie it was last given. */
module SlidingWindow {
  import opened Wrappers
  import opened Session

  /** The session after some requests, or the time and reason of the first refusal. */
  datatype Outcome = Live(data: SessionData) | Ended(at: Time, error: SessionError)

  function Activity(cfg: Config, data: SessionData, requests: seq<Time>): Outcome
    decreases |requests|
  {
    if requests == [] then Live(data)
    else
      match Validate(cfg, Sealed(data), requests[0])
      case Err(error) => Ended(requests[0], error)
      case Ok(_) => Activity(cfg, Touch(cfg, data, requests[0]), requests[1..])
  }

  /** Requests in order, each at most gap after the one before. */
  predicate Paced(last: Time, requests: seq<Time>, gap: Duration)
    decreases |requests|
  {
    requests == [] || (0 <= requests[0] - last <= gap && Paced(requests[0], requests[1..], gap))
  }

  predicate EndsIdle(outcome: Outcome) {
    outcome.Ended? && outcome.error == SessionIdle
  }

  /** No client with such gaps is ever refused as idle, counting from the sign-in. */
  ghost predicate GapSafe(cfg: Config, data: SessionData, gap: Duration) {
    forall requests: seq<Time> :: Paced(data.issuedAt, requests, gap) ==> !EndsIdle(Activity(cfg, data, requests))
  }

  /** The longest gap the window is sure to survive: a minute, less one nanosecond, of it can be lost. */
  function LongestGap(cfg: Config): Duration {
    if cfg.idleTtl < REFRESH_INTERVAL then 0 else cfg.idleTtl - REFRESH_INTERVAL + 1
  }

  lemma {:induction false} WindowSlides(cfg: Config, data: SessionData, last: Time, requests: seq<Time>, gap: Duration)
    requires cfg.idleTtl >= REFRESH_INTERVAL && gap <= LongestGap(cfg)
    requires ZERO_TIME < data.lastSeen <= last < data.lastSeen + REFRESH_INTERVAL
    requires Paced(last, requests, gap)
    ensures !EndsIdle(Activity(cfg, data, requests))
    decreases |requests|
  {
    if requests != [] && Validate(cfg, Sealed(data), requests[0]).Ok? {
      WindowSlides(cfg, Touch(cfg, data, requests[0]), requests[0], requests[1..], gap);
    }
  }

  /** Below a minute the cookie is never re-issued, so activity does not extend the session at all. */
  lemma {:induction false} NeverReissuedBelowAMinute(cfg: Config, data: SessionData, requests: seq<Time>)
    requires 0 < cfg.idleTtl < REFRESH_INTERVAL
    ensures Activity(cfg, data, requests).Live? ==> Activity(cfg, data, requests).data == data
    ensures (exists k :: 0 <= k < |requests| && requests[k] > data.LastActivity() + cfg.idleTtl)
            ==> Activity(cfg, data, requests).Ended?
    decreases |requests|
  {
    if requests != [] && Validate(cfg, Sealed(data), requests[0]).Ok? {
      NeverReissuedBelowAMinute(cfg, data, requests[1..]);
      forall k | 0 <= k < |requests| && requests[k] > data.LastActivity() + cfg.idleTtl
        ensures Activity(cfg, data, requests).Ended?
      {
        assert k > 0 && requests[k] == requests[1..][k - 1];
      }
    }
  }

  lemma {:induction false} NoGapNoIdle(cfg: Config, data: SessionData, requests: seq<Time>, gap: Duration)
    requires 0 < cfg.idleTtl && gap <= 0 && Paced(data.LastActivity(), requests, gap)
    ensures !EndsIdle(Activity(cfg, data, requests))
    decreases |requests|
  {
    if requests != [] && Validate(cfg, Sealed(data), requests[0]).Ok? {
      NoGapNoIdle(cfg, data, requests[1..], gap);
    }
  }

  /** One request per nanosecond. */
  function Ticks(from: Time, until: Time): (ticks: seq<Time>)
    decreases until - from + 1
  {
    if from > until then [] else [from] + Ticks(from + 1, until)
  }

  /** Requests inside the throttle leave the cookie as it is. */
  lemma {:induction false} TicksChangeNothing(cfg: Config, data: SessionData, from: Time, until: Time, last: Time)
    requires cfg.idleTtl > 0 && data.LastActivity() <= from <= until + 1
    requires until - data.LastActivity() < REFRESH_INTERVAL && until <= SessionDeadline(cfg, data)
    ensures Activity(cfg, data, Ticks(from, until) + [last]) == Activity(cfg, data, [last])
    decreases until - from + 1
  {
    var requests := Ticks(from, until) + [last];
    if from > until {
      assert requests == [last];
    } else {
      assert requests[1..] == Ticks(from + 1, until) + [last];
      TicksChangeNothing(cfg, data, from + 1, until, last);
    }
  }

  lemma {:induction false} TicksArePaced(from: Time, until: Time, last: Time, gap: Duration)
    requires from <= until + 1 && gap >= 1 && 0 <= last - until <= gap
    ensures Paced(from - 1, Ticks(from, until) + [last], gap)
    decreases until - from + 1
  {
    var requests := Ticks(from, until) + [last];
    if from > until {
      assert requests == [last] && requests[1..] == [];
    } else {
      assert requests[1..] == Ticks(from + 1, until) + [last];
      TicksArePaced(from + 1, until, last, gap);
    }
  }

  /** A busy client that is refused all the same: requests up to the end of the throttle, then one gap. */
  lemma TooLongAGap(cfg: Config, data: SessionData, gap: Duration) returns (requests: seq<Time>)
    requires 0 < cfg.idleTtl < cfg.absoluteTtl && gap > LongestGap(cfg)
    requires data == NewSession(cfg, data.email, data.idToken, data.issuedAt) && data.issuedAt > ZERO_TIME
    ensures Paced(data.issuedAt, requests, gap) && EndsIdle(Activity(cfg, data, requests))
  {
    var start := data.issuedAt;
    var busy := if cfg.idleTtl < REFRESH_INTERVAL then cfg.idleTtl else REFRESH_INTERVAL - 1;
    var last := start + cfg.idleTtl + 1;
    requests := Ticks(start + 1, start + busy) + [last];
    TicksArePaced(start + 1, start + busy, last, gap);
    TicksChangeNothing(cfg, data, start + 1, start + busy, last);
  }

  /** The window slides, exactly: from any sign-in, gaps of at most g are never refused as idle if and only
      if g leaves the throttle's minute (less a nanosecond) of the window unused, or the idle window is the
      whole absolute lifetime and can never be the bound that runs out. */
  lemma GapSafeExactly(cfg: Config, email: string, idToken: string, start: Time, gap: Duration)
    requires cfg.Valid() && cfg.idleTtl > 0 && start > ZERO_TIME
    ensures GapSafe(cfg, NewSession(cfg, email, idToken, start), gap)
       <==> gap <= LongestGap(cfg) || cfg.idleTtl == cfg.absoluteTtl
  {
    var data := NewSession(cfg, email, idToken, start);
    if cfg.idleTtl == cfg.absoluteTtl {
      forall requests: seq<Time> | Paced(start, requests, gap) ensures !EndsIdle(Activity(cfg, data, requests)) {
        AbsoluteComesFirst(cfg, data, start, requests, gap);
      }
    } else if gap <= LongestGap(cfg) {
      forall requests: seq<Time> | Paced(start, requests, gap) ensures !EndsIdle(Activity(cfg, data, requests)) {
        if cfg.idleTtl < REFRESH_INTERVAL {
          NoGapNoIdle(cfg, data, requests, gap);
        } else {
          WindowSlides(cfg, data, start, requests, gap);
        }
      }
    } else {
      var requests := TooLongAGap(cfg, data, gap);
    }
  }

  lemma {:induction false} AbsoluteComesFirst(cfg: Config, data: SessionData, last: Time, requests: seq<Time>, gap: Duration)
    requires ZERO_TIME < data.lastSeen <= last && data.expiresAt <= data.lastSeen + cfg.idleTtl
    requires Paced(last, requests, gap)
    ensures !EndsIdle(Activity(cfg, data, requests))
    decreases |requests|
  {
    if requests != [] && Validate(cfg, Sealed(data), requests[0]).Ok? {
      AbsoluteComesFirst(cfg, Touch(cfg, data, requests[0]), requests[0], requests[1..], gap);
    }
  }

  /** Along any chain of re-issues the identity and the absolute expiry stay and the deadline never moves back. */
  lemma {:induction false} ReissuesKeepSession(cfg: Config, data: SessionData, last: Time, requests: seq<Time>, gap: Duration)
    requires ZERO_TIME < data.LastActivity() <= last && Paced(last, requests, gap)
    ensures var outcome := Activity(cfg, data, requests);
            outcome.Live? ==> outcome.data.SameSession(data) && SessionDeadline(cfg, data) <= SessionDeadline(cfg, outcome.data)
    decreases |requests|
  {
    if requests != [] && Validate(cfg, Sealed(data), requests[0]).Ok? {
      TouchSlides(cfg, data, requests[0]);
      ReissuesKeepSession(cfg, Touch(cfg, data, requests[0]), requests[0], requests[1..], gap);
    }
  }
}
