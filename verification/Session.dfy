/** The session cookie's payload and the two deadlines it carries (internal/auth/session.go).
    Times and durations are integers counting nanoseconds, as in Go. */
module Session {
  import opened Wrappers

  type Time = int
  type Duration = int

  const MILLISECOND: Duration := 1_000_000
  const SECOND: Duration := 1_000 * MILLISECOND

  /** Go's zero time, 1 January of year 1. */
  const ZERO_TIME: Time := -62_135_596_800 * SECOND

  /** How often activity may re-issue the cookie. */
  const REFRESH_INTERVAL: Duration := 60 * SECOND

  datatype Config = Config(absoluteTtl: Duration, idleTtl: Duration) {
    /** What start-up enforces; an idle TTL of zero turns the idle timeout off. */
    predicate Valid() {
      0 < absoluteTtl && 0 <= idleTtl <= absoluteTtl
    }
  }

  datatype SessionData = SessionData(email: string, issuedAt: Time, expiresAt: Time, lastSeen: Time, idToken: string) {
    /** Cookies signed before lastSeen existed fall back to issuedAt. */
    function LastActivity(): Time {
      if lastSeen == ZERO_TIME then issuedAt else lastSeen
    }

    /** The fields that no re-issue may touch. */
    predicate SameSession(other: SessionData) {
      && email == other.email
      && issuedAt == other.issuedAt
      && expiresAt == other.expiresAt
      && idToken == other.idToken
    }
  }

  /** What the request's cookie turns out to be: none, one that does not open, or a sealed payload. */
  datatype Presented = Absent | Unreadable | Sealed(data: SessionData)

  datatype SessionError = NoSession | InvalidSession | SessionExpired | SessionIdle

  function NewSession(cfg: Config, email: string, idToken: string, now: Time): SessionData {
    SessionData(email, now, now + cfg.absoluteTtl, now, idToken)
  }

  /** The earlier of the two bounds; without an idle timeout there is only the absolute one. */
  function SessionDeadline(cfg: Config, data: SessionData): Time {
    if cfg.idleTtl <= 0 then data.expiresAt
    else
      var idle := data.LastActivity() + cfg.idleTtl;
      if idle < data.expiresAt then idle else data.expiresAt
  }

  /** decodeAndVerify followed by the idle check, in that order. */
  function Validate(cfg: Config, presented: Presented, now: Time): Result<SessionData, SessionError> {
    match presented
    case Absent => Err(NoSession)
    case Unreadable => Err(InvalidSession)
    case Sealed(data) =>
      if now > data.expiresAt then Err(SessionExpired)
      else if cfg.idleTtl > 0 && now > data.LastActivity() + cfg.idleTtl then Err(SessionIdle)
      else Ok(data)
  }

  /** Validation and the advertised deadline agree: a sealed session is accepted up to and including
      its deadline, and past it the error names the bound that ran out. */
  lemma AcceptedUpToDeadline(cfg: Config, data: SessionData, now: Time)
    ensures Validate(cfg, Sealed(data), now) == Ok(data) <==> now <= SessionDeadline(cfg, data)
    ensures Validate(cfg, Sealed(data), now) == Err(SessionExpired) <==> now > data.expiresAt
    ensures Validate(cfg, Sealed(data), now) == Err(SessionIdle)
       <==> data.expiresAt >= now > SessionDeadline(cfg, data)
  {
  }

  /** Go's remainder truncates toward zero. */
  function Rem(a: int, m: int): int
    requires m > 0
  {
    if a >= 0 then a % m else -(-a % m)
  }

  /** Duration.Round(time.Second), branch for branch. */
  function RoundToSecond(d: Duration): Duration {
    var r := Rem(d, SECOND);
    if d < 0 then
      if -r + -r < SECOND then d - r else d - SECOND - r
    else
      if r + r < SECOND then d - r else d + SECOND - r
  }

  function SecondsUntil(t: Time, now: Time): int {
    RoundToSecond(t - now) / SECOND
  }

  /** The advertised seconds are the nearest whole number, a half going away from zero. */
  lemma SecondsUntilIsNearest(t: Time, now: Time)
    ensures var n := SecondsUntil(t, now);
            if t >= now then -SECOND < 2 * (t - now - n * SECOND) < SECOND || 2 * (n * SECOND - (t - now)) == SECOND
            else -SECOND < 2 * (t - now - n * SECOND) < SECOND || 2 * (t - now - n * SECOND) == SECOND
  {
    var d := t - now;
    var q := if d < 0 then -d / SECOND else d / SECOND;
    assert RoundToSecond(d) % SECOND == 0;
  }

  /** touchSession re-issues the cookie when the stored activity is a minute old. */
  predicate Refreshes(cfg: Config, data: SessionData, now: Time) {
    cfg.idleTtl > 0 && now - data.LastActivity() >= REFRESH_INTERVAL
  }

  /** The session as it stands after a request counted as activity. */
  function Touch(cfg: Config, data: SessionData, now: Time): SessionData {
    if Refreshes(cfg, data, now) then data.(lastSeen := now) else data
  }

  /** One re-issue: identity and absolute expiry stay, the deadline never moves back, and the stored
      activity is left less than a minute behind. */
  lemma TouchSlides(cfg: Config, data: SessionData, now: Time)
    requires now > ZERO_TIME && data.LastActivity() <= now
    ensures var touched := Touch(cfg, data, now);
            && touched.SameSession(data)
            && SessionDeadline(cfg, data) <= SessionDeadline(cfg, touched)
            && data.LastActivity() <= touched.LastActivity() <= now
            && (cfg.idleTtl > 0 ==> now - touched.LastActivity() < REFRESH_INTERVAL)
  {
  }

  /** Validation in terms of what the cookie carries: up to the absolute expiry, and with an idle timeout up to that long
      after the last recorded activity, which for old cookies is the issue time. */
  lemma AcceptedExactly(cfg: Config, data: SessionData, now: Time)
    ensures Validate(cfg, Sealed(data), now) == Ok(data)
       <==> now <= data.expiresAt
            && (cfg.idleTtl > 0 ==>
                  (data.lastSeen != ZERO_TIME ==> now - data.lastSeen <= cfg.idleTtl)
                  && (data.lastSeen == ZERO_TIME ==> now - data.issuedAt <= cfg.idleTtl))
    ensures Validate(cfg, Absent, now) == Err(NoSession) && Validate(cfg, Unreadable, now) == Err(InvalidSession)
  {
  }
}
