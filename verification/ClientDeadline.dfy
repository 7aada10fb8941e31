/** The deadline the single-page app keeps in localStorage and the warning it drives
    (web/src/lib/session.ts, web/src/hooks/useSessionExpiry.ts). Times are epoch milliseconds. */
module ClientDeadline {
  import opened Wrappers

  /** The warning window, two minutes. */
  const WARN_BEFORE_SECONDS := 120

  /** The advertised header as Number() reads it. */
  datatype Header = Missing | NotFinite | Seconds(seconds: int)

  /** What the warning shows: nothing while there is plenty of time, else the seconds left. */
  datatype Countdown = Plenty | Left(seconds: nat)

  /** A deadline only ever moves forward; a stored value that is not positive reads as none. */
  function Extend(current: Option<int>, at: int): Option<int> {
    if at <= 0 || (current.Some? && current.value >= at) then current else Some(at)
  }

  function AfterHeader(current: Option<int>, header: Header, nowMs: int): Option<int> {
    if header.Seconds? then Extend(current, nowMs + header.seconds * 1000) else current
  }

  function AfterUnread(current: Option<int>, idleSeconds: int, nowMs: int): Option<int> {
    if idleSeconds > 0 then Extend(current, nowMs + idleSeconds * 1000) else current
  }

  function AfterStartUp(current: Option<int>, nowMs: int): Option<int> {
    if current.Some? && current.value <= nowMs then None else current
  }

  function CeilDiv(a: int, m: int): int
    requires m > 0
  {
    -(-a / m)
  }

  function SecondsLeft(deadline: Option<int>, nowMs: int): Countdown {
    if deadline == None then Plenty
    else
      var left := CeilDiv(deadline.value - nowMs, 1000);
      if left > WARN_BEFORE_SECONDS then Plenty else if left < 0 then Left(0) else Left(left)
  }

  /** The warning window in terms of the clock: it opens when at most two minutes are left, shows zero
      exactly when the deadline has passed, and otherwise rounds the time left up. */
  lemma CountdownMeaning(deadline: int, nowMs: int)
    ensures var shown := SecondsLeft(Some(deadline), nowMs);
            && (shown == Plenty <==> deadline - nowMs > 120_000)
            && (shown == Left(0) <==> deadline <= nowMs)
            && (shown.Left? && shown.seconds > 0 ==>
                  (shown.seconds - 1) * 1000 < deadline - nowMs <= shown.seconds * 1000)
  {
  }

  /** The localStorage item that all tabs share. */
  class DeadlineStore {
    var item: Option<int>

    constructor ()
      ensures Deadline() == None
    {
      item := None;
    }

    function Deadline(): Option<int>
      reads this
    {
      if item.Some? && item.value > 0 then item else None
    }

    method ExtendTo(at: int)
      modifies this
      ensures Deadline() == Extend(old(Deadline()), at)
      ensures old(Deadline()).Some? ==> Deadline().Some? && Deadline().value >= old(Deadline()).value
      ensures at > 0 ==> Deadline().Some? && Deadline().value >= at
      ensures Deadline() == old(Deadline()) || Deadline() == Some(at)
    {
      var current := Deadline();
      if current.Some? && current.value >= at {
        return;
      }
      item := Some(at);
    }

    method NoteExpiresIn(header: Header, nowMs: int)
      modifies this
      ensures Deadline() == AfterHeader(old(Deadline()), header, nowMs)
    {
      if header.Seconds? {
        ExtendTo(nowMs + header.seconds * 1000);
      }
    }

    method NoteUnreadRequest(idleSeconds: int, nowMs: int)
      modifies this
      ensures Deadline() == AfterUnread(old(Deadline()), idleSeconds, nowMs)
    {
      if idleSeconds > 0 {
        ExtendTo(nowMs + idleSeconds * 1000);
      }
    }

    method ForgetExpiredDeadline(nowMs: int)
      modifies this
      ensures Deadline() == AfterStartUp(old(Deadline()), nowMs)
    {
      var deadline := Deadline();
      if deadline.Some? && deadline.value <= nowMs {
        item := None;
      }
    }
  }

  /** Recording a deadline yields the later of the two; nothing else is ever stored. */
  lemma ExtendIsLater(current: Option<int>, at: int)
    requires current.Some? ==> current.value > 0
    ensures match Extend(current, at)
            case None => current == None && at <= 0
            case Some(stored) =>
              && stored > 0 && stored >= at && (current.Some? ==> stored >= current.value)
              && (stored == at || current == Some(stored))
  {
  }

  /** Start-up keeps exactly the deadlines still ahead, so no session left over from before shows as expired. */
  lemma StartUpNeverExpired(current: Option<int>, nowMs: int)
    ensures SecondsLeft(AfterStartUp(current, nowMs), nowMs) != Left(0)
    ensures current.Some? && current.value > nowMs ==> AfterStartUp(current, nowMs) == current
  {
  }
}
