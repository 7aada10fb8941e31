/** The gate and the session protocol together: behind every provider call of a run with real tokens stands an unbroken
    chain of activity that starts at a fresh sign-in. */
module GateChains {
  import opened Wrappers
  import opened Session
  import opened Http
  import opened Gateway
  import opened Oidc
  import opened CookieKinds
  import opened Gate
  import Protocol

  /** An entry of the history whose session this is. */
  function IndexOf(history: seq<Protocol.Entry>, d: SessionData): (i: Option<nat>)
    ensures i.Some? ==> i.value < |history| && history[i.value].session == d
  {
    if history == [] then None
    else if history[|history| - 1].session == d then Some(|history| - 1)
    else IndexOf(history[..|history| - 1], d)
  }

  /** What an event adds to the protocol's history: a sign-in, or a request that was admitted with a session on it. */
  function Added(setup: Setup, history: seq<Protocol.Entry>, event: Event): seq<Protocol.Entry> {
    match event
    case SignIn(claims, idToken, at) =>
      if ClaimsDenial(setup.settings, claims, at).Some? then []
      else [Protocol.SignedIn(at, claims.authTime, NewSession(setup.settings.session, claims.email, idToken, at))]
    case Asks(r) =>
      (match Identify(setup, r)
       case Err(_) => []
       case Ok(d) =>
         match IndexOf(history, d)
         case None => []
         case Some(i) => [Protocol.Served(r.at, i, Touch(setup.settings.session, d, r.at))])
    case Publish(_) => []
  }

  function History(setup: Setup, events: seq<Event>): seq<Protocol.Entry> {
    if events == [] then []
    else
      var n := |events| - 1;
      var before := History(setup, events[..n]);
      before + Added(setup, before, events[n])
  }

  function TimeOf(event: Event): Option<Time> {
    match event
    case SignIn(_, _, at) => Some(at)
    case Asks(r) => Some(r.at)
    case Publish(_) => None
  }

  /** The events happen in order, up to now. */
  predicate InOrder(events: seq<Event>, now: Time) {
    && now > ZERO_TIME
    && (events == [] ||
        var n := |events| - 1;
        match TimeOf(events[n])
        case Some(at) => at <= now && InOrder(events[..n], at)
        case None => InOrder(events[..n], now))
  }

  /** The history obeys the protocol's rules and has every session cookie the gateway has set. */
  predicate Consistent(setup: Setup, s: State, history: seq<Protocol.Entry>, now: Time) {
    && Protocol.SoundLog(setup.settings, history, now) && Protocol.Backward(history)
    && forall i :: 0 <= i < |s.issued| && s.issued[i].Token? ==> IndexOf(history, s.issued[i].session).Some?
  }

  lemma ConsistentLater(setup: Setup, s: State, history: seq<Protocol.Entry>, now: Time, later: Time)
    requires Consistent(setup, s, history, now) && now <= later
    ensures Consistent(setup, s, history, later)
  {
    forall i | 0 <= i < |history|
      ensures Protocol.Sound(setup.settings, history, i) && ZERO_TIME < history[i].at <= later
    {
    }
  }

  /** One more entry, and the cookies it accounts for. */
  lemma Extended(setup: Setup, s: State, history: seq<Protocol.Entry>, now: Time, entry: Protocol.Entry, more: seq<CookieValue>)
    requires Consistent(setup, s, history, now) && ZERO_TIME < entry.at <= now
    requires entry.Served? ==> entry.source < |history|
    requires Protocol.Sound(setup.settings, history + [entry], |history|)
    requires forall i :: 0 <= i < |more| && more[i].Token? ==> more[i].session == entry.session
    ensures Consistent(setup, s.(issued := s.issued + more), history + [entry], now)
  {
    Protocol.AppendSound(setup.settings, history, now, entry);
    var longer := history + [entry];
    assert longer[..|history|] == history;
  }

  lemma SignInConsistent(setup: Setup, s: State, history: seq<Protocol.Entry>, claims: Claims, idToken: string, at: Time)
    requires Consistent(setup, s, history, at) && at > ZERO_TIME
    ensures Consistent(setup, Gate.AfterSignIn(setup, s, claims, idToken, at),
                       history + Added(setup, history, SignIn(claims, idToken, at)), at)
  {
    if ClaimsDenial(setup.settings, claims, at).None? {
      var session := NewSession(setup.settings.session, claims.email, idToken, at);
      Extended(setup, s, history, at, Protocol.SignedIn(at, claims.authTime, session), [Token(session)]);
    } else {
      assert history + [] == history;
    }
  }

  /** The cookies of a response: a session cookie among them is the touched session. */
  lemma IssuedTokens(setup: Setup, r: Request, i: nat)
    requires i < |IssuedCookies(setup, r)| && IssuedCookies(setup, r)[i].value.Token?
    ensures Identify(setup, r).Ok?
    ensures IssuedCookies(setup, r)[i].value.session == Touch(setup.settings.session, Identify(setup, r).value, r.at)
  {
    hide Identify, SealAcceptance;
  }

  lemma IdentifyMeansValid(setup: Setup, r: Request)
    requires Identify(setup, r).Ok?
    ensures Validate(setup.settings.session, Sealed(Identify(setup, r).value), r.at) == Identify(setup, r)
  {
  }

  lemma AskConsistent(setup: Setup, s: State, history: seq<Protocol.Entry>, n: nat, r: Request)
    requires setup.crypto.Valid() && AllSourced(setup, s) && Genuine(setup, s, r.session) && r.at > ZERO_TIME
    requires Consistent(setup, s, history, r.at)
    ensures Consistent(setup, Gate.AfterRequest(setup, s, n, r), history + Added(setup, history, Asks(r)), r.at)
    ensures Identify(setup, r).Ok? ==> Added(setup, history, Asks(r)) != []
  {
    hide AllSourced, Genuine, IssuedCookies, RequestTrace;
    var cookies := IssuedCookies(Now(setup, s), r);
    assert Identify(Now(setup, s), r) == Identify(setup, r);
    forall i | 0 <= i < |cookies| && cookies[i].value.Token?
      ensures Identify(setup, r).Ok?
           && cookies[i].value.session == Touch(setup.settings.session, Identify(setup, r).value, r.at)
    {
      IssuedTokens(Now(setup, s), r, i);
    }
    hide Identify;
    if Identify(setup, r).Ok? {
      var d := Identify(setup, r).value;
      var j := PresentedWasIssued(setup, s, r);
      var i := IndexOf(history, d).value;
      IdentifyMeansValid(setup, r);
      Extended(setup, s, history, r.at, Protocol.Served(r.at, i, Touch(setup.settings.session, d, r.at)), Values(cookies));
    } else {
      assert history + [] == history;
    }
  }

  lemma {:induction false} HistoryIsConsistent(setup: Setup, events: seq<Event>, now: Time)
    requires setup.crypto.Valid() && Unforged(setup, events) && InOrder(events, now)
    ensures Consistent(setup, Run(setup, events), History(setup, events), now)
  {
    hide Consistent, Added, AllSourced, Genuine;
    if events == [] {
      NothingYet(setup, now);
    } else {
      var n := |events| - 1;
      var s, history := Run(setup, events[..n]), History(setup, events[..n]);
      var at := TimeOf(events[n]).GetOr(now);
      UnforgedBefore(setup, events, n);
      HistoryIsConsistent(setup, events[..n], at);
      match events[n] {
        case SignIn(claims, idToken, at) => SignInConsistent(setup, s, history, claims, idToken, at);
        case Asks(r) =>
          EveryCookieSourced(setup, events[..n]);
          AskConsistent(setup, s, history, n, r);
        case Publish(document) => PublishConsistent(setup, s, history, document, now);
      }
      ConsistentLater(setup, Run(setup, events), History(setup, events), at, now);
    }
  }

  lemma NothingYet(setup: Setup, now: Time)
    ensures Consistent(setup, Run(setup, []), History(setup, []), now)
  {
  }

  lemma PublishConsistent(setup: Setup, s: State, history: seq<Protocol.Entry>, document: Option<Document>, now: Time)
    requires Consistent(setup, s, history, now)
    ensures Consistent(setup, s.(document := document), history + Added(setup, history, Publish(document)), now)
  {
    assert history + [] == history;
  }

  /** What the protocol says of the history's last entry. */
  ghost predicate EndsChain(setup: Setup, history: seq<Protocol.Entry>, email: string, at: Time) {
    exists chain: seq<nat> ::
      && Protocol.Chain(setup.settings.session, history, chain)
      && chain[|chain| - 1] == |history| - 1
      && history[|history| - 1].at == at && history[|history| - 1].session.email == email
      && history[|history| - 1].session.SameSession(history[chain[0]].session)
      && at <= history[chain[0]].at + setup.settings.session.absoluteTtl
  }

  /** No provider call after a quiet period: with the idle timeout on, in every run without forgery on one clock, each
      call is made for the email of a session whose sign-in had a fresh authentication, and from that sign-in to this very
      request the session's accepted requests follow one another with no gap beyond the idle window, within the absolute
      lifetime. */
  lemma EveryCallEndsChain(setup: Setup, events: seq<Event>, now: Time, k: nat)
    requires setup.crypto.Valid() && setup.settings.session.Valid() && setup.settings.session.idleTtl > 0
    requires Unforged(setup, events) && InOrder(events, now)
    requires k < |Run(setup, events).log|
    ensures var logged := Run(setup, events).log[k];
            logged.By? && logged.entry.Call? ==>
              && logged.event < |events| && events[logged.event].Asks?
              && EndsChain(setup, History(setup, events[..logged.event + 1]), logged.entry.email,
                           events[logged.event].request.at)
  {
    hide Genuine, AllSourced, Consistent, EndsChain, Run, History, InOrder, Identify, Consented;
    EveryCallJustified(setup, events, k);
    var logged := Run(setup, events).log[k];
    if logged.By? && logged.entry.Call? {
      SameWithDocument(setup, events, logged.event);
      RequestEndsChain(setup, events, now, logged.event);
    }
  }

  lemma {:induction false} InOrderBefore(events: seq<Event>, now: Time, n: nat) returns (until: Time)
    requires InOrder(events, now) && n <= |events|
    ensures InOrder(events[..n], until)
  {
    until := now;
    if n < |events| {
      var last := |events| - 1;
      assert events[..last][..n] == events[..n];
      until := InOrderBefore(events[..last], TimeOf(events[last]).GetOr(now), n);
    } else {
      assert events[..n] == events;
    }
  }

  /** Who a request comes from does not depend on the terms in force. */
  lemma SameWithDocument(setup: Setup, events: seq<Event>, n: nat)
    requires n < |events| && events[n].Asks?
    ensures Identify(InForce(setup, events, n), events[n].request) == Identify(setup, events[n].request)
  {
  }

  /** The entry an admitted request adds is the last. */
  lemma LastEntry(setup: Setup, s: State, history: seq<Protocol.Entry>, n: nat, r: Request)
    requires setup.crypto.Valid() && AllSourced(setup, s) && Genuine(setup, s, r.session) && r.at > ZERO_TIME
    requires Consistent(setup, s, history, r.at) && Identify(setup, r).Ok?
    ensures var longer := history + Added(setup, history, Asks(r));
            && |longer| > 0 && longer[|longer| - 1].at == r.at
            && longer[|longer| - 1].session.email == Identify(setup, r).value.email
  {
    hide AllSourced, Genuine, Consistent, Identify;
    AskConsistent(setup, s, history, n, r);
  }

  /** The same for every admitted request. */
  lemma RequestEndsChain(setup: Setup, events: seq<Event>, now: Time, n: nat)
    requires setup.crypto.Valid() && setup.settings.session.Valid() && setup.settings.session.idleTtl > 0
    requires Unforged(setup, events) && InOrder(events, now)
    requires n < |events| && events[n].Asks? && Identify(setup, events[n].request).Ok?
    ensures EndsChain(setup, History(setup, events[..n + 1]), Identify(setup, events[n].request).value.email,
                      events[n].request.at)
  {
    hide AllSourced, Genuine, Identify, Added;
    var through, r := events[..n + 1], events[n].request;
    var at := InOrderBefore(events, now, n + 1);
    UnforgedBefore(setup, events, n + 1);
    assert through[..n] == events[..n] && through[n] == events[n];
    HistoryIsConsistent(setup, through, at);
    UnforgedBefore(setup, events, n);
    HistoryIsConsistent(setup, events[..n], r.at);
    EveryCookieSourced(setup, events[..n]);
    LastEntry(setup, Run(setup, events[..n]), History(setup, events[..n]), n, r);
    LastEndsChain(setup, History(setup, through), at);
  }

  lemma LastEndsChain(setup: Setup, history: seq<Protocol.Entry>, now: Time)
    requires setup.settings.session.Valid() && setup.settings.session.idleTtl > 0 && history != []
    requires Protocol.SoundLog(setup.settings, history, now) && Protocol.Backward(history)
    ensures EndsChain(setup, history, history[|history| - 1].session.email, history[|history| - 1].at)
  {
    Protocol.ChainEndsAt(setup.settings, history, now, |history| - 1);
    hide Protocol.Chain;
    var chain := Protocol.ChainTo(setup.settings.session, history, |history| - 1);
    assert chain[|chain| - 1] == |history| - 1;
  }
}
