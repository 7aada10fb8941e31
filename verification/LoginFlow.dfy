/** Runs of the login flow over one browser, with any interleaving of login redirects and callbacks. */
module LoginFlow {
  import opened Wrappers
  import opened Session
  import opened Http
  import opened Gateway
  import opened Oidc

  /** One call of the login handler: its random values and the stored path, "" when there is none. */
  datatype Leg = Leg(state: string, nonce: string, verifier: string, next: string)

  /** One session a callback established: the state and PKCE verifier it came with, its ID token's nonce, and the
      page it landed on. */
  datatype Opened = Opened(state: string, verifier: string, nonce: string, data: SessionData, landing: string)

  datatype State = State(now: Time, jar: Jar, legs: seq<Leg>, sessions: seq<Opened>)

  datatype Event = Wait(ns: nat) | Login(leg: Leg) | Callback(query: Query, answer: Answer)

  function AfterLogin(s: State, leg: Leg): State {
    s.(jar := ReceiveAll(s.jar, LoginCookies(leg.state, leg.nonce, leg.verifier, leg.next), s.now), legs := s.legs + [leg])
  }

  function AfterCallback(settings: Settings, s: State, query: Query, answer: Answer): State {
    var verdict := CallbackVerdict(settings, s.jar, query, answer, s.now);
    var jar := ReceiveAll(s.jar, CallbackCookies(settings, verdict, s.now), s.now);
    match verdict
    case Err(_) => s.(jar := jar)
    case Ok(grant) =>
      var data := NewSession(settings.session, grant.email, grant.idToken, s.now);
      var verifier := TextOf(CookieOf(s.jar, PKCE, s.now)).value;
      s.(jar := jar,
         sessions := s.sessions + [Opened(query.state, verifier, answer.nonce, data, LandingPath(settings, s.jar, s.now))])
  }

  function Step(settings: Settings, s: State, event: Event): State {
    match event
    case Wait(ns) => s.(now := s.now + ns)
    case Login(leg) => AfterLogin(s, leg)
    case Callback(query, answer) => AfterCallback(settings, s, query, answer)
  }

  /** A browser that starts without cookies. */
  function Run(settings: Settings, start: Time, events: seq<Event>): State {
    if events == [] then State(start, map[], [], [])
    else Step(settings, Run(settings, start, events[..|events| - 1]), events[|events| - 1])
  }

  predicate NoFlowCookie(jar: Jar) {
    STATE !in jar && NONCE !in jar && PKCE !in jar && NEXT !in jar
  }

  /** The three cookies a callback is checked against are exactly those of one login call. */
  predicate TrioOf(jar: Jar, leg: Leg) {
    && STATE in jar && NONCE in jar && PKCE in jar
    && jar[STATE].value == Text(leg.state)
    && jar[NONCE].value == Text(leg.nonce)
    && jar[PKCE].value == Text(leg.verifier)
    && jar[STATE].dropAfter == jar[NONCE].dropAfter == jar[PKCE].dropAfter
  }

  predicate NoTrio(jar: Jar) {
    STATE !in jar && NONCE !in jar && PKCE !in jar
  }

  ghost predicate TrioFromOneLeg(s: State) {
    NoTrio(s.jar) || exists i :: 0 <= i < |s.legs| && TrioOf(s.jar, s.legs[i])
  }

  ghost predicate OpenedByALeg(s: State, o: Opened) {
    exists i :: 0 <= i < |s.legs| && s.legs[i].state == o.state && s.legs[i].nonce == o.nonce
                && s.legs[i].verifier == o.verifier
  }

  /** The random states of the run never repeat. */
  predicate FreshStates(legs: seq<Leg>) {
    forall i, j :: 0 <= i < j < |legs| ==> legs[i].state != legs[j].state
  }

  /** The state waiting in the jar has not been spent on a session yet. */
  predicate Unspent(s: State) {
    STATE in s.jar ==> forall k :: 0 <= k < |s.sessions| ==> s.jar[STATE].value != Text(s.sessions[k].state)
  }

  lemma ReceiveAllSplit(jar: Jar, a: seq<SetCookie>, b: seq<SetCookie>, now: Time)
    ensures ReceiveAll(jar, a + b, now) == ReceiveAll(ReceiveAll(jar, a, now), b, now)
    decreases |a|
  {
    if a == [] {
      assert a + b == b;
    } else {
      assert (a + b)[1..] == a[1..] + b;
      ReceiveAllSplit(Receive(jar, a[0], now), a[1..], b, now);
    }
  }

  lemma ReceiveThree(jar: Jar, a: SetCookie, b: SetCookie, c: SetCookie, now: Time)
    ensures ReceiveAll(jar, [a, b, c], now) == Receive(Receive(Receive(jar, a, now), b, now), c, now)
  {
    assert [a, b, c][1..] == [b, c] && [b, c][1..] == [c] && [c][1..] == [];
    var jar1 := Receive(jar, a, now);
    var jar2 := Receive(jar1, b, now);
    assert ReceiveAll(jar1, [b, c], now) == ReceiveAll(jar2, [c], now);
    assert ReceiveAll(jar2, [c], now) == ReceiveAll(Receive(jar2, c, now), [], now);
  }

  /** A login replaces the trio as a whole and the stored path only if it brings one. */
  lemma LoginSetsTrio(s: State, leg: Leg)
    ensures TrioOf(AfterLogin(s, leg).jar, leg)
    ensures AfterLogin(s, leg).jar[STATE].dropAfter == Some(s.now + FLOW_MAX_AGE * SECOND)
    ensures var jar := AfterLogin(s, leg).jar;
            if leg.next != "" then NEXT in jar && jar[NEXT] == Held(Text(leg.next), Some(s.now + FLOW_MAX_AGE * SECOND))
            else (NEXT in jar <==> NEXT in s.jar) && (NEXT in jar ==> jar[NEXT] == s.jar[NEXT])
  {
    var trio := [FlowCookie(STATE, leg.state), FlowCookie(NONCE, leg.nonce), FlowCookie(PKCE, leg.verifier)];
    var rest := if leg.next != "" then [FlowCookie(NEXT, leg.next)] else [];
    ReceiveAllSplit(s.jar, trio, rest, s.now);
    ReceiveThree(s.jar, trio[0], trio[1], trio[2], s.now);
    var jar := ReceiveAll(s.jar, trio, s.now);
    assert leg.next != "" ==> rest[1..] == [] && ReceiveAll(jar, rest, s.now) == Receive(jar, rest[0], s.now);
  }

  lemma ReceiveOne(jar: Jar, cookie: SetCookie, now: Time)
    ensures ReceiveAll(jar, [cookie], now) == Receive(jar, cookie, now)
  {
    assert [cookie][1..] == [];
  }

  lemma ClearedJar(jar: Jar, now: Time)
    ensures NoFlowCookie(ReceiveAll(jar, ClearedFlowCookies(), now))
  {
    var trio := [ClearedFlowCookie(STATE), ClearedFlowCookie(NONCE), ClearedFlowCookie(PKCE)];
    assert ClearedFlowCookies() == trio + [ClearedFlowCookie(NEXT)];
    ReceiveAllSplit(jar, trio, [ClearedFlowCookie(NEXT)], now);
    ReceiveThree(jar, trio[0], trio[1], trio[2], now);
    ReceiveOne(ReceiveAll(jar, trio, now), ClearedFlowCookie(NEXT), now);
  }

  /** Every callback, accepted or not, leaves no flow cookie behind. */
  lemma CallbackLeavesNoFlowCookie(settings: Settings, s: State, query: Query, answer: Answer)
    ensures NoFlowCookie(AfterCallback(settings, s, query, answer).jar)
  {
    hide CallbackVerdict, ReceiveAll, ClearedFlowCookies, SecondsUntil;
    var verdict := CallbackVerdict(settings, s.jar, query, answer, s.now);
    var cleared := ReceiveAll(s.jar, ClearedFlowCookies(), s.now);
    ClearedJar(s.jar, s.now);
    match verdict {
      case Err(_) =>
        assert CallbackCookies(settings, verdict, s.now) == ClearedFlowCookies();
      case Ok(grant) =>
        var data := NewSession(settings.session, grant.email, grant.idToken, s.now);
        var cookie := SessionCookie(settings.session, data, s.now);
        ReceiveAllSplit(s.jar, ClearedFlowCookies(), [cookie], s.now);
        ReceiveOne(cleared, cookie, s.now);
    }
  }

  /** A callback opens a session exactly when it is accepted, one for the email and the ID token of its answer. */
  lemma AcceptedOpensOne(settings: Settings, s: State, query: Query, answer: Answer)
    ensures var after := AfterCallback(settings, s, query, answer).sessions;
            if CallbackVerdict(settings, s.jar, query, answer, s.now).Err? then after == s.sessions
            else
              && |after| == |s.sessions| + 1 && s.sessions <= after
              && answer.IdToken? && answer.claims.Some?
              && var session := after[|s.sessions|];
                 && session.state == query.state && session.nonce == answer.nonce
                 && session.data.email == answer.claims.value.email && session.data.idToken == answer.raw
                 && session.data.issuedAt == session.data.lastSeen == s.now
                 && session.landing == LandingPath(settings, s.jar, s.now)
  {
  }

  lemma MoreLegs(s: State, after: State, o: Opened)
    requires s.legs <= after.legs && OpenedByALeg(s, o)
    ensures OpenedByALeg(after, o)
  {
    var i :| 0 <= i < |s.legs| && s.legs[i].state == o.state && s.legs[i].nonce == o.nonce && s.legs[i].verifier == o.verifier;
    assert after.legs[i] == s.legs[i];
  }

  lemma CallbackKeepsLegs(settings: Settings, s: State, query: Query, answer: Answer)
    requires TrioFromOneLeg(s)
    ensures var after := AfterCallback(settings, s, query, answer);
            && after.legs == s.legs && s.sessions <= after.sessions && TrioFromOneLeg(after)
            && forall k :: |s.sessions| <= k < |after.sessions| ==> OpenedByALeg(s, after.sessions[k])
  {
    hide ReceiveAll, CallbackCookies, LandingPath, NewSession;
    CallbackLeavesNoFlowCookie(settings, s, query, answer);
    if CallbackVerdict(settings, s.jar, query, answer, s.now).Ok? {
      var i :| 0 <= i < |s.legs| && TrioOf(s.jar, s.legs[i]);
      assert OpenedByALeg(s, AfterCallback(settings, s, query, answer).sessions[|s.sessions|]);
    }
  }

  lemma StepKeepsLegs(settings: Settings, s: State, event: Event)
    requires TrioFromOneLeg(s) && forall k :: 0 <= k < |s.sessions| ==> OpenedByALeg(s, s.sessions[k])
    ensures var after := Step(settings, s, event);
            TrioFromOneLeg(after) && forall k :: 0 <= k < |after.sessions| ==> OpenedByALeg(after, after.sessions[k])
  {
    hide AfterCallback, OpenedByALeg;
    var after := Step(settings, s, event);
    match event {
      case Wait(_) =>
      case Login(leg) =>
        LoginSetsTrio(s, leg);
        assert after.legs[|s.legs|] == leg;
      case Callback(query, answer) => CallbackKeepsLegs(settings, s, query, answer);
    }
    assert s.sessions <= after.sessions;
    forall k | 0 <= k < |after.sessions| ensures OpenedByALeg(after, after.sessions[k]) {
      assert k < |s.sessions| ==> after.sessions[k] == s.sessions[k];
      MoreLegs(s, after, after.sessions[k]);
    }
  }

  /** In every reachable state the waiting trio comes from a single login call, and every callback opened its
      session with the state, PKCE verifier and ID-token nonce of a single login call. */
  lemma {:induction false} OneLoginPerCallback(settings: Settings, start: Time, events: seq<Event>)
    ensures var s := Run(settings, start, events);
            TrioFromOneLeg(s) && forall k :: 0 <= k < |s.sessions| ==> OpenedByALeg(s, s.sessions[k])
  {
    if events != [] {
      var before := events[..|events| - 1];
      OneLoginPerCallback(settings, start, before);
      StepKeepsLegs(settings, Run(settings, start, before), events[|events| - 1]);
    }
  }

  /** With fresh random states, one login call opens at most one session: no two sessions of a run share
      a state, and the state still waiting in the jar is unspent. */
  lemma {:induction false} OneSessionPerLogin(settings: Settings, start: Time, events: seq<Event>)
    requires FreshStates(Run(settings, start, events).legs)
    ensures var s := Run(settings, start, events);
            Unspent(s) && forall k, l :: 0 <= k < l < |s.sessions| ==> s.sessions[k].state != s.sessions[l].state
  {
    if events != [] {
      var before := events[..|events| - 1];
      var s := Run(settings, start, before);
      var after := Run(settings, start, events);
      assert forall i :: 0 <= i < |s.legs| ==> after.legs[i] == s.legs[i];
      OneSessionPerLogin(settings, start, before);
      OneLoginPerCallback(settings, start, before);
      match events[|events| - 1] {
        case Wait(_) =>
        case Login(leg) =>
          LoginSetsTrio(s, leg);
          forall k | 0 <= k < |s.sessions| ensures leg.state != s.sessions[k].state {
            assert OpenedByALeg(s, s.sessions[k]);
            assert after.legs[|s.legs|] == leg;
          }
        case Callback(query, answer) =>
          CallbackLeavesNoFlowCookie(settings, s, query, answer);
      }
    }
  }

  /** The path of the latest login that stored one since the last callback. */
  function PendingNext(events: seq<Event>): Option<string> {
    if events == [] then None
    else
      match events[|events| - 1]
      case Wait(_) => PendingNext(events[..|events| - 1])
      case Login(leg) => if leg.next != "" then Some(leg.next) else PendingNext(events[..|events| - 1])
      case Callback(_, _) => None
  }

  lemma {:induction false} StoredNext(settings: Settings, start: Time, events: seq<Event>)
    ensures var s := Run(settings, start, events);
            match PendingNext(events)
            case Some(path) => NEXT in s.jar && s.jar[NEXT].value == Text(path)
            case None => NEXT !in s.jar
  {
    if events != [] {
      var before := events[..|events| - 1];
      StoredNext(settings, start, before);
      var s := Run(settings, start, before);
      match events[|events| - 1] {
        case Wait(_) =>
        case Login(leg) => LoginSetsTrio(s, leg);
        case Callback(query, answer) => CallbackLeavesNoFlowCookie(settings, s, query, answer);
      }
    }
  }

  /** An accepted callback lands on the root or on the path of the latest login since the last
      callback that stored one, which need not be the login whose state it answers. */
  lemma LandingComesFromPendingNext(settings: Settings, start: Time, events: seq<Event>, query: Query, answer: Answer)
    requires CallbackVerdict(settings, Run(settings, start, events).jar, query, answer,
                             Run(settings, start, events).now).Ok?
    ensures var after := Run(settings, start, events + [Callback(query, answer)]);
            && |after.sessions| == |Run(settings, start, events).sessions| + 1
            && var landing := after.sessions[|after.sessions| - 1].landing;
               landing == "/" || (PendingNext(events).Some? && landing == settings.safeNext(PendingNext(events).value))
  {
    assert (events + [Callback(query, answer)])[..|events|] == events;
    StoredNext(settings, start, events);
  }

  /** The stored path outlives the login that stored it: two logins, the second without a path, and a
      callback answering the second, which lands where the first one asked. */
  lemma EarlierNextSurvives(settings: Settings, start: Time, first: Leg, second: Leg, answer: Answer)
    requires first.next != "" && settings.safeNext(first.next) == first.next && second.next == ""
    requires answer.IdToken? && answer.nonce == second.nonce && answer.claims.Some?
    requires ClaimsDenial(settings, answer.claims.value, start) == None
    ensures var s := Run(settings, start, [Login(first), Login(second), Callback(Query(second.state, ""), answer)]);
            |s.sessions| == 1 && s.sessions[0].state == second.state && s.sessions[0].landing == first.next
  {
    var events := [Login(first), Login(second), Callback(Query(second.state, ""), answer)];
    assert events[..2] == [Login(first), Login(second)];
    assert events[..2][..1] == [Login(first)] && [Login(first)][..0] == [];
    var s0 := State(start, map[], [], []);
    var s1 := AfterLogin(s0, first);
    var s2 := AfterLogin(s1, second);
    LoginSetsTrio(s0, first);
    LoginSetsTrio(s1, second);
    assert Run(settings, start, [Login(first)]) == s1;
    assert Run(settings, start, events[..2]) == s2;
  }

  /** A login leaves its values in the jar for five minutes, and the callback that brings its state back finds them until
      then and not after. */
  lemma FlowLastsFiveMinutes(s: State, leg: Leg, later: Time)
    requires later >= s.now
    ensures var jar := AfterLogin(s, leg).jar;
            && (Carries(jar, "oauth_state", leg.state, later) <==> later <= s.now + 300 * SECOND)
            && (Carries(jar, "oauth_nonce", leg.nonce, later) <==> later <= s.now + 300 * SECOND)
            && (Carries(jar, "oauth_pkce", leg.verifier, later) <==> later <= s.now + 300 * SECOND)
            && (leg.next != "" ==> (Carries(jar, "oauth_next", leg.next, later) <==> later <= s.now + 300 * SECOND))
  {
    LoginSetsTrio(s, leg);
  }

  /** Where an accepted callback lands, exactly: on the filtered path of the latest login since the last callback that
      stored one, while that cookie lasts and the filter keeps the path, and on the root otherwise. */
  lemma LandingExactly(settings: Settings, start: Time, events: seq<Event>)
    ensures var s := Run(settings, start, events);
            LandingPath(settings, s.jar, s.now)
            == if PendingNext(events).Some? && Carries(s.jar, "oauth_next", PendingNext(events).value, s.now)
                  && settings.safeNext(PendingNext(events).value) != ""
               then settings.safeNext(PendingNext(events).value) else "/"
  {
    StoredNext(settings, start, events);
  }
}
