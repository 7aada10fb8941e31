/** The gated API: authentication, then consent, then the handlers that call the provider (internal/api/api.go,
    internal/tos/handler.go), and what every run of requests against it guarantees. */
module Gate {
  import opened Wrappers
  import opened Session
  import opened Http
  import opened Gateway
  import opened Oidc
  import opened SignedCookie
  import opened CookieKinds
  import opened Audit
  import opened Transfers

  const TOS_COOKIE := "tos_accepted"

  /** A year. */
  const ACCEPTANCE_MAX_AGE := 31_536_000

  /** The terms of service: the hash of their text, and the version label that is logged. */
  datatype Document = Document(hash: string, version: string)

  /** The gateway's configuration; without a document no consent is required. */
  datatype Setup = Setup(
    crypto: Crypto, key: SignedCookie.Bytes, settings: Settings, maxUpload: nat, document: Option<Document>)

  /** A request's route, with what the provider will answer. */
  datatype Route =
    | Me
    | Shares(failure: Option<ProviderError>)
    | Folder(failure: Option<ProviderError>)
    | Fetch(operation: Operation, answer: Result<Content, ProviderError>)
    | Store(upload: Upload)
    | Terms
    | AcceptTerms
    | Elsewhere

  /** The cookies are whatever text the client sends. */
  datatype Request = Request(at: Time, wantsJson: bool, session: Option<string>, tos: Option<string>, route: Route)

  function Identify(setup: Setup, r: Request): Result<SessionData, SessionError> {
    Validate(setup.settings.session, PresentSession(setup.crypto, setup.key, r.session), r.at)
  }

  predicate Consented(setup: Setup, r: Request, email: string) {
    setup.document.Some? ==> CheckAcceptance(setup.crypto, setup.key, setup.document.value.hash, r.tos, email)
  }

  function AcceptanceBy(setup: Setup, email: string, now: Time): Acceptance
    requires setup.document.Some?
  {
    Acceptance(HashEmail(setup.crypto, email), setup.document.value.hash, now)
  }

  /** What the handlers behind both gates leave behind. */
  function ApiTrace(setup: Setup, email: string, route: Route): seq<Entry> {
    match route
    case Shares(failure) =>
      [Call(Operation.ListShares, email)] + if failure == None then [Audited(ListedShares(email))] else []
    case Folder(failure) =>
      [Call(Operation.ListFolder, email)] + if failure == None then [Audited(ListedFolder(email))] else []
    case Fetch(operation, answer) => DownloadTrace(operation, email, answer)
    case Store(upload) => UploadTrace(setup.maxUpload, upload.(email := Some(email)))
    case _ => []
  }

  /** A listing's answer to a provider failure; only a folder's distinguishes the share conditions. */
  function ListingStatus(failure: Option<ProviderError>, ofShare: bool): int {
    match failure
    case None => 200
    case Some(UnexpectedStatus) => 502
    case Some(e) => if ofShare then ErrorStatus(Refused(e)) else 503
  }

  function ApiStatus(setup: Setup, email: string, route: Route): int {
    match route
    case Me => 200
    case Shares(failure) => ListingStatus(failure, false)
    case Folder(failure) => ListingStatus(failure, true)
    case Fetch(_, answer) => DownloadAnswer(answer)
    case Store(upload) => Status(setup.maxUpload, upload.(email := Some(email)), true)
    case _ => 404
  }

  /** What a request leaves behind. The two consent routes are in front of the consent gate, and exist only with it. */
  function RequestTrace(setup: Setup, r: Request): seq<Entry> {
    match Identify(setup, r)
    case Err(_) => []
    case Ok(d) =>
      if setup.document.Some? && r.route.Terms? then []
      else if setup.document.Some? && r.route.AcceptTerms? then
        [Audited(AcceptTos(d.email, setup.document.value.version))]
      else if !Consented(setup, r, d.email) then []
      else ApiTrace(setup, d.email, r.route)
  }

  function RequestStatus(setup: Setup, r: Request): int {
    match Identify(setup, r)
    case Err(_) => if r.wantsJson then 401 else 302
    case Ok(d) =>
      if setup.document.Some? && r.route.Terms? then 200
      else if setup.document.Some? && r.route.AcceptTerms? then if Printable(r.at) then 204 else 500
      else if !Consented(setup, r, d.email) then 403
      else ApiStatus(setup, d.email, r.route)
  }

  /** The cookies an admitted request's response sets: a refreshed session, a new acceptance. */
  function IssuedCookies(setup: Setup, r: Request): seq<SetCookie> {
    match Identify(setup, r)
    case Err(_) => []
    case Ok(d) =>
      var cfg := setup.settings.session;
      (if Refreshes(cfg, d, r.at) then [SessionCookie(cfg, Touch(cfg, d, r.at), r.at)] else [])
      + if setup.document.Some? && r.route.AcceptTerms? then AcceptanceCookies(setup, d.email, r.at) else []
  }

  /** The acceptance cookie, or none if sealing it fails. */
  function AcceptanceCookies(setup: Setup, email: string, now: Time): seq<SetCookie>
    requires setup.document.Some?
  {
    match SealAcceptance(setup.crypto, setup.key, AcceptanceBy(setup, email, now))
    case None => []
    case Some(token) => [SetCookie(TOS_COOKIE, CookieValue.Text(token), ACCEPTANCE_MAX_AGE)]
  }

  // ----- The handlers -----

  method RequireTos(setup: Setup, w: ResponseWriter, r: Request, session: SessionData) returns (admitted: bool)
    requires w.status == None
    modifies w`status
    ensures admitted <==> Consented(setup, r, session.email)
    ensures w.status == if admitted then None else Some(403)
  {
    admitted := true;
    if setup.document.Some? {
      admitted := CheckAcceptance(setup.crypto, setup.key, setup.document.value.hash, r.tos, session.email);
      if !admitted {
        w.WriteHeader(403);
      }
    }
  }

  /** The cookie is set before the status commits the headers, so it does reach the client. */
  method AcceptHandler(setup: Setup, w: ResponseWriter, session: SessionData, now: Time) returns (trace: seq<Entry>)
    requires w.status == None && setup.document.Some?
    modifies w
    ensures trace == [Audited(AcceptTos(session.email, setup.document.value.version))]
    ensures w.status == Some(if Printable(now) then 204 else 500)
    ensures w.expiresIn == old(w.expiresIn)
    ensures w.cookies == old(w.cookies) + AcceptanceCookies(setup, session.email, now)
  {
    trace := [Audited(AcceptTos(session.email, setup.document.value.version))];
    var token := SealAcceptance(setup.crypto, setup.key, AcceptanceBy(setup, session.email, now));
    if token == None {
      w.WriteHeader(500);
      return;
    }
    w.SetCookie(SetCookie(TOS_COOKIE, CookieValue.Text(token.value), ACCEPTANCE_MAX_AGE));
    w.WriteHeader(204);
  }

  method ServeRoute(setup: Setup, w: ResponseWriter, session: SessionData, route: Route) returns (trace: seq<Entry>)
    requires w.status == None
    modifies w`status
    ensures trace == ApiTrace(setup, session.email, route)
    ensures w.status == Some(ApiStatus(setup, session.email, route))
  {
    trace := [];
    var status := 404;
    match route {
      case Me =>
        status := 200;
      case Shares(failure) =>
        trace := [Call(Operation.ListShares, session.email)];
        status := ListingStatus(failure, false);
        if failure == None {
          trace := trace + [Audited(ListedShares(session.email))];
        }
      case Folder(failure) =>
        trace := [Call(Operation.ListFolder, session.email)];
        status := ListingStatus(failure, true);
        if failure == None {
          trace := trace + [Audited(ListedFolder(session.email))];
        }
      case Fetch(operation, answer) =>
        var sent;
        status, trace, sent := HandleDownload(operation, session.email, answer);
      case Store(upload) =>
        var received;
        status, trace, received := HandleUpload(setup.maxUpload, upload.(email := Some(session.email)));
      case _ =>
    }
    w.WriteHeader(status);
  }

  /** A whole request: authentication, the consent routes, the consent gate, the handler. */
  method Serve(setup: Setup, w: ResponseWriter, r: Request) returns (trace: seq<Entry>)
    requires w.Fresh()
    modifies w
    ensures trace == RequestTrace(setup, r)
    ensures Identify(setup, r).Ok? ==> w.cookies == IssuedCookies(setup, r)
    ensures w.status == Some(RequestStatus(setup, r))
  {
    var presented := PresentSession(setup.crypto, setup.key, r.session);
    var session := RequireAuth(setup.settings.session, w, presented, r.wantsJson, "", r.at);
    if session == None {
      return [];
    }
    if setup.document.Some? && r.route.Terms? {
      w.WriteHeader(200);
      return [];
    }
    if setup.document.Some? && r.route.AcceptTerms? {
      trace := AcceptHandler(setup, w, session.value, r.at);
      return;
    }
    var admitted := RequireTos(setup, w, r, session.value);
    if !admitted {
      return [];
    }
    trace := ServeRoute(setup, w, session.value, r.route);
  }

  // ----- What a request leads to -----

  /** The routes whose handlers call the provider. */
  predicate CallsProvider(setup: Setup, route: Route) {
    match route
    case Shares(_) => true
    case Folder(_) => true
    case Fetch(_, _) => true
    case Store(upload) => upload.contentLength <= setup.maxUpload && upload.filename != ""
    case _ => false
  }

  function OperationOf(route: Route): Operation
    requires route.Shares? || route.Folder? || route.Fetch? || route.Store?
  {
    match route
    case Shares(_) => Operation.ListShares
    case Folder(_) => Operation.ListFolder
    case Fetch(operation, _) => operation
    case Store(_) => Operation.Upload
  }

  /** How often the provider is called, and for what. */
  function Calls(trace: seq<Entry>): seq<Entry> {
    if trace == [] then []
    else (if trace[0].Call? then [trace[0]] else []) + Calls(trace[1..])
  }

  lemma {:induction false} CallsConcat(a: seq<Entry>, b: seq<Entry>)
    ensures Calls(a + b) == Calls(a) + Calls(b)
  {
    if a == [] {
      assert a + b == b;
    } else {
      CallsConcat(a[1..], b);
      assert (a + b)[1..] == a[1..] + b;
    }
  }

  lemma {:induction false} NoCalls(trace: seq<Entry>)
    requires forall k :: 0 <= k < |trace| ==> trace[k].Audited?
    ensures Calls(trace) == []
  {
    if trace != [] {
      NoCalls(trace[1..]);
    }
  }

  lemma OneCall(before: seq<Entry>, call: Entry, after: seq<Entry>)
    requires call.Call?
    requires forall k :: 0 <= k < |before| ==> before[k].Audited?
    requires forall k :: 0 <= k < |after| ==> after[k].Audited?
    ensures Calls(before + [call] + after) == [call]
  {
    CallsConcat(before + [call], after);
    CallsConcat(before, [call]);
    NoCalls(before);
    NoCalls(after);
    assert [call][1..] == [];
  }

  lemma ApiCalls(setup: Setup, email: string, route: Route)
    ensures Calls(ApiTrace(setup, email, route))
         == if CallsProvider(setup, route) then [Call(OperationOf(route), email)] else []
  {
    hide Calls, Failure, UploadProgress, Delivered, Completes, Flatten;
    var trace := ApiTrace(setup, email, route);
    if CallsProvider(setup, route) {
      var n := if route.Store? then 1 else 0;
      var call := Call(OperationOf(route), email);
      assert trace == trace[..n] + [call] + trace[n + 1..];
      OneCall(trace[..n], call, trace[n + 1..]);
    } else {
      NoCalls(trace);
    }
  }

  /** A request calls the provider exactly once if it is admitted, has consent where that is required, and its route asks
      for it; and in no other case. */
  lemma RequestCalls(setup: Setup, r: Request)
    ensures Calls(RequestTrace(setup, r))
         == if Identify(setup, r).Ok? && Consented(setup, r, Identify(setup, r).value.email) && CallsProvider(setup, r.route)
            then [Call(OperationOf(r.route), Identify(setup, r).value.email)] else []
  {
    hide ApiTrace, Identify, Consented;
    NoCalls([]);
    if Identify(setup, r).Ok? {
      var email := Identify(setup, r).value.email;
      ApiCalls(setup, email, r.route);
      if setup.document.Some? {
        NoCalls([Audited(AcceptTos(email, setup.document.value.version))]);
      }
    }
  }

  /** Listings are recorded exactly when they succeed, and an acceptance exactly when it is asked for and there are terms. */
  lemma RecordsExactly(setup: Setup, r: Request)
    ensures forall email ::
              (Audited(ListedShares(email)) in RequestTrace(setup, r)
               <==> r.route == Shares(None) && AdmittedAs(setup, r, email) && Consented(setup, r, email))
    ensures forall email ::
              (Audited(ListedFolder(email)) in RequestTrace(setup, r)
               <==> r.route == Folder(None) && AdmittedAs(setup, r, email) && Consented(setup, r, email))
    ensures forall email, version ::
              (Audited(AcceptTos(email, version)) in RequestTrace(setup, r)
               <==> r.route == AcceptTerms && AdmittedAs(setup, r, email)
                    && setup.document.Some? && setup.document.value.version == version)
  {
    hide Identify, Consented, Failure, UploadProgress, Delivered, Completes, Flatten;
  }

  predicate AdmittedAs(setup: Setup, r: Request, email: string) {
    Identify(setup, r).Ok? && Identify(setup, r).value.email == email
  }

  /** The answers of the gates: 401 or the login without a session, 403 without consent, and 404 for the consent routes
      where there are no terms; a listing that fails says 502 for an answer the provider should not give, 503 when it
      cannot be reached, and the share's own condition for a folder. */
  lemma GateAnswers(setup: Setup, r: Request)
    ensures var status := RequestStatus(setup, r);
            && (Identify(setup, r).Err? ==> status == if r.wantsJson then 401 else 302)
            && (Identify(setup, r).Ok? && !Consented(setup, r, Identify(setup, r).value.email) ==>
                  (status == 403 <==> !r.route.Terms? && !r.route.AcceptTerms?))
            && (Identify(setup, r).Ok? && setup.document == None && (r.route.Terms? || r.route.AcceptTerms?) ==> status == 404)
            && (Identify(setup, r).Ok? && Consented(setup, r, Identify(setup, r).value.email) ==>
                  match r.route
                  case Me => status == 200
                  case Shares(None) => status == 200
                  case Shares(Some(UnexpectedStatus)) => status == 502
                  case Shares(Some(_)) => status == 503
                  case Folder(None) => status == 200
                  case Folder(Some(ShareNotFound)) => status == 404
                  case Folder(Some(Forbidden)) => status == 403
                  case Folder(Some(ShareGone)) => status == 410
                  case Folder(Some(UnexpectedStatus)) => status == 502
                  case Folder(Some(Unreachable)) => status == 503
                  case Elsewhere => status == 404
                  case _ => true)
  {
    hide Identify;
  }

  /** Accepting the terms works: for a year the cookie it sets, and nothing less, lets requests of the same canonical
      email through while the same document is in force. */
  lemma AcceptingWorks(setup: Setup, r: Request, later: Request, email: string)
    requires setup.crypto.Valid() && setup.document.Some? && r.route.AcceptTerms? && Printable(r.at)
    requires Identify(setup, r).Ok? && later.tos.Some?
    requires setup.crypto.canonical(email) == setup.crypto.canonical(Identify(setup, r).value.email)
    requires exists i :: 0 <= i < |IssuedCookies(setup, r)| && IssuedCookies(setup, r)[i].name == "tos_accepted"
                         && IssuedCookies(setup, r)[i].value == CookieValue.Text(later.tos.value)
    ensures Consented(setup, later, email)
  {
    var d := Identify(setup, r).value;
    AcceptanceChecks(setup.crypto, setup.key, AcceptanceBy(setup, d.email, r.at), setup.document.value.hash, email);
  }

  /** And there is such a cookie. */
  lemma AcceptingSetsCookie(setup: Setup, r: Request)
    requires setup.document.Some? && r.route.AcceptTerms? && Printable(r.at) && Identify(setup, r).Ok?
    ensures exists i :: 0 <= i < |IssuedCookies(setup, r)|
                        && IssuedCookies(setup, r)[i].name == "tos_accepted" && IssuedCookies(setup, r)[i].value.Text?
                        && IssuedCookies(setup, r)[i].maxAge == 365 * 24 * 60 * 60
  {
    hide Identify;
    var cookies := IssuedCookies(setup, r);
    assert cookies[|cookies| - 1].name == "tos_accepted";
  }

  // ----- Runs -----

  /** Publish is a restart with other terms, or with none. */
  datatype Event =
    | SignIn(claims: Claims, idToken: string, at: Time)
    | Asks(request: Request)
    | Publish(document: Option<Document>)

  /** The history: sign-ins, and what each request left behind, tagged with its event and the terms in force. */
  datatype Logged = SignedIn(session: SessionData) | By(event: nat, document: Option<Document>, entry: Entry)

  /** issued holds every cookie value the gateway has set, document the terms in force. */
  datatype State = State(log: seq<Logged>, issued: seq<CookieValue>, document: Option<Document>)

  function Tag(event: nat, document: Option<Document>, trace: seq<Entry>): seq<Logged> {
    seq(|trace|, i requires 0 <= i < |trace| => By(event, document, trace[i]))
  }

  function Values(cookies: seq<SetCookie>): seq<CookieValue> {
    seq(|cookies|, i requires 0 <= i < |cookies| => cookies[i].value)
  }

  /** The configuration with the terms in force. */
  function Now(setup: Setup, s: State): Setup {
    setup.(document := s.document)
  }

  function AfterRequest(setup: Setup, s: State, n: nat, r: Request): State {
    s.(log := s.log + Tag(n, s.document, RequestTrace(Now(setup, s), r)),
       issued := s.issued + Values(IssuedCookies(Now(setup, s), r)))
  }

  /** A callback that reached the claims; those refused leave no session. */
  function AfterSignIn(setup: Setup, s: State, claims: Claims, idToken: string, at: Time): State {
    if ClaimsDenial(setup.settings, claims, at).Some? then s
    else
      var session := NewSession(setup.settings.session, claims.email, idToken, at);
      s.(log := s.log + [SignedIn(session)], issued := s.issued + [Token(session)])
  }

  function Step(setup: Setup, s: State, n: nat, event: Event): State {
    match event
    case SignIn(claims, idToken, at) => AfterSignIn(setup, s, claims, idToken, at)
    case Asks(r) => AfterRequest(setup, s, n, r)
    case Publish(document) => s.(document := document)
  }

  function Run(setup: Setup, events: seq<Event>): State {
    if events == [] then State([], [], setup.document)
    else
      var n := |events| - 1;
      Step(setup, Run(setup, events[..n]), n, events[n])
  }

  /** The configuration a run's event meets. */
  function InForce(setup: Setup, events: seq<Event>, n: nat): Setup
    requires n <= |events|
  {
    Now(setup, Run(setup, events[..n]))
  }

  function TokenOf(setup: Setup, value: CookieValue): Option<string> {
    match value
    case Text(text) => Some(text)
    case Token(session) => SealSession(setup.crypto, setup.key, session)
  }

  function OpenToken(setup: Setup, token: Option<string>): Option<Object> {
    if token.None? then None else OpenObject(setup.crypto, setup.key, token.value)
  }

  /** Nobody else can seal: a cookie that opens carries the payload of one the gateway has set. */
  predicate Genuine(setup: Setup, s: State, cookie: Option<string>) {
    OpenToken(setup, cookie).Some? ==>
      exists i :: 0 <= i < |s.issued| && OpenToken(setup, TokenOf(setup, s.issued[i])) == OpenToken(setup, cookie)
  }

  predicate Unforged(setup: Setup, events: seq<Event>) {
    forall n :: 0 <= n < |events| && events[n].Asks? ==>
      && events[n].request.at > ZERO_TIME
      && Genuine(setup, Run(setup, events[..n]), events[n].request.session)
      && Genuine(setup, Run(setup, events[..n]), events[n].request.tos)
  }

  predicate WasSignedIn(log: seq<Logged>, d: SessionData) {
    exists j :: 0 <= j < |log| && log[j].SignedIn? && d.SameSession(log[j].session)
  }

  /** The entry records that somebody whose email has that hash accepted the document with that hash, under the version
      label it had then. */
  predicate Records(setup: Setup, logged: Logged, emailHash: string, hash: string) {
    && logged.By? && logged.entry.Audited? && logged.entry.record.AcceptTos?
    && logged.document.Some? && logged.document.value.hash == hash
    && logged.entry.record.version == logged.document.value.version
    && HashEmail(setup.crypto, logged.entry.record.email) == emailHash
  }

  predicate HasAccepted(setup: Setup, log: seq<Logged>, emailHash: string, hash: string) {
    exists j :: 0 <= j < |log| && Records(setup, log[j], emailHash, hash)
  }

  /** Where a cookie value comes from. */
  ghost predicate Sourced(setup: Setup, log: seq<Logged>, value: CookieValue) {
    match value
    case Token(d) => WasSignedIn(log, d)
    case Text(text) =>
      exists a: Acceptance {:trigger SealAcceptance(setup.crypto, setup.key, a)} ::
        SealAcceptance(setup.crypto, setup.key, a) == Some(text) && HasAccepted(setup, log, a.emailHash, a.tosHash)
  }

  ghost predicate AllSourced(setup: Setup, s: State) {
    forall i :: 0 <= i < |s.issued| ==> Sourced(setup, s.log, s.issued[i])
  }

  lemma SourceStays(setup: Setup, log: seq<Logged>, more: seq<Logged>, value: CookieValue)
    requires Sourced(setup, log, value)
    ensures Sourced(setup, log + more, value)
  {
    match value {
      case Token(d) => SignInStays(log, more, d);
      case Text(text) =>
        var a: Acceptance :| SealAcceptance(setup.crypto, setup.key, a) == Some(text)
                             && HasAccepted(setup, log, a.emailHash, a.tosHash);
        AcceptanceStays(setup, log, more, a.emailHash, a.tosHash);
    }
  }

  lemma SignInStays(log: seq<Logged>, more: seq<Logged>, d: SessionData)
    requires WasSignedIn(log, d)
    ensures WasSignedIn(log + more, d)
  {
    var j :| 0 <= j < |log| && log[j].SignedIn? && d.SameSession(log[j].session);
    assert (log + more)[j] == log[j];
  }

  lemma AcceptanceStays(setup: Setup, log: seq<Logged>, more: seq<Logged>, emailHash: string, hash: string)
    requires HasAccepted(setup, log, emailHash, hash)
    ensures HasAccepted(setup, log + more, emailHash, hash)
  {
    var j :| 0 <= j < |log| && Records(setup, log[j], emailHash, hash);
    assert (log + more)[j] == log[j];
  }

  /** What a genuine cookie opens to: a session someone signed in to, or an acceptance on record. */
  lemma OpenedIsSourced(setup: Setup, s: State, cookie: Option<string>) returns (value: CookieValue)
    requires AllSourced(setup, s) && Genuine(setup, s, cookie) && OpenToken(setup, cookie).Some?
    ensures Sourced(setup, s.log, value)
    ensures OpenToken(setup, TokenOf(setup, value)) == OpenToken(setup, cookie)
  {
    var i :| 0 <= i < |s.issued| && OpenToken(setup, TokenOf(setup, s.issued[i])) == OpenToken(setup, cookie);
    value := s.issued[i];
  }

  /** An admitted request presents a session cookie the gateway has set, never an acceptance. */
  lemma PresentedWasIssued(setup: Setup, s: State, r: Request) returns (i: nat)
    requires setup.crypto.Valid() && AllSourced(setup, s) && Genuine(setup, s, r.session) && r.at > ZERO_TIME
    requires Identify(setup, r).Ok?
    ensures i < |s.issued| && s.issued[i] == Token(Identify(setup, r).value)
  {
    i :| 0 <= i < |s.issued| && OpenToken(setup, TokenOf(setup, s.issued[i])) == OpenToken(setup, r.session);
    hide Genuine;
    assert Sourced(setup, s.log, s.issued[i]);
    match s.issued[i] {
      case Token(d) =>
        OpenSealed(setup.crypto, setup.key, SessionObject(setup.crypto, d));
        SessionObjectReads(setup.crypto, d);
      case Text(text) =>
        var a: Acceptance :| SealAcceptance(setup.crypto, setup.key, a) == Some(text);
        OpenSealed(setup.crypto, setup.key, AcceptanceObject(setup.crypto, a));
        AcceptanceObjectReads(setup.crypto, a);
    }
  }

  /** And so it presents a session somebody signed in to. */
  lemma IdentifiedWasSignedIn(setup: Setup, s: State, r: Request)
    requires setup.crypto.Valid() && AllSourced(setup, s) && Genuine(setup, s, r.session) && r.at > ZERO_TIME
    requires Identify(setup, r).Ok?
    ensures WasSignedIn(s.log, Identify(setup, r).value)
  {
    hide Genuine, Identify;
    var i := PresentedWasIssued(setup, s, r);
    assert Sourced(setup, s.log, s.issued[i]);
  }

  /** A request that passes the consent check presents an acceptance of the current document that is on record for an
      email with the same hash. */
  lemma ConsentIsOnRecord(setup: Setup, s: State, r: Request, email: string)
    requires setup.crypto.Valid() && AllSourced(setup, s) && Genuine(setup, s, r.tos)
    requires setup.document.Some? && Consented(setup, r, email)
    ensures HasAccepted(setup, s.log, HashEmail(setup.crypto, email), setup.document.value.hash)
  {
    hide AllSourced, Genuine, HasAccepted;
    var value := OpenedIsSourced(setup, s, r.tos);
    match value {
      case Token(d) =>
        OpenSealed(setup.crypto, setup.key, SessionObject(setup.crypto, d));
        SessionObjectReads(setup.crypto, d);
      case Text(text) =>
        var a: Acceptance :| SealAcceptance(setup.crypto, setup.key, a) == Some(text)
                             && HasAccepted(setup, s.log, a.emailHash, a.tosHash);
        OpenSealed(setup.crypto, setup.key, AcceptanceObject(setup.crypto, a));
        AcceptanceObjectReads(setup.crypto, a);
    }
  }

  /** The terms in force play no part in where a cookie comes from. */
  lemma SameWithTerms(setup: Setup, s: State, cookie: Option<string>)
    ensures AllSourced(Now(setup, s), s) <==> AllSourced(setup, s)
    ensures Genuine(Now(setup, s), s, cookie) <==> Genuine(setup, s, cookie)
  {
    assert forall value :: TokenOf(Now(setup, s), value) == TokenOf(setup, value);
    forall value: CookieValue ensures Sourced(Now(setup, s), s.log, value) <==> Sourced(setup, s.log, value) {
      SourcedWithTerms(setup, s.document, s.log, value);
    }
  }

  lemma SourcedWithTerms(setup: Setup, document: Option<Document>, log: seq<Logged>, value: CookieValue)
    ensures Sourced(setup.(document := document), log, value) <==> Sourced(setup, log, value)
  {
    if value.Text? {
      forall a: Acceptance
        ensures HasAccepted(setup.(document := document), log, a.emailHash, a.tosHash)
           <==> HasAccepted(setup, log, a.emailHash, a.tosHash)
      {
        assert forall j :: 0 <= j < |log| ==>
          (Records(setup.(document := document), log[j], a.emailHash, a.tosHash)
           <==> Records(setup, log[j], a.emailHash, a.tosHash));
      }
    }
  }

  lemma AskKeepsSourced(setup: Setup, s: State, n: nat, r: Request)
    requires setup.crypto.Valid() && AllSourced(setup, s) && Genuine(setup, s, r.session) && r.at > ZERO_TIME
    ensures AllSourced(setup, AfterRequest(setup, s, n, r))
  {
    hide Sourced, IssuedCookies, RequestTrace, Genuine;
    var more := Tag(n, s.document, RequestTrace(Now(setup, s), r));
    var cookies := IssuedCookies(Now(setup, s), r);
    SameWithTerms(setup, s, r.session);
    forall i | 0 <= i < |s.issued| ensures Sourced(setup, s.log + more, s.issued[i]) {
      SourceStays(setup, s.log, more, s.issued[i]);
    }
    forall i | 0 <= i < |cookies| ensures Sourced(setup, s.log + more, cookies[i].value) {
      IssuedIsSourced(Now(setup, s), s, n, r, i);
      SourcedWithTerms(setup, s.document, s.log + more, cookies[i].value);
    }
  }

  lemma IssuedIsSourced(setup: Setup, s: State, n: nat, r: Request, i: nat)
    requires setup.crypto.Valid() && AllSourced(setup, s) && Genuine(setup, s, r.session) && r.at > ZERO_TIME
    requires setup.document == s.document && i < |IssuedCookies(setup, r)|
    ensures Sourced(setup, s.log + Tag(n, s.document, RequestTrace(setup, r)), IssuedCookies(setup, r)[i].value)
  {
    hide Identify, Consented, AllSourced, Genuine, AcceptanceCookies;
    var d := Identify(setup, r).value;
    IdentifiedWasSignedIn(setup, s, r);
    SignInStays(s.log, Tag(n, s.document, RequestTrace(setup, r)), d);
    if i == 0 && Refreshes(setup.settings.session, d, r.at) {
      assert IssuedCookies(setup, r)[i].value == Token(Touch(setup.settings.session, d, r.at));
    } else {
      NewAcceptanceSourced(setup, s.log, n, r, d, IssuedCookies(setup, r)[i]);
    }
  }

  lemma NewAcceptanceSourced(setup: Setup, log: seq<Logged>, n: nat, r: Request, d: SessionData, cookie: SetCookie)
    requires setup.document.Some? && r.route.AcceptTerms? && Identify(setup, r) == Ok(d)
    requires cookie in AcceptanceCookies(setup, d.email, r.at)
    ensures Sourced(setup, log + Tag(n, setup.document, RequestTrace(setup, r)), cookie.value)
  {
    var a := AcceptanceBy(setup, d.email, r.at);
    var longer := log + Tag(n, setup.document, RequestTrace(setup, r));
    assert longer[|log|] == By(n, setup.document, Audited(AcceptTos(d.email, setup.document.value.version)));
    assert Records(setup, longer[|log|], a.emailHash, a.tosHash);
    assert HasAccepted(setup, longer, a.emailHash, a.tosHash);
  }

  lemma {:induction false} EveryCookieSourced(setup: Setup, events: seq<Event>)
    requires setup.crypto.Valid() && Unforged(setup, events)
    ensures AllSourced(setup, Run(setup, events))
  {
    if events != [] {
      var n := |events| - 1;
      var s := Run(setup, events[..n]);
      UnforgedBefore(setup, events, n);
      EveryCookieSourced(setup, events[..n]);
      match events[n] {
        case SignIn(claims, idToken, at) => SignInKeepsSourced(setup, s, claims, idToken, at);
        case Asks(r) => AskKeepsSourced(setup, s, n, r);
        case Publish(_) =>
      }
    }
  }

  lemma SignInKeepsSourced(setup: Setup, s: State, claims: Claims, idToken: string, at: Time)
    requires AllSourced(setup, s)
    ensures AllSourced(setup, AfterSignIn(setup, s, claims, idToken, at))
  {
    var session := NewSession(setup.settings.session, claims.email, idToken, at);
    var log := s.log + [SignedIn(session)];
    forall i | 0 <= i < |s.issued| ensures Sourced(setup, log, s.issued[i]) {
      SourceStays(setup, s.log, [SignedIn(session)], s.issued[i]);
    }
    assert log[|s.log|].SignedIn?;
  }

  lemma UnforgedBefore(setup: Setup, events: seq<Event>, n: nat)
    requires Unforged(setup, events) && n <= |events|
    ensures Unforged(setup, events[..n])
  {
    forall k | 0 <= k < n ensures events[..n][..k] == events[..k] {
    }
  }

  /** What stands behind a provider call made by a request, under the terms then in force. */
  predicate Justified(setup: Setup, r: Request, log: seq<Logged>, email: string) {
    && Identify(setup, r).Ok? && Identify(setup, r).value.email == email
    && WasSignedIn(log, Identify(setup, r).value)
    && Consented(setup, r, email)
    && (setup.document.Some? ==> HasAccepted(setup, log, HashEmail(setup.crypto, email), setup.document.value.hash))
  }

  lemma NewCallJustified(setup: Setup, s: State, r: Request, more: seq<Logged>, k: nat)
    requires setup.crypto.Valid() && AllSourced(setup, s) && r.at > ZERO_TIME
    requires Genuine(setup, s, r.session) && Genuine(setup, s, r.tos)
    requires k < |RequestTrace(setup, r)| && RequestTrace(setup, r)[k].Call?
    ensures Justified(setup, r, s.log + more, RequestTrace(setup, r)[k].email)
  {
    hide AllSourced, Genuine, Identify, Consented, RequestTrace, WasSignedIn, HasAccepted;
    var email := RequestTrace(setup, r)[k].email;
    CallsAreGated(setup, r, k);
    IdentifiedWasSignedIn(setup, s, r);
    SignInStays(s.log, more, Identify(setup, r).value);
    if setup.document.Some? {
      ConsentIsOnRecord(setup, s, r, email);
      AcceptanceStays(setup, s.log, more, HashEmail(setup.crypto, email), setup.document.value.hash);
    }
  }

  /** In every run, with every cookie replayed to any address, the terms changing at any time and only forgery excluded:
      a call to the provider carries the email of a session accepted for that very request, which an earlier sign-in
      established; and with consent required, that request presented an acceptance of the document in force for that
      email, which is on record from a time that very document was in force. */
  lemma {:induction false} EveryCallJustified(setup: Setup, events: seq<Event>, k: nat)
    requires setup.crypto.Valid() && Unforged(setup, events)
    requires k < |Run(setup, events).log|
    ensures var logged := Run(setup, events).log[k];
            logged.By? && logged.entry.Call? ==>
              && logged.event < |events| && events[logged.event].Asks?
              && Justified(InForce(setup, events, logged.event), events[logged.event].request,
                           Run(setup, events).log[..k], logged.entry.email)
  {
    hide Justified, Genuine, AllSourced, RequestTrace, IssuedCookies;
    var n := |events| - 1;
    var s, log := Run(setup, events[..n]), Run(setup, events).log;
    UnforgedBefore(setup, events, n);
    if k < |s.log| {
      EveryCallJustified(setup, events[..n], k);
      assert log[..k] == s.log[..k] && log[k] == s.log[k];
      if log[k].By? && log[k].entry.Call? {
        assert events[..n][..log[k].event] == events[..log[k].event];
      }
    } else if log[k].By? && log[k].entry.Call? {
      var r := events[n].request;
      EveryCookieSourced(setup, events[..n]);
      SameWithTerms(setup, s, r.session);
      SameWithTerms(setup, s, r.tos);
      NewCallJustified(Now(setup, s), s, r, log[|s.log|..k], k - |s.log|);
      assert log[..k] == s.log + log[|s.log|..k];
    }
  }

  /** Where no other canonical form in the run has the call's hash, the acceptance on record is one by the same
      canonical email. */
  lemma EveryConsentIsCanonical(setup: Setup, events: seq<Event>, k: nat)
    requires setup.crypto.Valid() && Unforged(setup, events)
    requires k < |Run(setup, events).log| && Run(setup, events).log[k].By? && Run(setup, events).log[k].entry.Call?
    requires var log, email := Run(setup, events).log, Run(setup, events).log[k].entry.email;
             forall j :: 0 <= j < k && log[j].By? && log[j].entry.Audited? && log[j].entry.record.AcceptTos? ==>
               NoCollision(setup.crypto, log[j].entry.record.email, email)
    ensures var log := Run(setup, events).log;
            && log[k].event < |events|
            && var document := InForce(setup, events, log[k].event).document;
            && (document.Some? ==>
                 exists j :: 0 <= j < k && log[j].By? && log[j].document.Some?
                   && log[j].document.value.hash == document.value.hash
                   && log[j].entry.Audited? && log[j].entry.record.AcceptTos?
                   && setup.crypto.canonical(log[j].entry.record.email) == setup.crypto.canonical(log[k].entry.email))
  {
    EveryCallJustified(setup, events, k);
    var log := Run(setup, events).log;
    var now := InForce(setup, events, log[k].event);
    if now.document.Some? {
      var hash := HashEmail(setup.crypto, log[k].entry.email);
      assert HasAccepted(now, log[..k], hash, now.document.value.hash);
      var j :| 0 <= j < |log[..k]| && Records(now, log[..k][j], hash, now.document.value.hash);
      assert log[..k][j] == log[j];
    }
  }

  /** The hash keeps the two canonical forms apart if they differ. */
  predicate NoCollision(c: Crypto, e1: string, e2: string) {
    c.hash(c.canonical(e1)) == c.hash(c.canonical(e2)) ==> c.canonical(e1) == c.canonical(e2)
  }

  lemma UploadCallsFor(setup: Setup, u: Upload, k: nat)
    requires k < |UploadTrace(setup.maxUpload, u)|
    ensures UploadTrace(setup.maxUpload, u)[k].Call? ==> u.email == Some(UploadTrace(setup.maxUpload, u)[k].email)
  {
    hide Failure, UploadProgress, Delivered;
  }

  lemma DownloadCallsFor(operation: Operation, email: string, answer: Result<Content, ProviderError>, k: nat)
    requires k < |DownloadTrace(operation, email, answer)|
    ensures DownloadTrace(operation, email, answer)[k].Call? ==> DownloadTrace(operation, email, answer)[k].email == email
  {
    hide Completes, Flatten;
  }

  lemma ApiCallsFor(setup: Setup, email: string, route: Route, k: nat)
    requires k < |ApiTrace(setup, email, route)|
    ensures ApiTrace(setup, email, route)[k].Call? ==> ApiTrace(setup, email, route)[k].email == email
  {
    hide UploadTrace, DownloadTrace;
    match route {
      case Fetch(operation, answer) => DownloadCallsFor(operation, email, answer, k);
      case Store(upload) => UploadCallsFor(setup, upload.(email := Some(email)), k);
      case _ =>
    }
  }

  lemma CallsAreGated(setup: Setup, r: Request, k: nat)
    requires k < |RequestTrace(setup, r)| && RequestTrace(setup, r)[k].Call?
    ensures Identify(setup, r).Ok?
    ensures Identify(setup, r).value.email == RequestTrace(setup, r)[k].email
    ensures Consented(setup, r, RequestTrace(setup, r)[k].email)
  {
    hide ApiTrace, Consented, Identify;
    ApiCallsFor(setup, Identify(setup, r).value.email, r.route, k);
  }

  // ----- Starts and completions -----

  predicate IsStart(entry: Entry) {
    entry.Audited? && (entry.record.UploadStart? || entry.record.DownloadStart?)
  }

  predicate IsCompletion(entry: Entry) {
    entry.Audited? && (entry.record.UploadComplete? || entry.record.DownloadComplete?)
  }

  predicate StartOf(start: Entry, completion: Entry)
    requires IsStart(start) && IsCompletion(completion)
  {
    match completion.record
    case UploadComplete(email, filename, _) =>
      start.record.UploadStart? && start.record.email == email && start.record.filename == filename
    case DownloadComplete(email, _) => start.record.DownloadStart? && start.record.email == email
  }

  /** The entries of one request, in order. */
  function Of(log: seq<Logged>, n: nat): seq<Entry> {
    if log == [] then []
    else
      var last := log[|log| - 1];
      Of(log[..|log| - 1], n) + if last.By? && last.event == n then [last.entry] else []
  }

  lemma {:induction false} OfTagged(log: seq<Logged>, n: nat, document: Option<Document>, trace: seq<Entry>, m: nat)
    ensures Of(log + Tag(n, document, trace), m) == Of(log, m) + if m == n then trace else []
  {
    var tagged := log + Tag(n, document, trace);
    if trace == [] {
      assert tagged == log;
    } else {
      var init := trace[..|trace| - 1];
      assert tagged[..|tagged| - 1] == log + Tag(n, document, init);
      OfTagged(log, n, document, init, m);
      assert trace == init + [trace[|trace| - 1]];
    }
  }

  lemma OfSignIn(setup: Setup, s: State, claims: Claims, idToken: string, at: Time, n: nat)
    ensures Of(AfterSignIn(setup, s, claims, idToken, at).log, n) == Of(s.log, n)
  {
    var log := AfterSignIn(setup, s, claims, idToken, at).log;
    assert log != s.log ==> log[..|log| - 1] == s.log;
  }

  lemma NothingYet(setup: Setup, n: nat)
    ensures Of(Run(setup, []).log, n) == []
  {
  }

  /** Each request's entries in the history are those its own handling left behind, and nothing else. */
  lemma {:induction false} EntriesOfRequest(setup: Setup, events: seq<Event>, n: nat)
    ensures Of(Run(setup, events).log, n)
         == if n < |events| && events[n].Asks? then RequestTrace(InForce(setup, events, n), events[n].request) else []
  {
    hide RequestTrace, IssuedCookies, Of, Tag, Values, AfterSignIn;
    if events == [] {
      NothingYet(setup, n);
    } else {
      var last := |events| - 1;
      var s := Run(setup, events[..last]);
      EntriesOfRequest(setup, events[..last], n);
      if n < last {
        assert events[..last][..n] == events[..n];
      }
      match events[last] {
        case SignIn(claims, idToken, at) => OfSignIn(setup, s, claims, idToken, at, n);
        case Asks(r) => OfTagged(s.log, last, s.document, RequestTrace(Now(setup, s), r), n);
        case Publish(_) =>
      }
    }
  }

  /** Every completion belongs to exactly one start record of the same request, before it and for the same transfer. */
  predicate Paired(trace: seq<Entry>) {
    forall k :: 0 <= k < |trace| && IsCompletion(trace[k]) ==>
      exists j :: 0 <= j < k && IsStart(trace[j]) && StartOf(trace[j], trace[k])
                  && forall i :: 0 <= i < |trace| && IsStart(trace[i]) ==> i == j
  }

  lemma UploadPaired(max: nat, u: Upload)
    ensures Paired(UploadTrace(max, u))
  {
    hide Failure, UploadProgress, Delivered;
    if UploadTrace(max, u) != [] {
      assert IsStart(UploadTrace(max, u)[0]);
    }
  }

  lemma DownloadPaired(operation: Operation, email: string, answer: Result<Content, ProviderError>)
    ensures Paired(DownloadTrace(operation, email, answer))
  {
    hide Completes, Flatten;
    if answer.Ok? {
      assert IsStart(DownloadTrace(operation, email, answer)[1]);
    }
  }

  lemma RequestPaired(setup: Setup, r: Request)
    ensures Paired(RequestTrace(setup, r))
  {
    hide UploadTrace, DownloadTrace, Consented, Identify;
    match r.route {
      case Fetch(operation, answer) =>
        if Identify(setup, r).Ok? {
          DownloadPaired(operation, Identify(setup, r).value.email, answer);
        }
      case Store(upload) =>
        if Identify(setup, r).Ok? {
          UploadPaired(setup.maxUpload, upload.(email := Some(Identify(setup, r).value.email)));
        }
      case _ =>
    }
  }

  lemma EveryCompletionStarted(setup: Setup, events: seq<Event>, n: nat)
    ensures Paired(Of(Run(setup, events).log, n))
  {
    EntriesOfRequest(setup, events, n);
    if n < |events| && events[n].Asks? {
      RequestPaired(InForce(setup, events, n), events[n].request);
    }
  }
}
