/** The two payloads sealed under one key and one envelope: sessions and terms-of-service acceptances
    (internal/auth/session.go, internal/tos/cookie.go, cmd/atrium/main.go). */
module CookieKinds {
  import opened Wrappers
  import opened Session
  import opened SignedCookie
  import ConfigJson

  /** A JSON object whose members are strings, in order; encoding/json prints times as strings, too. */
  type Object = seq<(string, string)>

  /** Years 0 to 9999: the times encoding/json can print. */
  predicate Printable(t: Time) {
    -62_167_219_200 * SECOND <= t < 253_402_300_800 * SECOND
  }

  /** The primitives: the MAC, the JSON printer and reader, the time format, the hash and the email canonicalization. */
  datatype Crypto = Crypto(
    mac: Mac,
    marshal: Object -> Bytes,
    unmarshal: Bytes -> Option<Object>,
    showTime: Time -> string,
    readTime: string -> Option<Time>,
    hash: string -> string,
    canonical: string -> string)
  {
    /** Reading undoes printing, for objects and for times, and a hash is 64 hexadecimal digits. */
    ghost predicate Valid() {
      && (forall o: Object :: unmarshal(marshal(o)) == Some(o))
      && (forall t: Time :: Printable(t) ==> readTime(showTime(t)) == Some(t))
      && (forall text: string :: |hash(text)| == 64)
    }
  }

  datatype Acceptance = Acceptance(emailHash: string, tosHash: string, acceptedAt: Time)

  function Lower(c: char): char {
    if 'A' <= c <= 'Z' then 'a' + (c - 'A') else c
  }

  /** Go matches member names without regard to case, the last match winning. */
  predicate SameName(a: string, b: string) {
    |a| == |b| && forall i :: 0 <= i < |a| ==> Lower(a[i]) == Lower(b[i])
  }

  function Member(o: Object, name: string): Option<string> {
    if o == [] then None
    else if SameName(o[|o| - 1].0, name) then Some(o[|o| - 1].1)
    else Member(o[..|o| - 1], name)
  }

  /** A string field: an absent member leaves the zero value. */
  function TextField(o: Object, name: string): string {
    Member(o, name).GetOr("")
  }

  /** A time field: an absent member leaves the zero time, and one that is no time fails the decoding. */
  function TimeField(c: Crypto, o: Object, name: string): Option<Time> {
    match Member(o, name)
    case None => Some(ZERO_TIME)
    case Some(text) => c.readTime(text)
  }

  predicate PrintableSession(d: SessionData) {
    Printable(d.issuedAt) && Printable(d.expiresAt) && Printable(d.lastSeen)
  }

  function SessionObject(c: Crypto, d: SessionData): Object {
    [("email", d.email), ("iat", c.showTime(d.issuedAt)), ("exp", c.showTime(d.expiresAt)), ("seen", c.showTime(d.lastSeen))]
    + if d.idToken != "" then [("idt", d.idToken)] else []
  }

  function SessionOf(c: Crypto, o: Object): Option<SessionData> {
    var iat, exp, seen := TimeField(c, o, "iat"), TimeField(c, o, "exp"), TimeField(c, o, "seen");
    if iat.None? || exp.None? || seen.None? then None
    else Some(SessionData(TextField(o, "email"), iat.value, exp.value, seen.value, TextField(o, "idt")))
  }

  function AcceptanceObject(c: Crypto, a: Acceptance): Object {
    [("eh", a.emailHash), ("th", a.tosHash), ("at", c.showTime(a.acceptedAt))]
  }

  function AcceptanceOf(c: Crypto, o: Object): Option<Acceptance> {
    var at := TimeField(c, o, "at");
    if at.None? then None else Some(Acceptance(TextField(o, "eh"), TextField(o, "th"), at.value))
  }

  function OpenObject(c: Crypto, key: Bytes, token: string): Option<Object> {
    var payload := Open(c.mac, key, token);
    if payload.None? then None else c.unmarshal(payload.value)
  }

  /** Sealing fails for a session with a time that cannot be printed. */
  function SealSession(c: Crypto, key: Bytes, d: SessionData): Option<string> {
    if PrintableSession(d) then Some(Seal(c.mac, key, c.marshal(SessionObject(c, d)))) else None
  }

  function SealAcceptance(c: Crypto, key: Bytes, a: Acceptance): Option<string> {
    if Printable(a.acceptedAt) then Some(Seal(c.mac, key, c.marshal(AcceptanceObject(c, a)))) else None
  }

  /** What a session cookie's value amounts to. */
  function PresentSession(c: Crypto, key: Bytes, cookie: Option<string>): Presented {
    if cookie.None? then Absent
    else
      var o := OpenObject(c, key, cookie.value);
      if o.None? || SessionOf(c, o.value).None? then Unreadable else Sealed(SessionOf(c, o.value).value)
  }

  function HashEmail(c: Crypto, email: string): string {
    c.hash(c.canonical(email))
  }

  /** Whether a cookie proves consent of this email to the current document. */
  predicate CheckAcceptance(c: Crypto, key: Bytes, contentHash: string, cookie: Option<string>, email: string) {
    && cookie.Some?
    && var o := OpenObject(c, key, cookie.value);
    && o.Some?
    && var a := AcceptanceOf(c, o.value);
    && a.Some?
    && a.value.emailHash == HashEmail(c, email)
    && a.value.tosHash == contentHash
  }

  /** The member names that have the same length differ in some letter. */
  lemma NamesDiffer()
    ensures !SameName("iat", "exp") && !SameName("iat", "idt") && !SameName("exp", "idt")
    ensures !SameName("exp", "iat") && !SameName("idt", "iat") && !SameName("idt", "exp")
    ensures !SameName("eh", "th") && !SameName("eh", "at") && !SameName("th", "at")
    ensures !SameName("th", "eh") && !SameName("at", "eh") && !SameName("at", "th")
  {
    assert "iat"[0] == 'i' && "exp"[0] == 'e' && "idt"[0] == 'i' && "iat"[1] == 'a' && "idt"[1] == 'd';
    assert "eh"[0] == 'e' && "th"[0] == 't' && "at"[0] == 'a';
  }

  lemma MemberStep(o: Object, last: (string, string), name: string)
    ensures Member(o + [last], name) == if SameName(last.0, name) then Some(last.1) else Member(o, name)
  {
    assert (o + [last])[..|o|] == o;
  }

  lemma OpenSealed(c: Crypto, key: Bytes, o: Object)
    requires c.Valid()
    ensures OpenObject(c, key, Seal(c.mac, key, c.marshal(o))) == Some(o)
  {
    OpenSeal(c.mac, key, c.marshal(o));
  }

  /** The members of a printed session, whatever name is asked for. */
  lemma SessionMembers(c: Crypto, d: SessionData, name: string)
    ensures Member(SessionObject(c, d), name)
         == if d.idToken != "" && SameName("idt", name) then Some(d.idToken)
            else if SameName("seen", name) then Some(c.showTime(d.lastSeen))
            else if SameName("exp", name) then Some(c.showTime(d.expiresAt))
            else if SameName("iat", name) then Some(c.showTime(d.issuedAt))
            else if SameName("email", name) then Some(d.email)
            else None
  {
    var o1 := [("email", d.email)];
    var o2 := o1 + [("iat", c.showTime(d.issuedAt))];
    var o3 := o2 + [("exp", c.showTime(d.expiresAt))];
    var o4 := o3 + [("seen", c.showTime(d.lastSeen))];
    MemberStep([], o1[0], name);
    assert [] + [o1[0]] == o1;
    MemberStep(o1, ("iat", c.showTime(d.issuedAt)), name);
    MemberStep(o2, ("exp", c.showTime(d.expiresAt)), name);
    MemberStep(o3, ("seen", c.showTime(d.lastSeen)), name);
    MemberStep(o4, ("idt", d.idToken), name);
    assert SessionObject(c, d) == if d.idToken != "" then o4 + [("idt", d.idToken)] else o4;
  }

  lemma AcceptanceMembers(c: Crypto, a: Acceptance, name: string)
    ensures Member(AcceptanceObject(c, a), name)
         == if SameName("at", name) then Some(c.showTime(a.acceptedAt))
            else if SameName("th", name) then Some(a.tosHash)
            else if SameName("eh", name) then Some(a.emailHash)
            else None
  {
    var o1 := [("eh", a.emailHash)];
    var o2 := o1 + [("th", a.tosHash)];
    MemberStep([], o1[0], name);
    assert [] + [o1[0]] == o1;
    MemberStep(o1, ("th", a.tosHash), name);
    MemberStep(o2, ("at", c.showTime(a.acceptedAt)), name);
    assert AcceptanceObject(c, a) == o2 + [("at", c.showTime(a.acceptedAt))];
  }

  /** A session's payload reads back as that session, and never as an acceptance with an email hash. */
  lemma SessionObjectReads(c: Crypto, d: SessionData)
    requires c.Valid() && PrintableSession(d)
    ensures SessionOf(c, SessionObject(c, d)) == Some(d)
    ensures var a := AcceptanceOf(c, SessionObject(c, d)); a.Some? && a.value.emailHash == ""
  {
    NamesDiffer();
    SessionMembers(c, d, "email");
    SessionMembers(c, d, "iat");
    SessionMembers(c, d, "exp");
    SessionMembers(c, d, "seen");
    SessionMembers(c, d, "idt");
    SessionMembers(c, d, "eh");
    SessionMembers(c, d, "th");
    SessionMembers(c, d, "at");
  }

  /** An acceptance's payload reads back as that acceptance, and otherwise as a session that expired in year 1. */
  lemma AcceptanceObjectReads(c: Crypto, a: Acceptance)
    requires c.Valid() && Printable(a.acceptedAt)
    ensures AcceptanceOf(c, AcceptanceObject(c, a)) == Some(a)
    ensures var d := SessionOf(c, AcceptanceObject(c, a)); d.Some? && d.value.expiresAt == ZERO_TIME
  {
    NamesDiffer();
    AcceptanceMembers(c, a, "eh");
    AcceptanceMembers(c, a, "th");
    AcceptanceMembers(c, a, "at");
    AcceptanceMembers(c, a, "email");
    AcceptanceMembers(c, a, "iat");
    AcceptanceMembers(c, a, "exp");
    AcceptanceMembers(c, a, "seen");
    AcceptanceMembers(c, a, "idt");
  }

  /** A sealed session comes back as it was; the protocol model's abstract cookie stands for this token. */
  lemma SessionRoundTrip(c: Crypto, key: Bytes, d: SessionData)
    requires c.Valid()
    ensures SealSession(c, key, d).Some? ==> PresentSession(c, key, SealSession(c, key, d)) == Sealed(d)
  {
    if PrintableSession(d) {
      OpenSealed(c, key, SessionObject(c, d));
      SessionObjectReads(c, d);
    }
  }

  /** A sealed acceptance proves consent for exactly the emails and documents with the same hashes. */
  lemma AcceptanceChecks(c: Crypto, key: Bytes, a: Acceptance, contentHash: string, email: string)
    requires c.Valid()
    ensures SealAcceptance(c, key, a).Some? ==>
              (CheckAcceptance(c, key, contentHash, SealAcceptance(c, key, a), email)
               <==> a.emailHash == HashEmail(c, email) && a.tosHash == contentHash)
  {
    if Printable(a.acceptedAt) {
      OpenSealed(c, key, AcceptanceObject(c, a));
      AcceptanceObjectReads(c, a);
    }
  }

  /** Consent is a matter of the canonical email: spellings with the same canonical form pass with the same cookies. */
  lemma SameCanonicalSameConsent(c: Crypto, key: Bytes, contentHash: string, cookie: Option<string>, e1: string, e2: string)
    requires c.canonical(e1) == c.canonical(e2)
    ensures CheckAcceptance(c, key, contentHash, cookie, e1) <==> CheckAcceptance(c, key, contentHash, cookie, e2)
  {
  }

  /** And of nothing else: where the hash keeps two canonical forms apart, an acceptance sealed for one spelling passes for
      the other exactly when the canonical forms agree and the document is the same. */
  lemma ConsentIsCanonical(c: Crypto, key: Bytes, contentHash: string, current: string, e1: string, e2: string, at: Time)
    requires c.Valid() && Printable(at)
    requires c.hash(c.canonical(e1)) == c.hash(c.canonical(e2)) ==> c.canonical(e1) == c.canonical(e2)
    ensures var cookie := SealAcceptance(c, key, Acceptance(HashEmail(c, e1), contentHash, at));
            CheckAcceptance(c, key, current, cookie, e2)
            <==> c.canonical(e1) == c.canonical(e2) && contentHash == current
  {
    AcceptanceChecks(c, key, Acceptance(HashEmail(c, e1), contentHash, at), current, e2);
  }

  /** Members are found whatever the case of their names, the last one winning, as Go's decoder finds them. */
  lemma LastSpellingWins(o: Object, upper: string, name: string, text: string)
    requires |upper| == |name|
    requires forall i :: 0 <= i < |name| ==> 'A' <= upper[i] <= 'Z' && name[i] == 'a' + (upper[i] - 'A')
    ensures TextField(o + [(upper, text)], name) == text && TextField(o + [(name, text)], name) == text
  {
    MemberStep(o, (upper, text), name);
    MemberStep(o, (name, text), name);
  }

  /** Neither kind is ever accepted as the other. */
  lemma KindsNeverConfused(c: Crypto, key: Bytes, cfg: Config, d: SessionData, a: Acceptance, contentHash: string,
                           email: string, now: Time)
    requires c.Valid() && now > ZERO_TIME
    ensures SealAcceptance(c, key, a).Some? ==>
              Validate(cfg, PresentSession(c, key, SealAcceptance(c, key, a)), now) == Err(SessionExpired)
    ensures !CheckAcceptance(c, key, contentHash, SealSession(c, key, d), email)
  {
    if Printable(a.acceptedAt) {
      OpenSealed(c, key, AcceptanceObject(c, a));
      AcceptanceObjectReads(c, a);
    }
    if PrintableSession(d) {
      OpenSealed(c, key, SessionObject(c, d));
      SessionObjectReads(c, d);
    }
  }

  // ----- The assumption is met by the printer -----

  /** The object as the encoder's members. */
  function Members(o: Object): seq<ConfigJson.Member> {
    seq(|o|, i requires 0 <= i < |o| => (o[i].0, ConfigJson.Str(o[i].1)))
  }

  function Texts(members: seq<ConfigJson.Member>): Option<Object> {
    if forall i :: 0 <= i < |members| ==> members[i].1.Str? then
      Some(seq(|members|, i requires 0 <= i < |members| => (members[i].0, members[i].1.text)))
    else None
  }

  function Marshal(utf8: string -> Bytes, o: Object): Bytes {
    utf8(ConfigJson.PrintObject(Members(o)))
  }

  function Unmarshal(readUtf8: Bytes -> Option<string>, b: Bytes): Option<Object> {
    match readUtf8(b)
    case None => None
    case Some(text) =>
      match ConfigJson.ReadObject(text)
      case None => None
      case Some(members) => Texts(members)
  }

  lemma TextsOfMembers(o: Object)
    ensures Texts(Members(o)) == Some(o)
  {
    assert Texts(Members(o)).value == o;
  }

  lemma UnmarshalMarshal(utf8: string -> Bytes, readUtf8: Bytes -> Option<string>, o: Object)
    requires forall text: string :: readUtf8(utf8(text)) == Some(text)
    ensures Unmarshal(readUtf8, Marshal(utf8, o)) == Some(o)
  {
    hide Texts, Members, ConfigJson.PrintObject, ConfigJson.ReadObject;
    ConfigJson.ReadPrinted(Members(o));
    TextsOfMembers(o);
  }

  /** What is assumed of the codec holds of the gateway's own JSON printer, whatever the invertible text encoding and time
      format under it. */
  lemma JsonIsValid(c: Crypto, utf8: string -> Bytes, readUtf8: Bytes -> Option<string>)
    requires forall o: Object :: c.marshal(o) == Marshal(utf8, o)
    requires forall b: Bytes :: c.unmarshal(b) == Unmarshal(readUtf8, b)
    requires forall text: string :: readUtf8(utf8(text)) == Some(text)
    requires forall t: Time :: Printable(t) ==> c.readTime(c.showTime(t)) == Some(t)
    requires forall text: string :: |c.hash(text)| == 64
    ensures c.Valid()
  {
    hide Marshal, Unmarshal;
    forall o: Object ensures c.unmarshal(c.marshal(o)) == Some(o) {
      UnmarshalMarshal(utf8, readUtf8, o);
    }
  }
}
