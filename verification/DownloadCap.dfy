/** Download limits under concurrency: the share lookup and the check-and-increment are separate locked steps, and
    the dataset can be reseeded in between (cmd/atrium-e2e/stubprovider.go, cmd/atrium-e2e/fixtures.go). */
module DownloadCap {
  import opened Wrappers

  /** What the locked step answers for a share with that many downloads behind it. */
  function DownloadStatus(max: Option<int>, count: int): int {
    if max.Some? && count >= max.value then 410 else 200
  }

  /** A share object in memory. */
  datatype Share = Share(recipient: string, max: Option<int>, count: int)

  /** A finished content download of one share object. */
  datatype Answer = Answer(share: nat, status: int, email: string)

  /** A lookup that found a share for the caller. */
  datatype Lookup = Lookup(share: nat, email: string)

  /** All share objects ever created, the ones each id names now, the object each request has looked up, and the
      downloads finished so far. */
  datatype State = State(shares: seq<Share>, store: map<string, nat>, pending: map<nat, Lookup>, log: seq<Answer>)

  /** A new share of the canonical fixture. */
  datatype Fixture = Fixture(id: string, recipient: string, max: Option<int>)

  datatype Event =
    | Seed(fixtures: seq<Fixture>)
    | Find(request: nat, id: string, email: string)
    | Finish(request: nat)

  function FreshShares(fixtures: seq<Fixture>): seq<Share> {
    seq(|fixtures|, i requires 0 <= i < |fixtures| => Share(fixtures[i].recipient, fixtures[i].max, 0))
  }

  function Index(fixtures: seq<Fixture>, base: nat): map<string, nat> {
    if fixtures == [] then map[]
    else Index(fixtures[..|fixtures| - 1], base)[fixtures[|fixtures| - 1].id := base + |fixtures| - 1]
  }

  function Step(s: State, event: Event): State {
    match event
    case Seed(fixtures) =>
      s.(shares := s.shares + FreshShares(fixtures), store := Index(fixtures, |s.shares|))
    case Find(request, id, email) =>
      if id in s.store && s.store[id] < |s.shares| && s.shares[s.store[id]].recipient == email
      then s.(pending := s.pending[request := Lookup(s.store[id], email)]) else s
    case Finish(request) =>
      if request in s.pending && s.pending[request].share < |s.shares| then
        var share := s.pending[request].share;
        var status := DownloadStatus(s.shares[share].max, s.shares[share].count);
        State(if status == 200 then s.shares[share := s.shares[share].(count := s.shares[share].count + 1)] else s.shares,
              s.store, s.pending - {request}, s.log + [Answer(share, status, s.pending[request].email)])
      else s
  }

  function Run(events: seq<Event>): State {
    if events == [] then State([], map[], map[], [])
    else Step(Run(events[..|events| - 1]), events[|events| - 1])
  }

  /** How many downloads of one share object succeeded. */
  function Successes(log: seq<Answer>, share: nat): nat {
    if log == [] then 0
    else
      var last := log[|log| - 1];
      Successes(log[..|log| - 1], share) + if last.share == share && last.status == 200 then 1 else 0
  }

  /** Whether each finished download got the answer its object's limit and the downloads before it call for. */
  predicate AnswersDetermined(s: State) {
    forall k :: 0 <= k < |s.log| ==>
      && s.log[k].share < |s.shares|
      && s.log[k].status == DownloadStatus(s.shares[s.log[k].share].max, Successes(s.log[..k], s.log[k].share))
  }

  predicate CountsMatch(s: State) {
    forall i :: 0 <= i < |s.shares| ==> s.shares[i].count == Successes(s.log, i)
  }

  lemma {:induction false} NoAnswersYet(log: seq<Answer>, share: nat)
    requires forall k :: 0 <= k < |log| ==> log[k].share < share
    ensures Successes(log, share) == 0
  {
    if log != [] {
      NoAnswersYet(log[..|log| - 1], share);
    }
  }

  /** A longer log and the same limits leave the earlier answers determined. */
  lemma LongerLogDetermined(s: State, after: State)
    requires AnswersDetermined(s) && s.log <= after.log && |s.shares| <= |after.shares|
    requires forall i :: 0 <= i < |s.shares| ==> after.shares[i].max == s.shares[i].max
    requires forall k :: |s.log| <= k < |after.log| ==>
               && after.log[k].share < |after.shares|
               && after.log[k].status == DownloadStatus(after.shares[after.log[k].share].max,
                                                        Successes(after.log[..k], after.log[k].share))
    ensures AnswersDetermined(after)
  {
    forall k | 0 <= k < |s.log| ensures after.log[k] == s.log[k] && after.log[..k] == s.log[..k] {
    }
  }

  lemma SeedKeepsCounts(s: State, fixtures: seq<Fixture>)
    requires AnswersDetermined(s) && CountsMatch(s)
    ensures AnswersDetermined(Step(s, Seed(fixtures))) && CountsMatch(Step(s, Seed(fixtures)))
  {
    var after := Step(s, Seed(fixtures));
    LongerLogDetermined(s, after);
    forall i | 0 <= i < |after.shares| ensures after.shares[i].count == Successes(s.log, i) {
      if i >= |s.shares| {
        NoAnswersYet(s.log, i);
      }
    }
  }

  lemma FinishKeepsCounts(s: State, request: nat)
    requires AnswersDetermined(s) && CountsMatch(s)
    requires request in s.pending && s.pending[request].share < |s.shares|
    ensures AnswersDetermined(Step(s, Finish(request))) && CountsMatch(Step(s, Finish(request)))
  {
    var after := Step(s, Finish(request));
    assert after.log[..|s.log|] == s.log;
    LongerLogDetermined(s, after);
  }

  lemma StepKeepsCounts(s: State, event: Event)
    requires AnswersDetermined(s) && CountsMatch(s)
    ensures AnswersDetermined(Step(s, event)) && CountsMatch(Step(s, event))
  {
    match event {
      case Seed(fixtures) => SeedKeepsCounts(s, fixtures);
      case Find(_, _, _) =>
      case Finish(request) =>
        if request in s.pending && s.pending[request].share < |s.shares| {
          FinishKeepsCounts(s, request);
        }
    }
  }

  lemma {:induction false} EveryRunDetermined(events: seq<Event>)
    ensures AnswersDetermined(Run(events)) && CountsMatch(Run(events))
  {
    if events != [] {
      EveryRunDetermined(events[..|events| - 1]);
      StepKeepsCounts(Run(events[..|events| - 1]), events[|events| - 1]);
    }
  }

  lemma {:induction false} SuccessesGrow(log: seq<Answer>, share: nat, k: nat)
    requires k <= |log|
    ensures Successes(log[..k], share) <= Successes(log, share)
  {
    if k < |log| {
      assert log[..|log| - 1][..k] == log[..k];
      SuccessesGrow(log[..|log| - 1], share, k);
    } else {
      assert log[..k] == log;
    }
  }

  lemma {:induction false} CountStaysBelow(shares: seq<Share>, log: seq<Answer>, share: nat)
    requires share < |shares| && shares[share].max.Some? && shares[share].max.value >= 0
    requires forall k :: 0 <= k < |log| && log[k].share == share ==>
               log[k].status == DownloadStatus(shares[share].max, Successes(log[..k], share))
    ensures Successes(log, share) <= shares[share].max.value
  {
    if log != [] {
      var before := log[..|log| - 1];
      forall k | 0 <= k < |before| && before[k].share == share
        ensures before[k].status == DownloadStatus(shares[share].max, Successes(before[..k], share))
      {
        assert before[..k] == log[..k];
      }
      CountStaysBelow(shares, before, share);
    }
  }

  /** Once refused, always refused. */
  lemma RefusalSticks(s: State, share: nat, j: nat, k: nat)
    requires AnswersDetermined(s) && share < |s.shares| && j < k < |s.log|
    requires s.log[j].share == share && s.log[j].status == 410 && s.log[k].share == share
    ensures s.log[k].status == 410
  {
    hide Successes;
    assert s.log[..k][..j] == s.log[..j];
    SuccessesGrow(s.log[..k], share, j);
  }

  /** In every interleaving of lookups, finished downloads and reseeds, a share object's counter equals its successful
      downloads and never exceeds its limit; a download is refused exactly when the limit is already used up, so
      from the moment it is reached every later download of that object is refused. */
  lemma CapHolds(events: seq<Event>, share: nat)
    requires share < |Run(events).shares|
    ensures var s := Run(events);
            && s.shares[share].count == Successes(s.log, share)
            && (s.shares[share].max.Some? && s.shares[share].max.value >= 0 ==>
                  s.shares[share].count <= s.shares[share].max.value)
            && forall k :: 0 <= k < |s.log| && s.log[k].share == share ==>
                 (s.log[k].status == 410
                  <==> s.shares[share].max.Some? && Successes(s.log[..k], share) >= s.shares[share].max.value)
    ensures var s := Run(events);
            forall j, k :: 0 <= j < k < |s.log| && s.log[j].share == share && s.log[j].status == 410 && s.log[k].share == share
                           ==> s.log[k].status == 410
  {
    hide Successes, Run;
    EveryRunDetermined(events);
    var s := Run(events);
    if s.shares[share].max.Some? && s.shares[share].max.value >= 0 {
      CountStaysBelow(s.shares, s.log, share);
    }
    forall j, k | 0 <= j < k < |s.log| && s.log[j].share == share && s.log[j].status == 410 && s.log[k].share == share
      ensures s.log[k].status == 410
    {
      RefusalSticks(s, share, j, k);
    }
  }

  // ----- Who downloads, and what a reseed does -----

  predicate Owns(shares: seq<Share>, share: nat, email: string) {
    share < |shares| && shares[share].recipient == email
  }

  /** Lookups and downloads are of one's own shares. */
  predicate OnlyRecipients(s: State) {
    && (forall r :: r in s.pending ==> Owns(s.shares, s.pending[r].share, s.pending[r].email))
    && (forall k :: 0 <= k < |s.log| ==> Owns(s.shares, s.log[k].share, s.log[k].email))
  }

  /** Share objects are only added and never change hands. */
  lemma OwnersStay(s: State, event: Event, share: nat, email: string)
    requires Owns(s.shares, share, email)
    ensures Owns(Step(s, event).shares, share, email)
  {
  }

  lemma StepKeepsRecipients(s: State, event: Event)
    requires OnlyRecipients(s)
    ensures OnlyRecipients(Step(s, event))
  {
    hide Owns;
    var after := Step(s, event);
    forall r | r in after.pending ensures Owns(after.shares, after.pending[r].share, after.pending[r].email) {
      FoundIsOwned(s, event, r);
      OwnersStay(s, event, after.pending[r].share, after.pending[r].email);
    }
    forall k | 0 <= k < |after.log| ensures Owns(after.shares, after.log[k].share, after.log[k].email) {
      OwnersStay(s, event, after.log[k].share, after.log[k].email);
    }
  }

  lemma FoundIsOwned(s: State, event: Event, request: nat)
    requires OnlyRecipients(s) && request in Step(s, event).pending
    ensures Owns(s.shares, Step(s, event).pending[request].share, Step(s, event).pending[request].email)
  {
  }

  /** In every interleaving only a share's recipient downloads it, whatever is reseeded in between. */
  lemma {:induction false} EveryDownloadIsTheRecipients(events: seq<Event>)
    ensures OnlyRecipients(Run(events))
  {
    if events != [] {
      EveryDownloadIsTheRecipients(events[..|events| - 1]);
      StepKeepsRecipients(Run(events[..|events| - 1]), events[|events| - 1]);
    }
  }

  lemma {:induction false} IndexIsLast(fixtures: seq<Fixture>, base: nat, k: nat)
    requires k < |fixtures| && forall l :: k < l < |fixtures| ==> fixtures[l].id != fixtures[k].id
    ensures fixtures[k].id in Index(fixtures, base) && Index(fixtures, base)[fixtures[k].id] == base + k
  {
    if k < |fixtures| - 1 {
      IndexIsLast(fixtures[..|fixtures| - 1], base, k);
    }
  }

  /** A reseed starts afresh: the next lookup of a fixture finds a new object with that fixture's limit and nothing counted
      against it, while a lookup made before still has its old object. */
  lemma ReseedStartsAfresh(s: State, fixtures: seq<Fixture>, k: nat, request: nat, other: nat)
    requires k < |fixtures| && forall l :: k < l < |fixtures| ==> fixtures[l].id != fixtures[k].id
    ensures var seeded := Step(s, Seed(fixtures));
            var found := Step(seeded, Find(request, fixtures[k].id, fixtures[k].recipient));
            && request in found.pending
            && |s.shares| <= found.pending[request].share < |found.shares|
            && found.shares[found.pending[request].share] == Share(fixtures[k].recipient, fixtures[k].max, 0)
            && (other in s.pending && other != request ==>
                  other in found.pending && found.pending[other] == s.pending[other])
            && s.shares <= found.shares
  {
    IndexIsLast(fixtures, |s.shares|, k);
  }
}
