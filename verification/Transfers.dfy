/** Streaming files through the gateway: the upload limit, the byte counts and the audit records
    (internal/proxy/proxy.go). */
module Transfers {
  import opened Wrappers
  import opened Audit

  type Bytes = seq<int>

  datatype ReadError = Eof | TooLarge | Broken

  datatype Ending = Quiet | Eager | Cut

  /** One read of the body: the size of the caller's buffer, how many bytes the network has ready, and whether the end
      of the body comes along with its last bytes or the connection breaks. */
  datatype Chunk = Chunk(size: nat, ready: nat, ending: Ending)

  /** The request body as net/http delivers it. */
  class Body {
    const data: Bytes
    var pos: nat

    predicate Valid()
      reads this
    {
      pos <= |data|
    }

    constructor (data: Bytes)
      ensures Valid() && this.data == data && pos == 0
    {
      this.data, pos := data, 0;
    }

    method Read(size: nat, chunk: Chunk) returns (bytes: Bytes, err: Option<ReadError>)
      requires Valid()
      modifies this
      ensures Valid() && pos == old(pos) + |bytes| && bytes == data[old(pos)..pos]
      ensures |bytes| == Min(Min(size, chunk.ready), |data| - old(pos))
      ensures err == BodyError(data, pos, |bytes|, chunk.ending)
    {
      var n := Min(Min(size, chunk.ready), |data| - pos);
      bytes := data[pos..pos + n];
      pos := pos + n;
      err := BodyError(data, pos, n, chunk.ending);
    }
  }

  function BodyError(data: Bytes, pos: nat, n: nat, ending: Ending): Option<ReadError> {
    if ending == Cut then Some(Broken)
    else if pos == |data| && (n == 0 || ending == Eager) then Some(Eof)
    else None
  }

  /** What http.MaxBytesReader hands out of the first pos bytes. */
  function Delivered(data: Bytes, max: nat, pos: nat): Bytes
    requires pos <= |data|
  {
    data[..Min(pos, max)]
  }

  /** How far a transfer has come: the bytes taken from the request body and the error that ended it, if any. */
  datatype Progress = Progress(pos: nat, err: Option<ReadError>)

  predicate Sound(data: Bytes, max: nat, p: Progress) {
    && p.pos <= |data| && p.pos <= max + 1
    && (p.err == Some(TooLarge) <==> p.pos == max + 1)
    && (p.err == Some(Eof) ==> p.pos == |data|)
  }

  /** One read. The byte past the limit is asked for, but never handed out. */
  function AfterRead(data: Bytes, max: nat, p: Progress, chunk: Chunk): (after: Progress)
    requires Sound(data, max, p)
    ensures Sound(data, max, after)
  {
    if p.err.Some? || chunk.size == 0 then p
    else
      var n := Min(Min(Min(chunk.size, max - p.pos + 1), chunk.ready), |data| - p.pos);
      if p.pos + n > max then Progress(p.pos + n, Some(TooLarge))
      else Progress(p.pos + n, BodyError(data, p.pos + n, n, chunk.ending))
  }

  lemma Extends(data: Bytes, i: nat, j: nat, max: nat)
    requires i <= j <= |data| && i <= max
    ensures Delivered(data, max, j) == Delivered(data, max, i) + data[i..j][..Min(j, max) - i]
    ensures data[i..j][..j - i] == data[i..j]
  {
  }

  /** http.MaxBytesReader: it reads one byte past the limit to find out whether there is more, and an error sticks. */
  class LimitedReader {
    const body: Body
    const max: nat
    var left: int
    var err: Option<ReadError>

    function Progressed(): Progress
      reads this, body
    {
      Progress(body.pos, err)
    }

    predicate Valid()
      reads this, body
    {
      body.Valid() && Sound(body.data, max, Progressed()) && left == max - Min(body.pos, max)
    }

    constructor (body: Body, max: nat)
      requires body.Valid() && body.pos == 0
      ensures Valid() && this.body == body && this.max == max && Progressed() == Progress(0, None)
    {
      this.body, this.max, left, err := body, max, max, None;
    }

    method Read(chunk: Chunk) returns (bytes: Bytes, e: Option<ReadError>)
      requires Valid()
      modifies this`left, this`err, body
      ensures Valid() && e == err
      ensures Progressed() == AfterRead(body.data, max, old(Progressed()), chunk)
      ensures Delivered(body.data, max, body.pos) == old(Delivered(body.data, max, body.pos)) + bytes
    {
      if err.Some? {
        return [], err;
      }
      if chunk.size == 0 {
        return [], None;
      }
      var size := chunk.size;
      if size - 1 > left {
        size := left + 1;
      }
      var pos := body.pos;
      bytes, e := body.Read(size, chunk);
      Extends(body.data, pos, body.pos, max);
      if |bytes| <= left {
        left := left - |bytes|;
        err := e;
        return;
      }
      bytes := bytes[..left];
      left := 0;
      err := Some(TooLarge);
      e := err;
    }
  }

  /** countingReader. */
  class CountingReader {
    const r: LimitedReader
    var n: int

    predicate Valid()
      reads this, r, r.body
    {
      r.Valid() && n == |Delivered(r.body.data, r.max, r.body.pos)|
    }

    constructor (r: LimitedReader)
      requires r.Valid() && r.body.pos == 0
      ensures Valid() && this.r == r
    {
      this.r, n := r, 0;
    }

    method Read(chunk: Chunk) returns (bytes: Bytes, e: Option<ReadError>)
      requires Valid()
      modifies this`n, r`left, r`err, r.body
      ensures Valid() && e == r.err
      ensures r.Progressed() == AfterRead(r.body.data, r.max, old(r.Progressed()), chunk)
      ensures Delivered(r.body.data, r.max, r.body.pos) == old(Delivered(r.body.data, r.max, r.body.pos)) + bytes
    {
      bytes, e := r.Read(chunk);
      n := n + |bytes|;
    }
  }

  // ----- The provider's side of the transfer -----

  /** All reads of a transfer; reading stops at the first error. */
  function Feed(data: Bytes, max: nat, p: Progress, schedule: seq<Chunk>): (after: Progress)
    requires Sound(data, max, p)
    ensures Sound(data, max, after)
    decreases |schedule|
  {
    if schedule == [] || p.err.Some? then p
    else Feed(data, max, AfterRead(data, max, p, schedule[0]), schedule[1..])
  }

  method Consume(body: CountingReader, schedule: seq<Chunk>) returns (received: Bytes)
    requires body.Valid() && body.r.Progressed() == Progress(0, None)
    modifies body`n, body.r`left, body.r`err, body.r.body
    ensures body.Valid()
    ensures body.r.Progressed() == Feed(body.r.body.data, body.r.max, Progress(0, None), schedule)
    ensures received == Delivered(body.r.body.data, body.r.max, body.r.body.pos)
  {
    received := [];
    var i := 0;
    while i < |schedule| && body.r.err == None
      invariant 0 <= i <= |schedule| && body.Valid()
      invariant received == Delivered(body.r.body.data, body.r.max, body.r.body.pos)
      invariant Feed(body.r.body.data, body.r.max, body.r.Progressed(), schedule[i..])
             == Feed(body.r.body.data, body.r.max, Progress(0, None), schedule)
    {
      var bytes, _ := body.Read(schedule[i]);
      received := received + bytes;
      assert schedule[i..][0] == schedule[i] && schedule[i..][1..] == schedule[i + 1..];
      i := i + 1;
    }
  }

  /** The end of a transfer says what the request body was: the limit error comes exactly with its first max bytes, and
      the regular end with all of them. Every error but a broken connection thus determines the bytes received. */
  lemma FeedDelivers(data: Bytes, max: nat, schedule: seq<Chunk>)
    ensures var after := Feed(data, max, Progress(0, None), schedule);
            var received := Delivered(data, max, after.pos);
            && received <= data && |received| <= max
            && (after.err == Some(TooLarge) ==> |data| > max && received == data[..max])
            && (after.err == Some(Eof) ==> |data| <= max && received == data)
  {
  }

  /** Reads that make progress. */
  predicate Draining(schedule: seq<Chunk>) {
    forall i :: 0 <= i < |schedule| ==> schedule[i].size > 0 && schedule[i].ready > 0 && schedule[i].ending != Cut
  }

  lemma {:induction false} FeedEnds(data: Bytes, max: nat, p: Progress, schedule: seq<Chunk>)
    requires Sound(data, max, p) && Draining(schedule) && |schedule| > |data| - p.pos
    requires p.err.None?
    ensures Feed(data, max, p, schedule).err.Some? && Feed(data, max, p, schedule).err != Some(Broken)
    decreases |schedule|
  {
    var next := AfterRead(data, max, p, schedule[0]);
    if next.err.None? {
      FeedEnds(data, max, next, schedule[1..]);
    }
  }

  /** However the body arrives and whatever buffers it is read into, a transfer that keeps reading ends after at most one
      read per byte and one more, with the limit error exactly when the body exceeds the limit. */
  lemma ChunkingDoesNotMatter(data: Bytes, max: nat, schedule: seq<Chunk>)
    requires Draining(schedule) && |schedule| > |data|
    ensures var after := Feed(data, max, Progress(0, None), schedule);
            && after.err == Some(if |data| > max then TooLarge else Eof)
            && Delivered(data, max, after.pos) == data[..Min(|data|, max)]
  {
    FeedEnds(data, max, Progress(0, None), schedule);
    FeedDelivers(data, max, schedule);
    var err := Feed(data, max, Progress(0, None), schedule).err.value;
    assert err.TooLarge? || err.Eof?;
    assert data[..|data|] == data;
  }

  // ----- The handler -----

  datatype TransferError = ReadFailed(error: ReadError) | Refused(reason: ProviderError)

  /** An upload request and its fate at the provider: the reads it makes of the body, whether it answers before a read
      fails, and its answer. */
  datatype Upload = Upload(
    email: Option<string>, contentLength: int, filename: string, data: Bytes,
    schedule: seq<Chunk>, answered: bool, refusal: Option<ProviderError>)

  /** The records that a provider failure calls for. */
  function Denials(email: string, e: TransferError): seq<Entry> {
    match e
    case Refused(ShareNotFound) => [Audited(AccessDenied(email, "share_not_found"))]
    case Refused(Forbidden) => [Audited(AccessDenied(email, "forbidden"))]
    case Refused(ShareGone) => [Audited(ShareExpired(email))]
    case _ => []
  }

  /** What the provider call returns: a failed read surfaces unless the provider had answered. */
  function Failure(u: Upload, err: Option<ReadError>): Option<TransferError> {
    if err.Some? && err != Some(Eof) && !u.answered then Some(ReadFailed(err.value))
    else if u.refusal.Some? then Some(Refused(u.refusal.value))
    else None
  }

  function UploadProgress(max: nat, u: Upload): Progress {
    Feed(u.data, max, Progress(0, None), u.schedule)
  }

  function ErrorStatus(e: TransferError): int {
    match e
    case ReadFailed(TooLarge) => 413
    case Refused(ShareNotFound) => 404
    case Refused(Forbidden) => 403
    case Refused(ShareGone) => 410
    case Refused(UnexpectedStatus) => 500
    case _ => 503
  }

  /** The answer, with or without the check of the declared length. */
  function Status(max: nat, u: Upload, preCheck: bool): int {
    if u.email == None then 500
    else if preCheck && u.contentLength > max then 413
    else if u.filename == "" then 400
    else
      match Failure(u, UploadProgress(max, u).err)
      case Some(e) => ErrorStatus(e)
      case None => 201
  }

  predicate Starts(max: nat, u: Upload) {
    u.email.Some? && u.contentLength <= max && u.filename != ""
  }

  /** What an upload leaves behind: nothing before it starts, and then a start record, the call, and either the count of
      the bytes the provider was given or the denial. A declared length of -1 stands for an unknown one. */
  function UploadTrace(max: nat, u: Upload): seq<Entry> {
    if !Starts(max, u) then []
    else
      var email, after := u.email.value, UploadProgress(max, u);
      var declared := if u.contentLength >= 0 then u.contentLength else -1;
      [Audited(UploadStart(email, u.filename, declared)), Call(Operation.Upload, email)] +
      match Failure(u, after.err)
      case Some(e) => Denials(email, e)
      case None => [Audited(UploadComplete(email, u.filename, |Delivered(u.data, max, after.pos)|))]
  }

  /** The start record and the call come first, and only an upload answered 201 leaves a completion. */
  lemma UploadTraceShape(max: nat, u: Upload)
    ensures var trace := UploadTrace(max, u);
            && (trace != [] <==> u.email.Some? && u.contentLength <= max && u.filename != "")
            && (trace != [] ==>
                  && |trace| >= 2
                  && trace[0] == Audited(UploadStart(u.email.value, u.filename, if u.contentLength >= 0 then u.contentLength else -1))
                  && trace[1] == Call(Operation.Upload, u.email.value))
            && (forall k :: 0 <= k < |trace| && trace[k].Audited? && trace[k].record.UploadComplete? ==>
                  trace[k] == Audited(UploadComplete(u.email.value, u.filename, |Delivered(u.data, max, UploadProgress(max, u).pos)|))
                  && Starts(max, u) && Status(max, u, true) == 201)
  {
    hide Delivered, UploadProgress;
  }

  method HandleUpload(max: nat, u: Upload) returns (status: int, trace: seq<Entry>, received: Bytes)
    ensures status == Status(max, u, true) && trace == UploadTrace(max, u)
    ensures received == if Starts(max, u) then Delivered(u.data, max, UploadProgress(max, u).pos) else []
    ensures trace != [] <==> u.email.Some? && u.contentLength <= max && u.filename != ""
    ensures trace != [] ==>
              && |trace| >= 2
              && trace[0] == Audited(UploadStart(u.email.value, u.filename, if u.contentLength >= 0 then u.contentLength else -1))
              && trace[1] == Call(Operation.Upload, u.email.value)
    ensures forall k :: 0 <= k < |trace| && trace[k].Audited? && trace[k].record.UploadComplete? ==>
              trace[k] == Audited(UploadComplete(u.email.value, u.filename, |received|)) && status == 201
    ensures received <= u.data && |received| <= max
  {
    trace, received := [], [];
    UploadTraceShape(max, u);
    if u.email == None {
      return 500, trace, received;
    }
    var email := u.email.value;
    if u.contentLength > max {
      return 413, trace, received;
    }
    if u.filename == "" {
      return 400, trace, received;
    }
    var declared := -1;
    if u.contentLength >= 0 {
      declared := u.contentLength;
    }
    trace := trace + [Audited(UploadStart(email, u.filename, declared))];

    var source := new Body(u.data);
    var limited := new LimitedReader(source, max);
    var body := new CountingReader(limited);
    trace := trace + [Call(Operation.Upload, email)];
    received := Consume(body, u.schedule);
    var failure := Failure(u, body.r.err);
    if failure.Some? {
      if failure.value == ReadFailed(TooLarge) {
        return 413, trace, received;
      }
      var denials;
      status, denials := WriteProviderError(email, failure.value);
      trace := trace + denials;
      return;
    }
    trace := trace + [Audited(UploadComplete(email, u.filename, body.n))];
    status := 201;
  }

  method WriteProviderError(email: string, e: TransferError) returns (status: int, denials: seq<Entry>)
    requires e != ReadFailed(TooLarge)
    ensures status == ErrorStatus(e) && denials == Denials(email, e)
  {
    match e {
      case Refused(ShareNotFound) => return 404, [Audited(AccessDenied(email, "share_not_found"))];
      case Refused(Forbidden) => return 403, [Audited(AccessDenied(email, "forbidden"))];
      case Refused(ShareGone) => return 410, [Audited(ShareExpired(email))];
      case Refused(UnexpectedStatus) => return 500, [];
      case _ => return 503, [];
    }
  }

  predicate IsDenial(entry: Entry) {
    entry.Audited? && (entry.record.AccessDenied? || entry.record.ShareExpired?)
  }

  /** The audit trail and the answer agree: an upload leaves a denial behind exactly when it is answered 403, 404 or 410,
      then it is the last entry and names the recipient, and it leaves a completion exactly when answered 201. */
  lemma UploadRecordsMatchStatus(max: nat, u: Upload)
    ensures var trace, status := UploadTrace(max, u), Status(max, u, true);
            && ((exists k :: 0 <= k < |trace| && IsDenial(trace[k])) <==> status in [403, 404, 410])
            && ((exists k :: 0 <= k < |trace| && trace[k].Audited? && trace[k].record.UploadComplete?) <==> status == 201)
            && forall k :: 0 <= k < |trace| && IsDenial(trace[k]) ==>
                 k == |trace| - 1 && u.email == Some(trace[k].record.email)
  {
    hide UploadProgress, Delivered;
    var trace := UploadTrace(max, u);
    if Starts(max, u) {
      assert !IsDenial(trace[0]) && !IsDenial(trace[1]);
      assert |trace| > 2 ==> trace[2] in trace[2..];
    }
  }

  /** The audit reason of a denial is the one its status tells the recipient. */
  predicate ReasonFits(entry: Entry, status: int) {
    entry.Audited? ==>
      match entry.record
      case AccessDenied(_, reason) => (status == 404 && reason == "share_not_found") || (status == 403 && reason == "forbidden")
      case ShareExpired(_) => status == 410
      case _ => true
  }

  lemma UploadReasonsFit(max: nat, u: Upload)
    ensures forall k :: 0 <= k < |UploadTrace(max, u)| ==> ReasonFits(UploadTrace(max, u)[k], Status(max, u, true))
  {
    hide UploadProgress, Delivered;
  }

  /** What the provider's refusal becomes, once the upload has been handed to it undisturbed. */
  lemma RefusalStatus(max: nat, u: Upload)
    requires Starts(max, u) && (u.answered || UploadProgress(max, u).err in [None, Some(Eof)])
    ensures var status := Status(max, u, true);
            match u.refusal
            case None => status == 201
            case Some(ShareNotFound) => status == 404
            case Some(Forbidden) => status == 403
            case Some(ShareGone) => status == 410
            case Some(UnexpectedStatus) => status == 500
            case Some(Unreachable) => status == 503
  {
  }

  /** 413 and 201, exactly: too large means a declared length over the limit, or a body that ran past it before the
      provider answered; created means that the provider accepted, and then it had all of the body or had answered on
      the bytes it got. */
  lemma StatusMeaning(max: nat, u: Upload)
    requires u.email.Some?
    ensures Status(max, u, true) == 413
       <==> u.contentLength > max || (u.filename != "" && !u.answered && UploadProgress(max, u).err == Some(TooLarge))
    ensures Status(max, u, true) == 201
       <==> u.contentLength <= max && u.filename != "" && u.refusal == None
            && (u.answered || UploadProgress(max, u).err in [None, Some(Eof)])
  {
  }

  /** Whether checking the declared length first shows: it changes the answer exactly when the name is missing, or when
      the provider answers or the connection breaks before the limit is met. */
  lemma PreCheckShows(max: nat, u: Upload)
    requires u.email.Some?
    ensures Status(max, u, true) != Status(max, u, false)
       <==> u.contentLength > max && (u.filename == "" || u.answered || UploadProgress(max, u).err != Some(TooLarge))
  {
  }

  /** The check at work: one byte too many and no name are answered 413, where reading the name first would say 400. */
  lemma PreCheckHidesMissingName(max: nat, data: Bytes, email: string)
    requires |data| == max + 1
    ensures var u := Upload.Upload(Some(email), |data|, "", data, [], false, None);
            Status(max, u, true) == 413 && Status(max, u, false) == 400
  {
  }

  /** For an honest length and a provider that reads to the end before it answers, only a missing name makes the check
      visible: 413 instead of 400. */
  lemma PreCheckShowsOnlyWithoutName(max: nat, u: Upload)
    requires u.email.Some? && !u.answered && Draining(u.schedule) && |u.schedule| > |u.data|
    requires u.contentLength >= 0 ==> |u.data| == u.contentLength
    ensures Status(max, u, true) != Status(max, u, false) <==> u.contentLength > max && u.filename == ""
    ensures u.filename != "" ==> (Status(max, u, true) == 413 <==> |u.data| > max)
  {
    ChunkingDoesNotMatter(u.data, max, u.schedule);
  }

  // ----- Downloads -----

  /** A provider's content: its pieces as they arrive, whether the provider breaks off behind them, and how many bytes the
      recipient takes before disconnecting, if it does. */
  datatype Content = Content(pieces: seq<Bytes>, breaksOff: bool, room: Option<nat>)

  function Flatten(pieces: seq<Bytes>): Bytes {
    if pieces == [] then [] else pieces[0] + Flatten(pieces[1..])
  }

  predicate Completes(content: Content) {
    !content.breaksOff && (content.room.Some? ==> |Flatten(content.pieces)| <= content.room.value)
  }

  function DownloadTrace(operation: Operation, email: string, answer: Result<Content, ProviderError>): seq<Entry> {
    [Call(operation, email)] +
    match answer
    case Err(e) => Denials(email, Refused(e))
    case Ok(content) =>
      [Audited(DownloadStart(email))]
      + if Completes(content) then [Audited(DownloadComplete(email, |Flatten(content.pieces)|))] else []
  }

  /** The status is committed by the first byte, so a transfer that breaks off keeps its 200. */
  function DownloadAnswer(answer: Result<Content, ProviderError>): int {
    match answer
    case Err(e) => ErrorStatus(Refused(e))
    case Ok(_) => 200
  }

  method HandleDownload(operation: Operation, email: string, answer: Result<Content, ProviderError>)
    returns (status: int, trace: seq<Entry>, sent: Bytes)
    ensures status == DownloadAnswer(answer) && trace == DownloadTrace(operation, email, answer)
    ensures answer.Err? ==> sent == []
    ensures answer.Ok? ==> sent <= Flatten(answer.value.pieces)
    ensures answer.Ok? && Completes(answer.value) ==> sent == Flatten(answer.value.pieces)
    ensures trace != [] && trace[0] == Call(operation, email)
    ensures forall k :: 0 <= k < |trace| && trace[k].Audited? && trace[k].record.DownloadComplete? ==>
              && trace[k] == Audited(DownloadComplete(email, |sent|))
              && answer.Ok? && sent == Flatten(answer.value.pieces) && !answer.value.breaksOff
    ensures answer.Ok? && !answer.value.breaksOff
            && (answer.value.room.Some? ==> |Flatten(answer.value.pieces)| <= answer.value.room.value)
            ==> Audited(DownloadComplete(email, |sent|)) in trace
  {
    status, trace, sent := 200, [Call(operation, email)], [];
    match answer {
      case Err(e) =>
        var denials;
        status, denials := WriteProviderError(email, Refused(e));
        trace := trace + denials;
      case Ok(content) =>
        trace := trace + [Audited(DownloadStart(email))];
        var complete;
        sent, complete := CopyContent(content);
        if complete {
          trace := trace + [Audited(DownloadComplete(email, |sent|))];
        }
    }
  }

  /** io.Copy to the recipient; a short write ends it. */
  method CopyContent(content: Content) returns (sent: Bytes, complete: bool)
    ensures sent <= Flatten(content.pieces)
    ensures complete <==> Completes(content)
    ensures complete ==> sent == Flatten(content.pieces)
  {
    sent := [];
    var i := 0;
    while i < |content.pieces|
      invariant 0 <= i <= |content.pieces|
      invariant sent + Flatten(content.pieces[i..]) == Flatten(content.pieces)
      invariant content.room.Some? ==> |sent| <= content.room.value
    {
      var piece := content.pieces[i];
      assert content.pieces[i..][1..] == content.pieces[i + 1..];
      assert sent + Flatten(content.pieces[i..]) == sent + piece + Flatten(content.pieces[i + 1..]);
      if content.room.Some? && |sent| + |piece| > content.room.value {
        sent := sent + piece[..content.room.value - |sent|];
        return sent, false;
      }
      sent := sent + piece;
      i := i + 1;
    }
    assert Flatten(content.pieces[i..]) == [];
    complete := !content.breaksOff;
  }

  /** As for uploads: a denial exactly for 403, 404 and 410, and a start record exactly for 200. */
  lemma DownloadRecordsMatchStatus(operation: Operation, email: string, answer: Result<Content, ProviderError>)
    ensures var trace, status := DownloadTrace(operation, email, answer), DownloadAnswer(answer);
            && ((exists k :: 0 <= k < |trace| && IsDenial(trace[k])) <==> status in [403, 404, 410])
            && ((exists k :: 0 <= k < |trace| && trace[k] == Audited(DownloadStart(email))) <==> status == 200)
  {
    hide Completes, Flatten;
    var trace := DownloadTrace(operation, email, answer);
    assert |trace| > 1 ==> trace[1] in trace[1..];
  }

  /** And of a download; a refusal becomes the status that says as much and no more. */
  lemma DownloadReasonsFit(operation: Operation, email: string, answer: Result<Content, ProviderError>)
    ensures forall k :: 0 <= k < |DownloadTrace(operation, email, answer)| ==>
              ReasonFits(DownloadTrace(operation, email, answer)[k], DownloadAnswer(answer))
    ensures match answer
            case Ok(_) => DownloadAnswer(answer) == 200
            case Err(ShareNotFound) => DownloadAnswer(answer) == 404
            case Err(Forbidden) => DownloadAnswer(answer) == 403
            case Err(ShareGone) => DownloadAnswer(answer) == 410
            case Err(UnexpectedStatus) => DownloadAnswer(answer) == 500
            case Err(Unreachable) => DownloadAnswer(answer) == 503
  {
    hide Completes, Flatten;
  }
}
