/** What every run of the connection state machine keeps, and what a complete upload delivers. */
module UploadRuns {
  import opened Bytes
  import opened Upload

  // ---------------------------------------------------------------- safety over all runs

  /** The bytes handed to the write function, in order. */
  function Data(log: seq<Effect>): seq<byte> {
    if log == [] then [] else
    var last := log[|log| - 1];
    Data(log[..|log| - 1]) + if last.Wrote? then last.data else []
  }

  /** The reply an upload ends with: a success reports how many bytes were written, in 32 bits. */
  function Answer(log: seq<Effect>, ok: bool): Effect {
    if ok then Replied(200, Some(|Data(log)| % SIZE_MODULUS)) else FAILURE
  }

  /** What may stand at position `i` of an upload log, given its neighbours. */
  ghost predicate Legal(log: seq<Effect>, i: nat)
    requires i < |log|
  {
    match log[i]
    case Opened(_, _) => i == 0
    case OpenFailed => i == 0
    case Wrote(f, data, ok) =>
      && i > 0 && log[0].Opened? && log[0].file == f
      && (log[i - 1].Opened? || (log[i - 1].Wrote? && log[i - 1].ok))
      && data != []
      && |Data(log[..i])| % ALIGNMENT == 0
      && (|data| % ALIGNMENT != 0 ==> i + 1 < |log| && log[i + 1].Replied?)
      && (!ok ==> i + 1 < |log| && log[i + 1] == FAILURE)
    case Replied(_, _) =>
      && i > 0
      && if log[i - 1].Wrote? then log[i] == Answer(log[..i], log[i - 1].ok)
         else log[i - 1].OpenFailed? && log[i] == FAILURE
    case Closed(f) =>
      i == |log| - 1 && log[0] == Opened(f, true)
  }

  ghost predicate Protocol(log: seq<Effect>) {
    forall i :: 0 <= i < |log| ==> Legal(log, i)
  }

  ghost predicate Live(c: Conn)
    requires c.log != [] && c.log[0].Opened?
  {
    var last := c.log[|c.log| - 1];
    && c.fp == Some(c.log[0].file) && c.closable == c.log[0].closer
    && (last.Opened? || (last.Wrote? && last.ok))
    && |Data(c.log)| % ALIGNMENT == 0
    && c.received == |Data(c.log)| % SIZE_MODULUS
    && (c.expected > 0 ==> c.received < c.expected)
  }

  ghost predicate Settled(c: Conn)
    requires c.log != [] && c.log[0].Opened?
  {
    c.marker == IDLE && c.fp == None && (c.log[|c.log| - 1].Closed? <==> c.log[0].closer)
  }

  /** How the connection's fields reflect the log. */
  ghost predicate Inv(c: Conn) {
    && Protocol(c.log)
    && if !c.streaming then
         || (c.log == [] && (c.websocket || c.marker == IDLE || c.marker == ACTING))
         || (c.log == [OpenFailed, FAILURE] && !c.websocket && c.marker == UPLOADING)
       else
         && !c.websocket && c.log != [] && c.log[0].Opened?
         && if c.marker == UPLOADING then Live(c) else Settled(c)
  }

  /** Appending keeps a legal log legal when the old last entry does not depend on what follows it. */
  lemma ProtocolSnoc(log: seq<Effect>, e: Effect)
    requires Protocol(log)
    requires log != [] ==> !log[|log| - 1].Closed?
    requires Legal(log + [e], |log|)
    ensures Protocol(log + [e])
  {
    var l := log + [e];
    forall i | 0 <= i < |l| ensures Legal(l, i) {
      if i < |log| {
        assert Legal(log, i);
        assert l[..i] == log[..i];
      }
    }
  }

  lemma DataSnoc(log: seq<Effect>, e: Effect)
    ensures Data(log + [e]) == Data(log) + if e.Wrote? then e.data else []
  {
    assert (log + [e])[..|log|] == log;
  }

  lemma CloseInv(c: Conn)
    requires Protocol(c.log) && c.streaming && !c.websocket && c.log != [] && c.log[0].Opened?
    requires c.fp == Some(c.log[0].file) && c.closable == c.log[0].closer
    requires !c.log[|c.log| - 1].Closed?
    ensures Inv(CloseFile(c)) && CloseFile(c).marker == IDLE
  {
    if c.closable {
      ProtocolSnoc(c.log, Closed(c.fp.value));
    }
  }

  /** A write together with the reply that must follow it keeps the log legal. */
  lemma ProtocolWriteReply(log: seq<Effect>, f: nat, data: seq<byte>, ok: bool)
    requires Protocol(log) && log != [] && log[0].Opened? && log[0].file == f
    requires var last := log[|log| - 1]; last.Opened? || (last.Wrote? && last.ok)
    requires data != [] && |Data(log)| % ALIGNMENT == 0
    ensures Protocol(log + [Wrote(f, data, ok)] + [Answer(log + [Wrote(f, data, ok)], ok)])
  {
    var l := log + [Wrote(f, data, ok)] + [Answer(log + [Wrote(f, data, ok)], ok)];
    forall i | 0 <= i < |l| ensures Legal(l, i) {
      if i < |log| {
        assert Legal(log, i);
        assert l[..i] == log[..i];
      } else if i == |log| {
        assert l[..i] == log;
      } else {
        assert l[..i] == log + [Wrote(f, data, ok)];
      }
    }
  }

  lemma AlignedSum(a: nat, b: nat)
    requires a % ALIGNMENT == 0
    ensures (a + RoundDown(b)) % ALIGNMENT == 0
    ensures RoundDown(b) % ALIGNMENT == 0 && b - RoundDown(b) < ALIGNMENT
  {
  }

  lemma SizeSum(a: nat, b: nat)
    ensures AddSize(a % SIZE_MODULUS, b) == (a + b) % SIZE_MODULUS
  {
  }

  /** A successful write short of the end: the log grows by one aligned write. */
  lemma WriteContinues(c: Conn, n: nat)
    requires Inv(c) && c.streaming && c.marker == UPLOADING
    requires 0 < n <= |c.recv| && n == RoundDown(|c.recv|) && AddSize(c.received, n) < c.expected
    ensures Inv(AfterWrite(c, n, true))
  {
    var w := Wrote(c.fp.value, c.recv[..n], true);
    DataSnoc(c.log, w);
    AlignedSum(|Data(c.log)|, |c.recv|);
    SizeSum(|Data(c.log)|, n);
    assert (c.log + [w])[..|c.log|] == c.log;
    ProtocolSnoc(c.log, w);
  }

  /** The reply after the last write, as the code makes it from its counter. */
  function Verdict(c: Conn, n: nat, ok: bool): Effect
    requires c.fp.Some? && n <= |c.recv|
  {
    if ok then Success(AfterWrite(c, n, ok)) else FAILURE
  }

  /** The counter holds the number of bytes written, so the reply is the one the log calls for. */
  lemma VerdictCounts(c: Conn, n: nat, ok: bool)
    requires c.fp.Some? && 0 < n <= |c.recv| && c.received == |Data(c.log)| % SIZE_MODULUS
    ensures Verdict(c, n, ok) == Answer(c.log + [Wrote(c.fp.value, c.recv[..n], ok)], ok)
  {
    DataSnoc(c.log, Wrote(c.fp.value, c.recv[..n], ok));
    SizeSum(|Data(c.log)|, n);
  }

  /** A write that fails or completes the upload: it is answered and the file is closed. */
  lemma WriteEnds(c: Conn, n: nat, ok: bool)
    requires Inv(c) && c.streaming && c.marker == UPLOADING
    requires 0 < n <= |c.recv|
    ensures Inv(Ended(AfterWrite(c, n, ok), Verdict(c, n, ok)))
  {
    ProtocolWriteReply(c.log, c.fp.value, c.recv[..n], ok);
    VerdictCounts(c, n, ok);
    var c1 := AfterWrite(c, n, ok);
    CloseInv(c1.(log := c1.log + [Verdict(c, n, ok)]));
  }

  lemma ReadInv(c: Conn, ok: bool)
    requires Inv(c) && c.streaming && c.marker == UPLOADING
    ensures Inv(UploadRead(c, ok))
  {
    if Receiving(c) {
      var n := Forwarded(c);
      if n == 0 {
        assert UploadRead(c, ok) == c;
      } else if ok && AddSize(c.received, n) < c.expected {
        WriteContinues(c, n);
        assert UploadRead(c, ok) == AfterWrite(c, n, ok);
      } else {
        WriteEnds(c, n, ok);
        assert UploadRead(c, ok) == Ended(AfterWrite(c, n, ok), Verdict(c, n, ok));
      }
    }
  }

  /** The state `prep_upload` hands to the upload handler for its first READ. */
  function Opening(c: Conn, recv: seq<byte>, n: size, f: nat, closable: bool): Conn {
    c.(marker := UPLOADING, received := 0, fp := Some(f), log := [Opened(f, closable)], expected := n,
       closable := closable, recv := recv, streaming := true)
  }

  lemma OpeningInv(c: Conn, recv: seq<byte>, n: size, f: nat, closable: bool)
    requires !c.websocket
    ensures Inv(Opening(c, recv, n, f, closable)) && Data([Opened(f, closable)]) == []
  {
    var none: seq<Effect> := [];
    DataSnoc(none, Opened(f, closable));
    assert none + [Opened(f, closable)] == [Opened(f, closable)];
  }

  lemma PreparedReads(c: Conn, e: Event, closable: bool)
    requires e.Headers? && e.openAs.Some? && c.log == []
    ensures PrepUpload(c, e, closable)
         == UploadRead(Opening(c, Drop(c.recv, e.headLen), e.bodyLen, e.openAs.value, closable), e.writeOk)
  {
    assert c.log + [Opened(e.openAs.value, closable)] == [Opened(e.openAs.value, closable)];
  }

  lemma PrepareInv(c: Conn, e: Event, closable: bool)
    requires Inv(c) && !c.streaming && !c.websocket && c.marker == IDLE && e.Headers?
    ensures Inv(PrepUpload(c, e, closable))
  {
    if e.openAs.None? {
      assert PrepUpload(c, e, closable).log == [OpenFailed, FAILURE];
    } else {
      PreparedReads(c, e, closable);
      OpeningInv(c, Drop(c.recv, e.headLen), e.bodyLen, e.openAs.value, closable);
      ReadInv(Opening(c, Drop(c.recv, e.headLen), e.bodyLen, e.openAs.value, closable), e.writeOk);
    }
  }

  /** Every event, with every answer of the environment, keeps the invariant. */
  lemma StepInv(c: Conn, e: Event)
    requires Inv(c)
    ensures Inv(Step(c, e))
  {
    match e
    case Read(chunk, ok) =>
      if c.streaming && c.marker == UPLOADING {
        ReadInv(c.(recv := c.recv + chunk), ok);
      }
    case Close =>
      if c.streaming && c.marker == UPLOADING {
        CloseInv(c);
      }
    case Headers(post, handler, _, _, _, _) =>
      if !c.streaming && !c.websocket && c.marker == IDLE && post {
        match handler
        case UploadHandler(hasCloser) => PrepareInv(c, e, hasCloser);
        case FileHandler => PrepareInv(c, e, true);
        case _ =>
      }
    case _ =>
  }

  function Run(c: Conn, events: seq<Event>): (c': Conn)
    requires Inv(c)
    ensures Inv(c')
  {
    if events == [] then c else
    var c0 := Run(c, events[..|events| - 1]);
    StepInv(c0, events[|events| - 1]);
    Step(c0, events[|events| - 1])
  }

  /** A legal log closes at most once and last, replies at most once, and never writes afterwards. */
  lemma ProtocolMeans(log: seq<Effect>, i: nat, j: nat)
    requires Protocol(log) && i < j < |log|
    ensures !log[i].Closed?
    ensures log[i].Replied? ==> log[j].Closed?
    ensures log[i].Wrote? && !log[i].ok ==> !log[j].Wrote?
    ensures !log[j].Opened? && !log[j].OpenFailed?
    decreases j - i
  {
    assert Legal(log, i) && Legal(log, j) && Legal(log, i + 1);
    if log[i].Wrote? && !log[i].ok && j > i + 1 {
      ProtocolMeans(log, i + 1, j);
    }
  }

  /** At most one open, one reply and one close, and no write after the close. */
  ghost predicate OnceEach(log: seq<Effect>) {
    forall i, j :: 0 <= i < j < |log| ==>
      && !(log[i].Replied? && log[j].Replied?)
      && !(log[i].Closed? && (log[j].Closed? || log[j].Wrote?))
      && !(log[i].Opened? && log[j].Opened?)
  }

  lemma ProtocolOnceEach(log: seq<Effect>)
    requires Protocol(log)
    ensures OnceEach(log)
  {
    forall i, j | 0 <= i < j < |log|
      ensures !(log[i].Replied? && log[j].Replied?)
      ensures !(log[i].Closed? && (log[j].Closed? || log[j].Wrote?))
      ensures !(log[i].Opened? && log[j].Opened?)
    {
      ProtocolMeans(log, i, j);
    }
  }

  /** An opened file has been closed exactly when it has a close function. */
  predicate ClosedIffClosable(log: seq<Effect>) {
    log != [] && log[0].Opened? ==> (log[|log| - 1].Closed? <==> log[0].closer)
  }

  lemma CloseSettles(c: Conn)
    requires Inv(c)
    ensures ClosedIffClosable(Step(c, Close).log)
  {
    if c.streaming && c.marker == UPLOADING {
      CloseInv(c);
    }
  }

  /**
   Safety over whole runs: whatever happens on a connection, the upload log is legal, opens, answers and
   closes at most once, and once the close event has been handled the opened file is closed.
   */
  lemma UploadSafety(events: seq<Event>)
    ensures Protocol(Run(FRESH, events).log) && OnceEach(Run(FRESH, events).log)
    ensures ClosedIffClosable(Run(FRESH, events + [Close]).log)
  {
    var c := Run(FRESH, events);
    ProtocolOnceEach(c.log);
    CloseSettles(c);
    assert (events + [Close])[..|events|] == events;
  }

  // ---------------------------------------------------------------- how requests are answered

  /** A connection that takes an upload request. */
  ghost predicate Idle(c: Conn) {
    Inv(c) && !c.streaming && !c.websocket && c.marker == IDLE
  }

  /** The handler kinds that stream a request body to a file. */
  predicate Streams(h: Handler) {
    h.FileHandler? || h.UploadHandler?
  }

  predicate HasReply(log: seq<Effect>) {
    exists i :: 0 <= i < |log| && log[i].Replied?
  }

  lemma HasReplySnoc(log: seq<Effect>, x: Effect)
    ensures HasReply(log + [x]) <==> HasReply(log) || x.Replied?
  {
    var l := log + [x];
    assert l[|log|] == x && forall i :: 0 <= i < |log| ==> l[i] == log[i];
  }

  /** The log only grows, and the connection drains once a reply stands in it. */
  ghost predicate Grows(c: Conn, c': Conn) {
    c.log <= c'.log && ((c.draining <==> HasReply(c.log)) ==> (c'.draining <==> HasReply(c'.log)))
  }

  lemma CloseGrows(c: Conn)
    ensures Grows(c, CloseFile(c))
  {
    if c.closable && c.fp.Some? {
      HasReplySnoc(c.log, Closed(c.fp.value));
    }
  }

  lemma EndGrows(c: Conn, reply: Effect)
    requires reply.Replied?
    ensures c.log <= Ended(c, reply).log && HasReply(Ended(c, reply).log) && Ended(c, reply).draining
  {
    var c1 := c.(log := c.log + [reply]);
    HasReplySnoc(c.log, reply);
    if c.closable && c.fp.Some? {
      HasReplySnoc(c1.log, Closed(c.fp.value));
    }
  }

  lemma ReadGrows(c: Conn, ok: bool)
    requires c.fp.Some?
    ensures Grows(c, UploadRead(c, ok))
  {
    if Receiving(c) {
      var n := Forwarded(c);
      var c1 := AfterWrite(c, n, ok);
      HasReplySnoc(c.log, Wrote(c.fp.value, c.recv[..n], ok));
      EndGrows(c1, FAILURE);
      EndGrows(c1, Success(c1));
    }
  }

  lemma PrepareGrows(c: Conn, e: Event, closable: bool)
    requires c.log == [] && e.Headers?
    ensures Grows(c, PrepUpload(c, e, closable))
    ensures e.openAs.Some? ==> [Opened(e.openAs.value, closable)] <= PrepUpload(c, e, closable).log
  {
    if e.openAs.None? {
      assert PrepUpload(c, e, closable).log[1].Replied?;
    } else {
      PreparedReads(c, e, closable);
      var c1 := Opening(c, Drop(c.recv, e.headLen), e.bodyLen, e.openAs.value, closable);
      HasReplySnoc([], Opened(e.openAs.value, closable));
      assert c1.log == [] + [Opened(e.openAs.value, closable)];
      ReadGrows(c1, e.writeOk);
    }
  }

  lemma StepGrows(c: Conn, e: Event)
    requires Inv(c)
    ensures Grows(c, Step(c, e))
  {
    match e
    case Read(chunk, ok) =>
      if c.streaming && c.marker == UPLOADING {
        ReadGrows(c.(recv := c.recv + chunk), ok);
      }
    case Close => CloseGrows(c);
    case Headers(post, handler, _, _, _, _) =>
      if !c.streaming && !c.websocket && c.marker == IDLE && post {
        match handler
        case UploadHandler(hasCloser) => PrepareGrows(c, e, hasCloser);
        case FileHandler => PrepareGrows(c, e, true);
        case _ =>
      }
    case _ =>
  }

  lemma {:induction false} RunGrows(c: Conn, events: seq<Event>)
    requires Inv(c)
    ensures Grows(c, Run(c, events))
    decreases |events|
  {
    if events != [] {
      RunGrows(c, events[..|events| - 1]);
      StepGrows(Run(c, events[..|events| - 1]), events[|events| - 1]);
    }
  }

  /** In every run the connection is set to drain exactly when a reply to an upload has been sent. */
  lemma DrainsIffAnswered(events: seq<Event>)
    ensures var c := Run(FRESH, events); c.draining <==> exists i :: 0 <= i < |c.log| && c.log[i].Replied?
  {
    RunGrows(FRESH, events);
    assert HasReply(Run(FRESH, events).log) <==> exists i :: 0 <= i < |Run(FRESH, events).log| && Run(FRESH, events).log[i].Replied?;
  }

  /** An open that fails is answered: whatever the handler and the announced length, 400 and nothing else. */
  lemma OpenFailureAnswered(c: Conn, h: Handler, headLen: size, n: size, ok: bool)
    requires Idle(c) && Streams(h)
    ensures var s := Step(c, Headers(true, h, headLen, n, None, ok));
      && s.log == [OpenFailed, Replied(400, None)] && s.draining
      && s.marker == UPLOADING && !s.streaming && s.recv == c.recv
  {
    assert c.log == [];
  }

  lemma RequestOpens(c: Conn, h: Handler, headLen: size, n: size, f: nat, ok: bool)
    requires Idle(c) && Streams(h)
    ensures var s := Step(c, Headers(true, h, headLen, n, Some(f), ok));
      s.streaming && [Opened(f, h.UploadHandler? ==> h.hasCloser)] <= s.log
  {
    var e, closer := Headers(true, h, headLen, n, Some(f), ok), h.UploadHandler? ==> h.hasCloser;
    assert Step(c, e) == PrepUpload(c, e, closer);
    PrepareGrows(c, e, closer);
    PreparedReads(c, e, closer);
    assert Opening(c, Drop(c.recv, headLen), n, f, closer).streaming;
  }

  /** Headers reach the upload code exactly on an idle connection, for a POST to a handler that streams. */
  lemma UploadStartsIff(c: Conn, e: Event)
    requires Inv(c) && e.Headers?
    ensures Step(c, e) != c <==>
      !c.streaming && !c.websocket && c.marker == IDLE && e.post && (e.handler.FileHandler? || e.handler.UploadHandler?)
  {
    if !c.streaming && !c.websocket && c.marker == IDLE && e.post && Streams(e.handler) {
      assert c.log == [];
      if e.openAs.None? {
        OpenFailureAnswered(c, e.handler, e.headLen, e.bodyLen, e.writeOk);
      } else {
        RequestOpens(c, e.handler, e.headLen, e.bodyLen, e.openAs.value, e.writeOk);
      }
    }
  }

  lemma FailedOpenOnly(c: Conn)
    requires Inv(c) && [OpenFailed, FAILURE] <= c.log
    ensures c.log == [OpenFailed, FAILURE]
  {
    assert c.log[0] == OpenFailed;
  }

  /** After a failed open the connection does nothing more. */
  lemma FailedOpenStays(c: Conn, events: seq<Event>)
    requires Inv(c) && c.log == [OpenFailed, FAILURE]
    ensures Run(c, events).log == c.log
  {
    RunGrows(c, events);
    FailedOpenOnly(Run(c, events));
  }

  lemma {:induction false} RunConcat(c: Conn, a: seq<Event>, b: seq<Event>)
    requires Inv(c)
    ensures Run(c, a + b) == Run(Run(c, a), b)
    decreases |b|
  {
    if b == [] {
      assert a + b == a;
    } else {
      var front := b[..|b| - 1];
      RunConcat(c, a, front);
      assert (a + b)[..|a + b| - 1] == a + front;
    }
  }

  /**
   Over runs: a POST to an upload or file handler on an idle connection always leaves its mark. A failed open is
   answered 400 and stays the whole log; otherwise the log begins with the opened file, whatever happens later.
   */
  lemma EveryUploadRequestCounts(events: seq<Event>, h: Handler, headLen: size, n: size, openAs: Option<nat>, ok: bool, more: seq<Event>)
    requires Idle(Run(FRESH, events)) && Streams(h)
    ensures var log := Run(FRESH, events + [Headers(true, h, headLen, n, openAs, ok)] + more).log;
      if openAs.None? then log == [OpenFailed, Replied(400, None)]
      else log != [] && log[0] == Opened(openAs.value, h.UploadHandler? ==> h.hasCloser)
  {
    var c, e := Run(FRESH, events), Headers(true, h, headLen, n, openAs, ok);
    var s := Step(c, e);
    assert (events + [e])[..|events|] == events;
    RunConcat(FRESH, events + [e], more);
    StepInv(c, e);
    RunGrows(s, more);
    if openAs.None? {
      OpenFailureAnswered(c, h, headLen, n, ok);
      FailedOpenStays(s, more);
    } else {
      RequestOpens(c, h, headLen, n, openAs.value, ok);
    }
  }

  // ---------------------------------------------------------------- modes and actions

  /** How one event may change the mode of a connection. */
  predicate ModeChange(c: Conn, c': Conn) {
    && (c.streaming ==> c'.streaming)
    && (c'.log != c.log && c.log == [] ==> c.marker == IDLE && !c.websocket)
    && (c'.streaming && !c.streaming ==> c.marker == IDLE && !c.websocket && c.log == [])
    && (!c'.websocket && c'.marker == ACTING && c.marker != ACTING ==> c.marker == IDLE && !c.streaming)
  }

  /** The action bookkeeping is untouched and no action tag appears or goes. */
  predicate SameActions(c: Conn, c': Conn) {
    c'.app == c.app && c'.websocket == c.websocket && (c'.marker == ACTING <==> c.marker == ACTING)
  }

  lemma ReadLeavesActions(c: Conn, ok: bool)
    requires c.fp.Some? && c.marker == UPLOADING
    ensures SameActions(c, UploadRead(c, ok))
  {
  }

  lemma PrepareLeavesActions(c: Conn, e: Event, closable: bool)
    requires e.Headers? && c.marker == IDLE && c.log == []
    ensures SameActions(c, PrepUpload(c, e, closable))
  {
    if e.openAs.Some? {
      PreparedReads(c, e, closable);
      ReadLeavesActions(Opening(c, Drop(c.recv, e.headLen), e.bodyLen, e.openAs.value, closable), e.writeOk);
    }
  }

  lemma UploadsLeaveActions(c: Conn, e: Event)
    requires Inv(c) && (e.Read? || e.Close? || e.Headers?)
    ensures SameActions(c, Step(c, e))
  {
    match e
    case Read(chunk, ok) =>
      if c.streaming && c.marker == UPLOADING {
        ReadLeavesActions(c.(recv := c.recv + chunk), ok);
      }
    case Close =>
    case Headers(post, handler, _, _, _, _) =>
      if !c.streaming && !c.websocket && c.marker == IDLE && post {
        match handler
        case UploadHandler(hasCloser) => PrepareLeavesActions(c, e, hasCloser);
        case FileHandler => PrepareLeavesActions(c, e, true);
        case _ =>
      }
  }

  lemma StepMode(c: Conn, e: Event)
    requires Inv(c)
    ensures ModeChange(c, Step(c, e))
  {
    if e.Read? || e.Close? || e.Headers? {
      UploadsLeaveActions(c, e);
    }
  }

  /** In every run uploads and actions start only on an idle connection, and an upload starts once at most. */
  lemma ModesStartIdle(events: seq<Event>, e: Event)
    ensures ModeChange(Run(FRESH, events), Step(Run(FRESH, events), e))
  {
    StepMode(Run(FRESH, events), e);
  }

  /** Answers stand right behind starts and nowhere else: what follows a start is its answer. */
  ghost predicate ActionLog(app: seq<AppEffect>) {
    && (app != [] ==> !app[0].ActionReplied?)
    && forall i :: 0 <= i < |app| - 1 ==> (app[i].ActionStarted? <==> app[i + 1].ActionReplied?)
  }

  predicate Unanswered(app: seq<AppEffect>) {
    app != [] && app[|app| - 1].ActionStarted?
  }

  /** What the action log owes is what the tag says. */
  ghost predicate ActionInv(c: Conn) {
    ActionLog(c.app) && (Unanswered(c.app) <==> !c.websocket && c.marker == ACTING)
  }

  lemma ActionLogGrows(app: seq<AppEffect>, x: AppEffect)
    requires ActionLog(app) && (Unanswered(app) <==> x.ActionReplied?)
    ensures ActionLog(app + [x]) && (Unanswered(app + [x]) <==> x.ActionStarted?)
  {
  }

  lemma MessageAction(c: Conn, r: Route)
    requires ActionInv(c) && !c.websocket && c.marker == IDLE
    ensures ActionInv(HandleMessage(c, r)) && HandleMessage(c, r).marker != HANDLED
  {
    match r
    case ActionRoute(bodyLen, running) =>
      if bodyLen == 0 {
        ActionLogGrows(c.app, ActionQueried(running));
      } else {
        ActionLogGrows(c.app, ActionStarted);
        ActionLogGrows(c.app + [ActionStarted], ActionReplied(false));
        assert c.app + [ActionStarted, ActionReplied(false)] == c.app + [ActionStarted] + [ActionReplied(false)];
      }
    case WebsocketRoute(_) =>
    case OtherRoute => ActionLogGrows(c.app, OtherReplied);
  }

  /** The other events, on the log of the application alone. */
  lemma ActionStep(c: Conn, e: Event)
    requires Inv(c) && ActionInv(c) && !e.Read? && !e.Close? && !e.Headers?
    ensures ActionInv(Step(c, e))
  {
    match e
    case Message(r) =>
      if !c.streaming && !c.websocket && c.marker == IDLE {
        MessageAction(c, r);
      }
    case Poll(_) =>
      if !c.streaming && !c.websocket && c.marker == ACTING {
        ActionLogGrows(c.app, ActionReplied(true));
      }
    case _ =>
  }

  /**
   In every run each started action but an unanswered last one has its answer right behind it, every answer
   is such an answer, and one is owed exactly while the tag is 'A'.
   */
  lemma {:induction false} ActionsAnswered(events: seq<Event>)
    ensures ActionInv(Run(FRESH, events))
    decreases |events|
  {
    if events != [] {
      var front := events[..|events| - 1];
      ActionsAnswered(front);
      var e := events[|events| - 1];
      if e.Read? || e.Close? || e.Headers? {
        UploadsLeaveActions(Run(FRESH, front), e);
      } else {
        ActionStep(Run(FRESH, front), e);
      }
    }
  }

  /** What an idle connection does with a complete request, by the answer of the check function. */
  lemma RequestAnswered(c: Conn, bodyLen: size, running: bool)
    requires Idle(c)
    ensures var s := Step(c, Message(ActionRoute(bodyLen, running)));
      if bodyLen == 0 then s == c.(app := c.app + [ActionQueried(running)])
      else if running then s == c.(app := c.app + [ActionStarted], marker := ACTING)
      else s == c.(app := c.app + [ActionStarted, ActionReplied(false)])
  {
    var m := Message(ActionRoute(bodyLen, running));
    assert Step(c, m) == HandleMessage(c, m.route);
  }

  /** All other complete requests: an upgrade, or an answer that leaves the tag alone. */
  lemma OtherRequests(c: Conn, upgraded: bool)
    requires Idle(c)
    ensures Step(c, Message(WebsocketRoute(upgraded))) == c.(websocket := upgraded)
    ensures Step(c, Message(OtherRoute)) == c.(app := c.app + [OtherReplied])
  {
    assert Step(c, Message(WebsocketRoute(upgraded))) == HandleMessage(c, WebsocketRoute(upgraded));
    assert Step(c, Message(OtherRoute)) == HandleMessage(c, OtherRoute);
  }

  /** On a websocket connection the tag is whatever its timers write; a request changes it from 'Z' to idle and nothing else. */
  lemma WebsocketTag(c: Conn, b: byte, r: Route)
    requires Inv(c) && c.websocket
    ensures Step(c, Scribble(b)) == c.(marker := b)
    ensures Step(c, Message(r)) == if c.marker == 90 then c.(marker := 0) else c
  {
  }

  function Polls(k: nat, running: bool): seq<Event> {
    seq(k, _ => Poll(running))
  }

  lemma PollsSnoc(k: nat, running: bool)
    requires k > 0
    ensures Polls(k, running)[..k - 1] == Polls(k - 1, running) && Polls(k, running)[k - 1] == Poll(running)
  {
  }

  lemma {:induction false} PollsWait(c: Conn, k: nat)
    requires Inv(c)
    ensures Run(c, Polls(k, true)) == c
    decreases k
  {
    if k > 0 {
      PollsSnoc(k, true);
      PollsWait(c, k - 1);
    }
  }

  /**
   An action that is still running when it is started is answered "true" at exactly the first poll that finds it
   finished, however many polls find it running before, and the connection is idle again.
   */
  lemma ActionAnsweredWhenDone(c: Conn, bodyLen: size, k: nat)
    requires Idle(c) && bodyLen > 0
    ensures var start := [Message(ActionRoute(bodyLen, true))];
      && Run(c, start + Polls(k, true)) == c.(app := c.app + [ActionStarted], marker := ACTING)
      && Run(c, start + Polls(k, true) + [Poll(false)]) == c.(app := c.app + [ActionStarted, ActionReplied(true)])
  {
    var m := Message(ActionRoute(bodyLen, true));
    var none: seq<Event> := [];
    RequestAnswered(c, bodyLen, true);
    assert [m][..0] == none && Run(c, none) == c;
    assert Run(c, [m]) == Step(c, m);
    RunConcat(c, [m], Polls(k, true));
    PollsWait(Step(c, m), k);
    var events := [m] + Polls(k, true);
    assert (events + [Poll(false)])[..|events|] == events;
    assert c.app + [ActionStarted] + [ActionReplied(true)] == c.app + [ActionStarted, ActionReplied(true)];
  }

  // ---------------------------------------------------------------- conservation over all runs

  /** The bytes that READ events bring in. */
  function Arrived(events: seq<Event>): seq<byte> {
    if events == [] then [] else
    var last := events[|events| - 1];
    Arrived(events[..|events| - 1]) + if last.Read? then last.chunk else []
  }

  /** What has been handed to the write function, followed by what is still buffered. */
  function Body(c: Conn): seq<byte> {
    Data(c.log) + c.recv
  }

  lemma CloseKeepsBody(c: Conn)
    ensures Body(CloseFile(c)) == Body(c)
  {
    if c.closable && c.fp.Some? {
      DataSnoc(c.log, Closed(c.fp.value));
    }
  }

  lemma EndKeepsBody(c: Conn, reply: Effect)
    requires reply.Replied?
    ensures Body(Ended(c, reply)) == Body(c)
  {
    DataSnoc(c.log, reply);
    CloseKeepsBody(c.(log := c.log + [reply]));
  }

  lemma WriteKeepsBody(c: Conn, n: nat, ok: bool)
    requires c.fp.Some? && n <= |c.recv|
    ensures Body(AfterWrite(c, n, ok)) == Body(c)
  {
    if n > 0 {
      DataSnoc(c.log, Wrote(c.fp.value, c.recv[..n], ok));
    }
    ConcatAssoc(Data(c.log), c.recv[..n], c.recv[n..]);
    assert c.recv[..n] + c.recv[n..] == c.recv;
  }

  /** A READ moves bytes from the buffer to the file and loses none, also when the write fails. */
  lemma ReadKeepsBody(c: Conn, ok: bool)
    requires c.fp.Some?
    ensures Body(UploadRead(c, ok)) == Body(c)
    ensures UploadRead(c, ok).streaming == c.streaming
  {
    if Receiving(c) {
      var n := Forwarded(c);
      var c1 := AfterWrite(c, n, ok);
      WriteKeepsBody(c, n, ok);
      EndKeepsBody(c1, FAILURE);
      EndKeepsBody(c1, Success(c1));
    }
  }

  /** A connection that streams stays that way; only READ events add to its body. */
  lemma StreamStep(c: Conn, e: Event)
    requires Inv(c) && c.streaming
    ensures Step(c, e).streaming
    ensures Body(Step(c, e)) == Body(c) + if e.Read? then e.chunk else []
  {
    match e
    case Read(chunk, ok) =>
      ConcatAssoc(Data(c.log), c.recv, chunk);
      if c.marker == UPLOADING {
        ReadKeepsBody(c.(recv := c.recv + chunk), ok);
      }
    case Close =>
      CloseKeepsBody(c);
    case _ =>
  }

  lemma {:induction false} StreamRun(c: Conn, events: seq<Event>)
    requires Inv(c) && c.streaming
    ensures Run(c, events).streaming
    ensures Body(Run(c, events)) == Body(c) + Arrived(events)
    decreases |events|
  {
    if events != [] {
      var front, e := events[..|events| - 1], events[|events| - 1];
      StreamRun(c, front);
      StreamStep(Run(c, front), e);
      ConcatAssoc(Body(c), Arrived(front), if e.Read? then e.chunk else []);
    }
  }

  lemma RunSplit(c: Conn, events: seq<Event>, i: nat)
    requires Inv(c) && i < |events|
    ensures Run(c, events[..i + 1]) == Step(Run(c, events[..i]), events[i])
    ensures Run(c, events) == Run(Run(c, events[..i + 1]), events[i + 1..])
  {
    assert events[..i + 1][..i] == events[..i];
    assert events == events[..i + 1] + events[i + 1..];
    RunConcat(c, events[..i + 1], events[i + 1..]);
  }

  /** The step that turns a connection into an upload starts its body with what followed the headers. */
  lemma StreamStarts(c: Conn, e: Event)
    requires Inv(c) && !c.streaming && Step(c, e).streaming
    ensures e.Headers? && Body(Step(c, e)) == Drop(c.recv, e.headLen)
  {
    assert e.Headers? && c.marker == IDLE && !c.websocket && e.openAs.Some?;
    var closable := if e.handler.UploadHandler? then e.handler.hasCloser else true;
    assert Step(c, e) == PrepUpload(c, e, closable);
    PreparedReads(c, e, closable);
    var c1 := Opening(c, Drop(c.recv, e.headLen), e.bodyLen, e.openAs.value, closable);
    OpeningInv(c, Drop(c.recv, e.headLen), e.bodyLen, e.openAs.value, closable);
    ReadKeepsBody(c1, e.writeOk);
  }

  /**
   Nothing is lost, repeated or reordered in any run: if event `i` starts an upload, then whatever happens
   afterwards (failed writes, late bytes and the close included) the bytes handed to the write function
   followed by the buffer are the bytes received after the headers.
   */
  lemma BytesConserved(events: seq<Event>, i: nat)
    requires i < |events|
    requires !Run(FRESH, events[..i]).streaming && Run(FRESH, events[..i + 1]).streaming
    ensures events[i].Headers?
    ensures Body(Run(FRESH, events)) == Drop(Run(FRESH, events[..i]).recv, events[i].headLen) + Arrived(events[i + 1..])
  {
    var c := Run(FRESH, events[..i]);
    RunSplit(FRESH, events, i);
    StreamStarts(c, events[i]);
    StreamRun(Step(c, events[i]), events[i + 1..]);
  }

  // ---------------------------------------------------------------- completeness of one upload

  /** What is uploaded: the file handle, whether it can be closed, and the announced length. */
  datatype Job = Job(file: nat, closer: bool, length: size)

  /** Body bytes as the 32-bit counters of the code see them. */
  function Count(sent: seq<byte>): size {
    |sent| % SIZE_MODULUS
  }

  lemma CountSmall(sent: seq<byte>)
    requires |sent| < SIZE_MODULUS
    ensures Count(sent) == |sent|
  {
  }

  /** An accepted upload after `sent` body bytes arrived: still open. */
  ghost predicate InFlight(c: Conn, sent: seq<byte>, job: Job) {
    && Inv(c) && c.streaming && c.marker == UPLOADING
    && c.fp == Some(job.file) && c.closable == job.closer && c.expected == job.length > 0
    && Body(c) == sent
  }

  ghost predicate Waiting(c: Conn, sent: seq<byte>, job: Job) {
    InFlight(c, sent, job) && |c.recv| < ALIGNMENT
  }

  /** The log ends with the success reply for `count` bytes and the close, if there is a close function. */
  predicate EndsWell(log: seq<Effect>, count: size, job: Job) {
    var m := if job.closer then |log| - 1 else |log|;
    && m > 0 && log[m - 1] == Replied(200, Some(count))
    && (job.closer ==> log[m] == Closed(job.file))
  }

  /** The upload has ended well with `sent` in the file; `late` arrived afterwards and stays buffered. */
  ghost predicate Completed(c: Conn, sent: seq<byte>, late: seq<byte>, job: Job) {
    && Inv(c) && c.streaming && c.marker == IDLE && c.draining
    && Data(c.log) == sent && c.recv == late
    && EndsWell(c.log, Count(sent), job)
  }

  lemma InFlightCounts(c: Conn, sent: seq<byte>, job: Job)
    requires InFlight(c, sent, job)
    ensures |sent| == |Data(c.log)| + |c.recv|
    ensures AddSize(c.received, |c.recv|) == Count(sent)
  {
    assert |Data(c.log) + c.recv| == |Data(c.log)| + |c.recv|;
    SizeSum(|Data(c.log)|, |c.recv|);
  }

  lemma Wrapped(q: nat, r: size)
    ensures (SIZE_MODULUS * q + r) % SIZE_MODULUS == r
  {
  }

  /** Rounding down to a block commutes with the wrap, because a block divides 2^32. */
  lemma RoundedWrap(a: nat, b: nat)
    requires a % ALIGNMENT == 0
    ensures (a + RoundDown(b)) % SIZE_MODULUS <= (a + b) % SIZE_MODULUS
  {
    var z, u := a / ALIGNMENT + b / ALIGNMENT, b % ALIGNMENT;
    var q, w := z / 0x80_0000, z % 0x80_0000;
    assert a + RoundDown(b) == SIZE_MODULUS * q + ALIGNMENT * w;
    Wrapped(q, ALIGNMENT * w);
    Wrapped(q, ALIGNMENT * w + u);
  }

  /** Short of the announced length a READ writes whole blocks and leaves less than a block buffered. */
  lemma ReadWaits(c: Conn, sent: seq<byte>, job: Job)
    requires InFlight(c, sent, job) && Count(sent) < job.length
    ensures Waiting(UploadRead(c, true), sent, job)
  {
    ReadInv(c, true);
    ReadKeepsBody(c, true);
    InFlightCounts(c, sent, job);
    if c.recv != [] {
      AlignedSum(0, |c.recv|);
      RoundedWrap(|Data(c.log)|, |c.recv|);
      SizeSum(|Data(c.log)|, RoundDown(|c.recv|));
      assert UploadRead(c, true) == AfterWrite(c, RoundDown(|c.recv|), true);
    }
  }

  /** With the announced length counted a READ writes all there is, reports the count and closes the file. */
  lemma ReadCompletes(c: Conn, sent: seq<byte>, job: Job)
    requires InFlight(c, sent, job) && Count(sent) >= job.length
    ensures Completed(UploadRead(c, true), sent, [], job)
  {
    ReadInv(c, true);
    ReadKeepsBody(c, true);
    InFlightCounts(c, sent, job);
    assert c.recv != [];
    var c1 := AfterWrite(c, |c.recv|, true);
    assert c1.received == Count(sent);
    assert UploadRead(c, true) == Ended(c1, Success(c1));
    assert Data(UploadRead(c, true).log) + [] == sent;
  }

  /** One more chunk while the upload is open. */
  lemma ChunkDelivers(c: Conn, sent: seq<byte>, chunk: seq<byte>, job: Job)
    requires Waiting(c, sent, job)
    ensures var s := Step(c, Read(chunk, true));
      if Count(sent + chunk) < job.length then Waiting(s, sent + chunk, job)
      else Completed(s, sent + chunk, [], job)
  {
    var c1 := c.(recv := c.recv + chunk);
    ConcatAssoc(Data(c.log), c.recv, chunk);
    if Count(sent + chunk) < job.length {
      ReadWaits(c1, sent + chunk, job);
    } else {
      ReadCompletes(c1, sent + chunk, job);
    }
  }

  function NewJob(h: Handler, f: nat, n: size): Job {
    Job(f, h.UploadHandler? ==> h.hasCloser, n)
  }

  /** A connection that takes an upload request with these headers. */
  ghost predicate Ready(c: Conn, h: Handler, head: seq<byte>) {
    Idle(c) && Streams(h) && |head| < SIZE_MODULUS
  }

  /** The state right after the headers of an upload request arrived together with `first`. */
  function Accepted(c: Conn, h: Handler, head: seq<byte>, first: seq<byte>, n: size, f: nat): (c': Conn)
    requires Inv(c) && |head| < SIZE_MODULUS
    ensures Inv(c')
  {
    var e := Headers(true, h, |head|, n, Some(f), true);
    StepInv(c.(recv := head + first), e);
    Step(c.(recv := head + first), e)
  }

  function Feed(c: Conn, chunks: seq<seq<byte>>): (c': Conn)
    requires Inv(c)
    ensures Inv(c')
  {
    if chunks == [] then c else
    var c0 := Feed(c, chunks[..|chunks| - 1]);
    StepInv(c0, Read(chunks[|chunks| - 1], true));
    Step(c0, Read(chunks[|chunks| - 1], true))
  }

  function Sent(first: seq<byte>, chunks: seq<seq<byte>>, k: nat): seq<byte>
    requires k <= |chunks|
  {
    first + Flatten(chunks[..k])
  }

  /** The 32-bit count stays below `n` up to and without READ `k`. */
  ghost predicate Below(first: seq<byte>, chunks: seq<seq<byte>>, n: size, k: nat) {
    k <= |chunks| + 1 && forall j :: 0 <= j < k ==> Count(Sent(first, chunks, j)) < n
  }

  /** The 32-bit count reaches `n` with READ `k` and not before. */
  ghost predicate Reaches(first: seq<byte>, chunks: seq<seq<byte>>, n: size, k: nat) {
    k <= |chunks| && Below(first, chunks, n, k) && Count(Sent(first, chunks, k)) >= n
  }

  lemma AcceptedReads(c: Conn, h: Handler, head: seq<byte>, first: seq<byte>, n: size, f: nat)
    requires Ready(c, h, head)
    ensures Accepted(c, h, head, first, n, f) == UploadRead(Opening(c, first, n, f, NewJob(h, f, n).closer), true)
  {
    assert Drop(head + first, |head|) == first;
    PreparedReads(c.(recv := head + first), Headers(true, h, |head|, n, Some(f), true), NewJob(h, f, n).closer);
  }

  lemma RunThree(c: Conn, a: Event, b: Event, d: Event)
    requires Inv(c)
    ensures Inv(Step(c, a)) && Inv(Step(Step(c, a), b)) && Run(c, [a, b, d]) == Step(Step(Step(c, a), b), d)
  {
    StepInv(c, a);
    StepInv(Step(c, a), b);
    var none: seq<Event> := [];
    assert [a][..0] == none && [a, b][..1] == [a] && [a, b, d][..2] == [a, b];
    assert Run(c, none) == c;
    assert Run(c, [a]) == Step(c, a);
    assert Run(c, [a, b]) == Step(Step(c, a), b);
  }

  /**
   A connection kept alive: a request in front is answered and deleted, and the upload behind it then finds its headers
   and body where it expects them.
   */
  lemma UploadAfterRequest(c: Conn, h: Handler, request: seq<byte>, head: seq<byte>, first: seq<byte>, n: size, f: nat)
    requires Ready(c, h, head) && c.recv == request + head + first
    ensures var s := Run(c, [Message(OtherRoute), Consumed(|request|), Headers(true, h, |head|, n, Some(f), true)]);
      s == Accepted(c.(app := c.app + [OtherReplied]), h, head, first, n, f) && Body(s) == first
  {
    var m, d, e := Message(OtherRoute), Consumed(|request|), Headers(true, h, |head|, n, Some(f), true);
    var c1 := c.(app := c.app + [OtherReplied]);
    var c2 := c1.(recv := head + first);
    OtherRequests(c, false);
    assert Drop(request + head + first, |request|) == head + first;
    assert Step(c1, d) == c2;
    RunThree(c, m, d, e);
    AcceptedReads(c1, h, head, first, n, f);
    OpeningInv(c1, first, n, f, NewJob(h, f, n).closer);
    var o := Opening(c1, first, n, f, NewJob(h, f, n).closer);
    ReadKeepsBody(o, true);
    assert Body(o) == first;
  }

  lemma AcceptDelivers(c: Conn, h: Handler, head: seq<byte>, first: seq<byte>, n: size, f: nat)
    requires Ready(c, h, head) && 0 < n
    ensures var s := Accepted(c, h, head, first, n, f);
      if Count(first) < n then Waiting(s, first, NewJob(h, f, n)) else Completed(s, first, [], NewJob(h, f, n))
  {
    var job := NewJob(h, f, n);
    AcceptedReads(c, h, head, first, n, f);
    OpeningInv(c, first, n, f, job.closer);
    var c1 := Opening(c, first, n, f, job.closer);
    assert Data(c1.log) + c1.recv == first;
    if Count(first) < n {
      ReadWaits(c1, first, job);
    } else {
      ReadCompletes(c1, first, job);
    }
  }

  lemma LateChunk(c: Conn, sent: seq<byte>, late: seq<byte>, chunk: seq<byte>, job: Job)
    requires Completed(c, sent, late, job)
    ensures Completed(Step(c, Read(chunk, true)), sent, late + chunk, job)
  {
  }

  /** What must hold of a connection `s` once `first` and then `chunks` have arrived. */
  ghost predicate Delivers(s: Conn, first: seq<byte>, chunks: seq<seq<byte>>, job: Job) {
    && (Below(first, chunks, job.length, |chunks| + 1) ==> Waiting(s, Sent(first, chunks, |chunks|), job))
    && (forall k: nat :: Reaches(first, chunks, job.length, k) ==>
          Completed(s, Sent(first, chunks, k), Flatten(chunks[k..]), job))
  }

  lemma SentFront(first: seq<byte>, chunks: seq<seq<byte>>)
    requires chunks != []
    ensures var m := |chunks|; var front := chunks[..m - 1];
      && Sent(first, chunks, m) == Sent(first, front, m - 1) + chunks[m - 1]
      && forall j :: 0 <= j < m ==> Sent(first, chunks, j) == Sent(first, front, j)
  {
    var m := |chunks|;
    var front := chunks[..m - 1];
    assert chunks[..m] == front + [chunks[m - 1]] && front[..m - 1] == front;
    FlattenSnoc(front, chunks[m - 1]);
    ConcatAssoc(first, Flatten(front), chunks[m - 1]);
    forall j | 0 <= j < m ensures Sent(first, chunks, j) == Sent(first, front, j) {
      assert chunks[..j] == front[..j];
    }
  }

  lemma BelowFront(first: seq<byte>, front: seq<seq<byte>>, last: seq<byte>, n: size)
    requires Below(first, front + [last], n, |front| + 1)
    ensures Below(first, front, n, |front| + 1)
  {
    SentFront(first, front + [last]);
    assert (front + [last])[..|front|] == front;
  }

  /** The next chunk of an upload that is still open. */
  lemma OpenSnoc(s: Conn, first: seq<byte>, front: seq<seq<byte>>, last: seq<byte>, job: Job)
    requires Inv(s) && Delivers(s, first, front, job) && Below(first, front + [last], job.length, |front| + 1)
    ensures var s', sent := Step(s, Read(last, true)), Sent(first, front + [last], |front| + 1);
      if Count(sent) < job.length then Waiting(s', sent, job) else Completed(s', sent, [], job)
  {
    BelowFront(first, front, last, job.length);
    SentFront(first, front + [last]);
    assert (front + [last])[..|front|] == front;
    ChunkDelivers(s, Sent(first, front, |front|), last, job);
  }

  lemma ReachSnoc(first: seq<byte>, front: seq<seq<byte>>, last: seq<byte>, n: size, k: nat)
    requires Reaches(first, front + [last], n, k) && k <= |front|
    ensures Reaches(first, front, n, k) && Sent(first, front, k) == Sent(first, front + [last], k)
    ensures Flatten((front + [last])[k..]) == Flatten(front[k..]) + last
  {
    var chunks := front + [last];
    assert chunks[..|front|] == front;
    SentFront(first, chunks);
    assert chunks[k..] == front[k..] + [last];
    FlattenSnoc(front[k..], last);
  }

  /** The next chunk when it completes the upload or finds it completed. */
  lemma DoneSnoc(s: Conn, first: seq<byte>, front: seq<seq<byte>>, last: seq<byte>, job: Job, k: nat)
    requires Inv(s) && Delivers(s, first, front, job) && Reaches(first, front + [last], job.length, k)
    ensures var chunks := front + [last];
      Completed(Step(s, Read(last, true)), Sent(first, chunks, k), Flatten(chunks[k..]), job)
  {
    if k == |front| + 1 {
      OpenSnoc(s, first, front, last, job);
      assert Flatten((front + [last])[k..]) == [];
    } else {
      ReachSnoc(first, front, last, job.length, k);
      LateChunk(s, Sent(first, front, k), Flatten(front[k..]), last, job);
    }
  }

  lemma DeliversSnoc(s: Conn, first: seq<byte>, front: seq<seq<byte>>, last: seq<byte>, job: Job)
    requires Inv(s) && Delivers(s, first, front, job)
    ensures Delivers(Step(s, Read(last, true)), first, front + [last], job)
  {
    var chunks, m, n := front + [last], |front|, job.length;
    if Below(first, chunks, n, m + 2) {
      assert Below(first, chunks, n, m + 1);
      OpenSnoc(s, first, front, last, job);
    }
    forall k: nat | Reaches(first, chunks, n, k)
      ensures Completed(Step(s, Read(last, true)), Sent(first, chunks, k), Flatten(chunks[k..]), job)
    {
      DoneSnoc(s, first, front, last, job, k);
    }
  }

  /**
   A whole upload whose writes succeed, for every way the network cuts the body and every number of bytes:
   until the 32-bit count of body bytes reaches the announced length the file is open, everything received is
   written or buffered, and less than a block is buffered; at exactly the first READ whose count reaches it
   everything in hand is in the file, one 200 with that count was sent and the file was closed; bytes arriving
   later are never written.
   */
  lemma {:induction false} UploadDelivers(c: Conn, h: Handler, head: seq<byte>, first: seq<byte>, chunks: seq<seq<byte>>, n: size, f: nat)
    requires Ready(c, h, head) && 0 < n
    ensures Delivers(Feed(Accepted(c, h, head, first, n, f), chunks), first, chunks, NewJob(h, f, n))
    decreases |chunks|
  {
    if chunks == [] {
      AcceptDelivers(c, h, head, first, n, f);
      assert Sent(first, chunks, 0) == first;
    } else {
      var front, last := chunks[..|chunks| - 1], chunks[|chunks| - 1];
      assert chunks == front + [last];
      UploadDelivers(c, h, head, first, front, n, f);
      DeliversSnoc(Feed(Accepted(c, h, head, first, n, f), front), first, front, last, NewJob(h, f, n));
    }
  }

  lemma SentRest(first: seq<byte>, chunks: seq<seq<byte>>, k: nat)
    requires k <= |chunks|
    ensures first + Flatten(chunks) == Sent(first, chunks, k) + Flatten(chunks[k..])
  {
    assert chunks == chunks[..k] + chunks[k..];
    FlattenConcat(chunks[..k], chunks[k..]);
    ConcatAssoc(first, Flatten(chunks[..k]), Flatten(chunks[k..]));
  }

  lemma SentGrows(first: seq<byte>, chunks: seq<seq<byte>>, j: nat, k: nat)
    requires j <= k <= |chunks|
    ensures |Sent(first, chunks, j)| <= |Sent(first, chunks, k)|
  {
    assert chunks[..k][..j] == chunks[..j];
    SentRest(first, chunks[..k], j);
  }

  /** The bytes in hand really reach `n` with READ `k` and not before. */
  ghost predicate HasAll(first: seq<byte>, chunks: seq<seq<byte>>, n: nat, k: nat) {
    && k <= |chunks| && |Sent(first, chunks, k)| >= n
    && forall j :: 0 <= j < k ==> |Sent(first, chunks, j)| < n
  }

  lemma HasAllBelow(first: seq<byte>, chunks: seq<seq<byte>>, n: size)
    requires HasAll(first, chunks, n, |chunks|)
    ensures Below(first, chunks, n, |chunks|)
    ensures Reaches(first, chunks, n, |chunks|) || Below(first, chunks, n, |chunks| + 1)
  {
  }

  lemma Opposed(s: Conn, sent: seq<byte>, job: Job)
    ensures !(Completed(s, sent, [], job) && Waiting(s, sent, job))
  {
  }

  lemma DeliversAll(s: Conn, first: seq<byte>, chunks: seq<seq<byte>>, job: Job)
    requires Delivers(s, first, chunks, job) && HasAll(first, chunks, job.length, |chunks|)
    ensures var sent := Sent(first, chunks, |chunks|);
      && (Completed(s, sent, [], job) <==> Count(sent) >= job.length)
      && (Waiting(s, sent, job) <==> Count(sent) < job.length)
  {
    var m := |chunks|;
    HasAllBelow(first, chunks, job.length);
    if Count(Sent(first, chunks, m)) >= job.length {
      assert Flatten(chunks[m..]) == [];
      Opposed(s, Sent(first, chunks, m), job);
    }
  }

  /** At the READ that brings the last announced byte the upload completes iff the 32-bit sum does not wrap below it. */
  lemma CompletesIffNoWrap(c: Conn, h: Handler, head: seq<byte>, first: seq<byte>, chunks: seq<seq<byte>>, n: size, f: nat)
    requires Ready(c, h, head) && 0 < n && HasAll(first, chunks, n, |chunks|)
    ensures var s, sent := Feed(Accepted(c, h, head, first, n, f), chunks), Sent(first, chunks, |chunks|);
      && (Completed(s, sent, [], NewJob(h, f, n)) <==> Count(sent) >= n)
      && (Waiting(s, sent, NewJob(h, f, n)) <==> Count(sent) < n)
  {
    UploadDelivers(c, h, head, first, chunks, n, f);
    DeliversAll(Feed(Accepted(c, h, head, first, n, f), chunks), first, chunks, NewJob(h, f, n));
  }

  /** The announced bytes are all there with the last chunk and not before. */
  lemma LastChunkBringsAll(first: seq<byte>, front: seq<seq<byte>>, last: seq<byte>, n: nat)
    requires |Sent(first, front, |front|)| < n <= |Sent(first, front, |front|)| + |last|
    ensures HasAll(first, front + [last], n, |front| + 1)
    ensures Sent(first, front + [last], |front| + 1) == Sent(first, front, |front|) + last
  {
    var chunks := front + [last];
    assert chunks[..|front|] == front;
    SentFront(first, chunks);
    forall j | 0 <= j < |front| + 1 ensures |Sent(first, chunks, j)| < n {
      SentGrows(first, front, j, |front|);
    }
  }

  /** The 512 that the counter holds after the wrap. */
  lemma WrappedCount(s: Conn, sent: seq<byte>, job: Job)
    requires |sent| == 0x1_0000_0200 && (Waiting(s, sent, job) <==> Count(sent) < job.length) && job.length == 0xFFFF_FFFF
    ensures Waiting(s, sent, job) && s.received == 512
  {
    assert Count(sent) == 512;
    InFlightCounts(s, sent, job);
  }

  /**
   Uploads that have all they were promised and do not notice, for every way the bytes arrive: with
   0xFFFFFE00 bytes sent, a last READ of 1024 makes the sum of the two counters wrap to 512.
   */
  lemma WrapStaysOpen(c: Conn, h: Handler, head: seq<byte>, first: seq<byte>, front: seq<seq<byte>>, last: seq<byte>, f: nat)
    requires Ready(c, h, head) && |Sent(first, front, |front|)| == 0xFFFF_FE00 && |last| == 1024
    ensures var n: size, chunks := 0xFFFF_FFFF, front + [last];
      var s, sent := Feed(Accepted(c, h, head, first, n, f), chunks), Sent(first, chunks, |chunks|);
      |sent| > n && Waiting(s, sent, NewJob(h, f, n)) && s.received == 512
  {
    var n: size, chunks := 0xFFFF_FFFF, front + [last];
    LastChunkBringsAll(first, front, last, n);
    assert |Sent(first, chunks, |chunks|)| == 0x1_0000_0200;
    CompletesIffNoWrap(c, h, head, first, chunks, n, f);
    WrappedCount(Feed(Accepted(c, h, head, first, n, f), chunks), Sent(first, chunks, |chunks|), NewJob(h, f, n));
  }

  lemma {:induction false} FlattenBlocks(blocks: seq<seq<byte>>)
    requires forall i :: 0 <= i < |blocks| ==> |blocks[i]| == ALIGNMENT
    ensures |Flatten(blocks)| == ALIGNMENT * |blocks|
    decreases |blocks|
  {
    if blocks != [] {
      FlattenBlocks(blocks[..|blocks| - 1]);
    }
  }

  /** Such an upload from a network that delivers at most 1024 bytes at a time: 8388607 blocks of 512, then 1024. */
  lemma WrapInput(c: Conn, h: Handler, head: seq<byte>, blocks: seq<seq<byte>>, last: seq<byte>, f: nat)
    requires Ready(c, h, head) && |blocks| == 0x7F_FFFF && |last| == 1024
    requires forall i :: 0 <= i < |blocks| ==> |blocks[i]| == 512
    ensures var s := Feed(Accepted(c, h, head, [], 0xFFFF_FFFF, f), blocks + [last]);
      s.marker == UPLOADING && |Body(s)| == 0x1_0000_0200 && s.received == 512
  {
    FlattenBlocks(blocks);
    assert blocks[..|blocks|] == blocks;
    LastChunkBringsAll([], blocks, last, 0xFFFF_FFFF);
    WrapStaysOpen(c, h, head, [], blocks, last, f);
  }

  // ---------------------------------------------------------------- what the file holds in the end

  lemma ReachedCounts(first: seq<byte>, chunks: seq<seq<byte>>, n: size, k: nat)
    requires Reaches(first, chunks, n, k)
    ensures n <= |Sent(first, chunks, k)| && Sent(first, chunks, k) <= first + Flatten(chunks)
  {
    SentRest(first, chunks, k);
  }

  lemma PrefixIff<T>(a: seq<T>, all: seq<T>, n: nat)
    requires n <= |a| && a <= all
    ensures a == all[..n] <==> |a| == n
  {
  }

  lemma DeliversAt(s: Conn, first: seq<byte>, chunks: seq<seq<byte>>, job: Job, k: nat)
    requires Delivers(s, first, chunks, job) && Reaches(first, chunks, job.length, k)
    ensures Data(s.log) == Sent(first, chunks, k)
  {
    assert Completed(s, Sent(first, chunks, k), Flatten(chunks[k..]), job);
  }

  /** The file holds exactly the announced body iff the completing READ brought nothing beyond it. */
  lemma FileIsBodyIff(c: Conn, h: Handler, head: seq<byte>, first: seq<byte>, chunks: seq<seq<byte>>, n: size, f: nat, k: nat)
    requires Ready(c, h, head) && 0 < n && Reaches(first, chunks, n, k)
    ensures var s, all := Feed(Accepted(c, h, head, first, n, f), chunks), first + Flatten(chunks);
      && n <= |all| && Data(s.log) == Sent(first, chunks, k)
      && (Data(s.log) == all[..n] <==> |Sent(first, chunks, k)| == n)
  {
    ReachedCounts(first, chunks, n, k);
    PrefixIff(Sent(first, chunks, k), first + Flatten(chunks), n);
    UploadDelivers(c, h, head, first, chunks, n, f);
    DeliversAt(Feed(Accepted(c, h, head, first, n, f), chunks), first, chunks, NewJob(h, f, n), k);
  }

  /** A request that follows the body in the same READ ends up in the file and in the count. */
  lemma NextRequestWritten(c: Conn, h: Handler, head: seq<byte>, first: seq<byte>, front: seq<seq<byte>>, tail: seq<byte>,
                           next: seq<byte>, body: seq<byte>, f: nat)
    requires Ready(c, h, head) && tail != [] && Sent(first, front, |front|) + tail == body && |body + next| < SIZE_MODULUS
    ensures var s := Feed(Accepted(c, h, head, first, |body|, f), front + [tail + next]);
      Completed(s, body + next, [], NewJob(h, f, |body|)) && (next != [] ==> Data(s.log) != body)
  {
    var chunks := front + [tail + next];
    assert |Sent(first, front, |front|)| < |body|;
    LastChunkBringsAll(first, front, tail + next, |body|);
    ConcatAssoc(Sent(first, front, |front|), tail, next);
    assert Sent(first, chunks, |chunks|) == body + next;
    CountSmall(body + next);
    CompletesIffNoWrap(c, h, head, first, chunks, |body|, f);
  }

  lemma FirstReach(first: seq<byte>, chunks: seq<seq<byte>>, n: size, from: nat) returns (k: nat)
    requires from <= |chunks| && Below(first, chunks, n, from)
    requires Count(Sent(first, chunks, |chunks|)) >= n
    ensures Reaches(first, chunks, n, k)
    decreases |chunks| - from
  {
    if Count(Sent(first, chunks, from)) >= n {
      k := from;
    } else {
      k := FirstReach(first, chunks, n, from + 1);
    }
  }

  lemma ExactReach(first: seq<byte>, chunks: seq<seq<byte>>, body: seq<byte>) returns (k: nat)
    requires first + Flatten(chunks) == body && |body| < SIZE_MODULUS
    ensures Reaches(first, chunks, |body|, k) && Sent(first, chunks, k) == body && Flatten(chunks[k..]) == []
  {
    assert chunks[..|chunks|] == chunks;
    CountSmall(body);
    k := FirstReach(first, chunks, |body|, 0);
    SentRest(first, chunks, k);
    CountSmall(Sent(first, chunks, k));
    assert |body| == |Sent(first, chunks, k)| + |Flatten(chunks[k..])|;
    assert Flatten(chunks[k..]) == [];
    assert body == Sent(first, chunks, k) + [];
  }

  lemma DeliversExactly(s: Conn, first: seq<byte>, chunks: seq<seq<byte>>, body: seq<byte>, job: Job)
    requires Delivers(s, first, chunks, job) && first + Flatten(chunks) == body && job.length == |body|
    ensures Completed(s, body, [], job) && EndsWell(s.log, |body|, job)
  {
    var k := ExactReach(first, chunks, body);
    assert Completed(s, Sent(first, chunks, k), Flatten(chunks[k..]), job);
    CountSmall(body);
  }

  /** A body of exactly the announced length arrives in the file unchanged and is reported with its length, whatever the chunking. */
  lemma ExactBody(c: Conn, h: Handler, head: seq<byte>, first: seq<byte>, chunks: seq<seq<byte>>, body: seq<byte>, f: nat)
    requires Ready(c, h, head) && 0 < |body| < SIZE_MODULUS
    requires first + Flatten(chunks) == body
    ensures var s, job := Feed(Accepted(c, h, head, first, |body|, f), chunks), NewJob(h, f, |body|);
      Completed(s, body, [], job) && EndsWell(s.log, |body|, job)
  {
    UploadDelivers(c, h, head, first, chunks, |body|, f);
    DeliversExactly(Feed(Accepted(c, h, head, first, |body|, f), chunks), first, chunks, body, NewJob(h, f, |body|));
  }

  /** An announced length of zero is accepted but never answered: completion needs a positive length. */
  lemma {:induction false} EmptyBodyNeverCompletes(c: Conn, h: Handler, head: seq<byte>, first: seq<byte>, chunks: seq<seq<byte>>, f: nat)
    requires Ready(c, h, head)
    ensures var s := Feed(Accepted(c, h, head, first, 0, f), chunks);
      s.log == [Opened(f, NewJob(h, f, 0).closer)] && s.marker == UPLOADING && s.expected == 0 && s.streaming
    decreases |chunks|
  {
    if chunks != [] {
      EmptyBodyNeverCompletes(c, h, head, first, chunks[..|chunks| - 1], f);
    } else {
      AcceptedReads(c, h, head, first, 0, f);
    }
  }
}
