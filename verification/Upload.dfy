/**
 The per-connection state machine of the REST server: streaming uploads, long-running actions and
 the websocket takeover, all of which share the 32 bytes of `c->data`.

 Everything the code cannot decide itself (does the file open, does the write succeed, is the action
 still running) is part of the event, so a run is any sequence of events with any answers.
 */
module Upload {
  import opened Bytes

  const ALIGNMENT: nat := 512
  const IDLE: byte := 0
  const UPLOADING: byte := 85  // 'U'
  const ACTING: byte := 65     // 'A'
  const HANDLED: byte := 90    // 'Z'

  /** What the upload code does to the outside world, in order. */
  datatype Effect =
    | Opened(file: nat, closer: bool)  // closer: the handler supplies a close function
    | OpenFailed
    | Wrote(file: nat, data: seq<byte>, ok: bool)
    | Closed(file: nat)
    | Replied(code: nat, count: Option<size>)  // count: the number of bytes a success reports

  /** What the rest of the event handler does to the outside world. */
  datatype AppEffect = ActionStarted | ActionReplied(done: bool) | ActionQueried(running: bool) | OtherReplied

  /** The handler a URI resolves to, as far as the upload code distinguishes handlers. */
  datatype Handler = NoHandler | UploadHandler(hasCloser: bool) | FileHandler | OtherHandler

  /** Where a complete request is routed. `running` is the answer of the action's check function. */
  datatype Route = ActionRoute(bodyLen: size, running: bool) | WebsocketRoute(upgraded: bool) | OtherRoute

  datatype Event =
    | Headers(post: bool, handler: Handler, headLen: size, bodyLen: size, openAs: Option<nat>, writeOk: bool)
    | Read(chunk: seq<byte>, writeOk: bool)
    | Consumed(n: nat)   // the HTTP layer deletes a request it has delivered
    | Message(route: Route)
    | Poll(running: bool)
    | Scribble(b: byte)  // websocket timers are kept in c->data
    | Close

  datatype Conn = Conn(
    marker: byte, expected: size, received: size, fp: Option<nat>, closable: bool,
    recv: seq<byte>, streaming: bool, draining: bool, websocket: bool,
    log: seq<Effect>, app: seq<AppEffect>)

  const FRESH := Conn(IDLE, 0, 0, None, false, [], false, false, false, [], [])

  // ---------------------------------------------------------------- the transition function

  function CloseFile(c: Conn): Conn {
    var log := if c.closable && c.fp.Some? then c.log + [Closed(c.fp.value)] else c.log;
    c.(marker := IDLE, expected := 0, received := 0, fp := None, closable := false, log := log)
  }

  function RoundDown(n: nat): nat {
    n / ALIGNMENT * ALIGNMENT
  }

  /** How much of the receive buffer one READ forwards to the file. */
  function Forwarded(c: Conn): (n: nat)
    ensures n <= |c.recv|
  {
    if AddSize(c.received, |c.recv|) < c.expected then RoundDown(|c.recv|) else |c.recv|
  }

  predicate Receiving(c: Conn) {
    c.marker == UPLOADING && c.expected > 0 && |c.recv| > 0
  }

  /** After forwarding `n` bytes; nothing is written when there is no whole block. */
  function AfterWrite(c: Conn, n: nat, writeOk: bool): Conn
    requires c.fp.Some? && n <= |c.recv|
  {
    c.(received := AddSize(c.received, n), recv := c.recv[n..],
       log := if n > 0 then c.log + [Wrote(c.fp.value, c.recv[..n], writeOk)] else c.log)
  }

  const FAILURE := Replied(400, None)

  function Success(c: Conn): Effect {
    Replied(200, Some(c.received))
  }

  function Ended(c: Conn, reply: Effect): Conn {
    CloseFile(c.(log := c.log + [reply])).(draining := true)
  }

  function UploadRead(c: Conn, writeOk: bool): Conn
    requires c.fp.Some?
  {
    if !Receiving(c) then c else
    var n := Forwarded(c);
    var c1 := AfterWrite(c, n, writeOk);
    if n > 0 && !writeOk then Ended(c1, FAILURE)
    else if c1.received >= c1.expected then Ended(c1, Success(c1))
    else c1
  }

  /** The upload state in place of the HTTP handler, the headers deleted. */
  function Installed(c: Conn, e: Event, closable: bool): Conn
    requires e.Headers? && e.openAs.Some?
  {
    c.(marker := UPLOADING, expected := e.bodyLen, received := 0, fp := e.openAs, closable := closable,
       log := c.log + [Opened(e.openAs.value, closable)], recv := Drop(c.recv, e.headLen), streaming := true)
  }

  function PrepUpload(c: Conn, e: Event, closable: bool): Conn
    requires e.Headers?
  {
    if e.openAs.None? then
      c.(marker := UPLOADING, expected := 0, received := 0, fp := None, closable := false,
         log := c.log + [OpenFailed, FAILURE], draining := true)
    else
      UploadRead(Installed(c, e, closable), e.writeOk)
  }

  function HandleUploads(c: Conn, e: Event): Conn
    requires e.Headers?
  {
    if c.marker != IDLE || !e.post then c else
    match e.handler
    case UploadHandler(hasCloser) => PrepUpload(c, e, hasCloser)
    case FileHandler => PrepUpload(c, e, true)
    case _ => c
  }

  function HandleMessage(c: Conn, r: Route): Conn {
    match r
    case ActionRoute(bodyLen, running) =>
      if bodyLen == 0 then
        c.(app := c.app + [ActionQueried(running)])
      else if running then
        c.(app := c.app + [ActionStarted], marker := ACTING)
      else
        c.(app := c.app + [ActionStarted, ActionReplied(false)])
    case WebsocketRoute(upgraded) => c.(websocket := upgraded)
    case OtherRoute => c.(app := c.app + [OtherReplied])
  }

  /** A stored file pointer is what `upload_handler` needs to be callable at all. */
  predicate Callable(c: Conn) {
    c.streaming && c.marker == UPLOADING ==> c.fp.Some?
  }

  function Step(c: Conn, e: Event): Conn
    requires Callable(c)
  {
    match e
    case Read(chunk, ok) =>
      var c1 := c.(recv := c.recv + chunk);
      if c.streaming && c.marker == UPLOADING then UploadRead(c1, ok) else c1
    case Close =>
      if c.streaming && c.marker == UPLOADING then CloseFile(c) else c
    case Headers(_, _, _, _, _, _) =>
      if c.streaming || c.websocket then c else HandleUploads(c, e)
    case Consumed(n) =>
      if c.streaming then c else c.(recv := Drop(c.recv, n))
    case Message(r) =>
      if c.streaming then c else
      var c1 := if !c.websocket && c.marker == IDLE then HandleMessage(c, r) else c;
      if c1.marker == HANDLED then c1.(marker := IDLE) else c1
    case Poll(running) =>
      if !c.streaming && !c.websocket && c.marker == ACTING && !running then
        c.(app := c.app + [ActionReplied(true)], marker := IDLE)
      else c
    case Scribble(b) =>
      if c.websocket then c.(marker := b) else c
  }

  // ---------------------------------------------------------------- the C code, in place

  /** `struct mg_connection` as far as the handlers touch it; `fp == None` is the null pointer. */
  class Connection {
    var marker: byte
    var expected: size
    var received: size
    var fp: Option<nat>
    var closable: bool
    var recv: seq<byte>
    var streaming: bool  // c->fn == upload_handler
    var draining: bool
    var websocket: bool
    var log: seq<Effect>
    var app: seq<AppEffect>

    ghost function View(): Conn
      reads this
    {
      Conn(marker, expected, received, fp, closable, recv, streaming, draining, websocket, log, app)
    }

    constructor ()
      ensures View() == FRESH
    {
      marker, expected, received, fp, closable := IDLE, 0, 0, None, false;
      recv, streaming, draining, websocket, log, app := [], false, false, false, [], [];
    }

    method ClearUploadState()
      modifies this
      ensures View() == old(View()).(marker := IDLE, expected := 0, received := 0, fp := None, closable := false)
    {
      marker, expected, received, fp, closable := IDLE, 0, 0, None, false;
    }

    method CloseUploadedFile()
      modifies this
      ensures View() == CloseFile(old(View()))
    {
      marker := IDLE;
      if closable && fp.Some? {
        log := log + [Closed(fp.value)];
        fp := None;
      }
      ClearUploadState();
    }

    /** Both endings of an upload: reply, close the file, let the connection drain. */
    method EndUpload(reply: Effect)
      modifies this
      ensures View() == Ended(old(View()), reply)
    {
      log := log + [reply];
      CloseUploadedFile();
      draining := true;
    }

    /** `upload_handler` on MG_EV_READ. */
    method OnRead(writeOk: bool)
      requires fp.Some?
      modifies this
      ensures View() == UploadRead(old(View()), writeOk)
    {
      if marker == UPLOADING && expected > 0 && |recv| > 0 {
        var aligned := |recv|;  // Last write can be unaligned
        if AddSize(received, |recv|) < expected {
          aligned := |recv| / ALIGNMENT * ALIGNMENT;
        }
        var ok := true;
        if aligned > 0 {
          log := log + [Wrote(fp.value, recv[..aligned], writeOk)];
          ok := writeOk;
        }
        received := AddSize(received, aligned);
        recv := recv[aligned..];
        if !ok {
          EndUpload(FAILURE);
        } else if received >= expected {
          EndUpload(Replied(200, Some(received)));
        }
      }
    }

    /** The successful branch of `prep_upload` up to its call of the handler. */
    method Install(e: Event, hasCloser: bool)
      requires e.Headers? && e.openAs.Some? && fp == e.openAs && marker == UPLOADING && received == 0
      modifies this
      ensures View() == Installed(old(View()), e, hasCloser)
    {
      log := log + [Opened(fp.value, hasCloser)];
      expected := e.bodyLen;
      closable := hasCloser;
      recv := Drop(recv, e.headLen);
      streaming := true;
    }

    method Prepare(e: Event, hasCloser: bool)
      requires e.Headers?
      modifies this
      ensures View() == PrepUpload(old(View()), e, hasCloser)
    {
      ClearUploadState();
      fp := e.openAs;
      marker := UPLOADING;
      if fp.None? {
        log := log + [OpenFailed];
        log := log + [FAILURE];
        draining := true;
        assert log == old(log) + [OpenFailed, FAILURE];
      } else {
        Install(e, hasCloser);
        OnRead(e.writeOk);
      }
    }

    method Answer(r: Route)
      modifies this
      ensures View() == HandleMessage(old(View()), r)
    {
      match r
      case ActionRoute(bodyLen, running) =>
        if bodyLen > 0 {
          app := app + [ActionStarted];
          if running { marker := ACTING; } else {
            app := app + [ActionReplied(false)];
            assert app == old(app) + [ActionStarted, ActionReplied(false)];
          }
        } else {
          app := app + [ActionQueried(running)];
        }
      case WebsocketRoute(upgraded) => websocket := upgraded;
      case OtherRoute => app := app + [OtherReplied];
    }

    /** `mg_call` with the handler that is installed on the connection. */
    method Deliver(e: Event)
      requires Callable(View())
      modifies this
      ensures View() == Step(old(View()), e)
    {
      match e
      case Read(chunk, ok) =>
        recv := recv + chunk;
        if streaming && marker == UPLOADING { OnRead(ok); }
      case Close =>
        if streaming && marker == UPLOADING { CloseUploadedFile(); }
      case Headers(post, handler, _, _, _, _) =>
        if !streaming && !websocket && marker == IDLE && post {
          match handler
          case UploadHandler(hasCloser) => Prepare(e, hasCloser);
          case FileHandler => Prepare(e, true);
          case _ =>
        }
      case Consumed(n) =>
        if !streaming { recv := Drop(recv, n); }
      case Message(r) =>
        if !streaming {
          if !websocket && marker == IDLE { Answer(r); }
          if marker == HANDLED { marker := IDLE; }
        }
      case Poll(running) =>
        if !streaming && !websocket && marker == ACTING && !running {
          app := app + [ActionReplied(true)];
          marker := IDLE;
        }
      case Scribble(b) =>
        if websocket { marker := b; }
    }
  }
}
