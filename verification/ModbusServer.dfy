/**
 The Modbus/TCP connection: bytes arrive in arbitrary chunks, and every READ event handles at most one
 frame from the front of the receive buffer.
 */
module ModbusServer {
  import opened Bytes
  import opened Modbus

  // ---------------------------------------------------------------- canonical framing of a byte stream

  /** The size of the frame at the front, when all of it is there. */
  function FrontFrame(buf: seq<byte>): (r: Option<nat>)
    ensures r.Some? ==> 6 <= r.value <= |buf|
  {
    if |buf| < 7 then None else
    var size := Be16(buf[4], buf[5]) + 6;
    if |buf| < size then None else Some(size)
  }

  function Frames(buf: seq<byte>): seq<seq<byte>> {
    var f := FrontFrame(buf);
    if f.None? then [] else [buf[..f.value]] + Frames(buf[f.value..])
  }

  /** What no complete frame covers. */
  function Tail(buf: seq<byte>): seq<byte> {
    var f := FrontFrame(buf);
    if f.None? then buf else Tail(buf[f.value..])
  }

  lemma {:induction false} FramesCover(buf: seq<byte>)
    ensures Flatten(Frames(buf)) + Tail(buf) == buf
    ensures FrontFrame(Tail(buf)).None? && (FrontFrame(buf).None? <==> Frames(buf) == [])
    decreases |buf|
  {
    var f := FrontFrame(buf);
    if f.Some? {
      var head, rest := buf[..f.value], buf[f.value..];
      assert head + rest == buf;
      FramesCover(rest);
      FlattenCons(head, Frames(rest));
      ConcatAssoc(head, Flatten(Frames(rest)), Tail(rest));
    }
  }

  lemma FrontStable(buf: seq<byte>, more: seq<byte>)
    requires FrontFrame(buf).Some?
    ensures var n := FrontFrame(buf).value;
      && FrontFrame(buf + more) == Some(n)
      && (buf + more)[..n] == buf[..n] && (buf + more)[n..] == buf[n..] + more
  {
  }

  /** More bytes never change the frames that are already complete. */
  lemma {:induction false} FramesExtend(buf: seq<byte>, more: seq<byte>)
    ensures Frames(buf + more) == Frames(buf) + Frames(Tail(buf) + more)
    ensures Tail(buf + more) == Tail(Tail(buf) + more)
    decreases |buf|
  {
    var f := FrontFrame(buf);
    if f.Some? {
      var rest := buf[f.value..];
      FramesExtend(rest, more);
      FrontStable(buf, more);
      ConcatAssoc([buf[..f.value]], Frames(rest), Frames(Tail(rest) + more));
    }
  }

  /** Well-framed messages sent back to back frame into exactly themselves. */
  lemma {:induction false} FramesOfReplies(replies: seq<seq<byte>>)
    requires forall r :: r in replies ==> WellFramed(r)
    ensures Frames(Flatten(replies)) == replies && Tail(Flatten(replies)) == []
    decreases |replies|
  {
    if replies != [] {
      var first, rest := replies[0], replies[1..];
      assert replies == [first] + rest;
      FlattenCons(first, rest);
      FramesOfReplies(rest);
      var buf := Flatten(replies);
      assert WellFramed(first);
      assert FrontFrame(buf) == Some(|first|);
      assert buf[..|first|] == first && buf[|first|..] == Flatten(rest);
    }
  }

  // ---------------------------------------------------------------- the event handler

  /** `handled` and `replies` record the frames passed to the request handler and its answers. */
  datatype Server<S> = Server(recv: seq<byte>, handled: seq<seq<byte>>, replies: seq<seq<byte>>, device: S)

  /** Memory as the request handler sees it: the receive buffer, and whatever lies behind it. */
  function View(recv: seq<byte>, beyond: Memory): Memory {
    (i: nat) => if i < |recv| then recv[i] else beyond(i)
  }

  function OnRead<S>(d: Device<S>, v: Server<S>, chunk: seq<byte>, beyond: Memory): Server<S> {
    var recv := v.recv + chunk;
    var f := FrontFrame(recv);
    if f.None? then v.(recv := recv) else
    var (reply, device) := Respond(d, v.device, View(recv, beyond), f.value);
    Server(recv[f.value..], v.handled + [recv[..f.value]],
           if reply.Some? then v.replies + [reply.value] else v.replies, device)
  }

  class Connection<S> {
    const handlers: Device<S>
    var recv: seq<byte>
    var handled: seq<seq<byte>>
    var replies: seq<seq<byte>>
    var device: S

    constructor (handlers: Device<S>, device: S)
      ensures this.handlers == handlers && Contents() == Server([], [], [], device)
    {
      this.handlers, this.device := handlers, device;
      recv, handled, replies := [], [], [];
    }

    ghost function Contents(): Server<S>
      reads this
    {
      Server(recv, handled, replies, device)
    }

    /** `modbus_ev_handler` on MG_EV_READ, after the network layer has appended `chunk`. */
    method Read(chunk: seq<byte>, beyond: Memory)
      modifies this
      ensures Contents() == OnRead(handlers, old(Contents()), chunk, beyond)
    {
      recv := recv + chunk;
      if |recv| < 7 { return; }
      var len: nat := Be16(recv[4], recv[5]);
      if |recv| < len + 6 { return; }
      var reply, s := HandlePdu(handlers, device, View(recv, beyond), len + 6);
      device := s;
      handled := handled + [recv[..len + 6]];
      if reply.Some? { replies := replies + [reply.value]; }
      recv := recv[len + 6..];
    }
  }

  /** The server after one READ per chunk, starting with an empty buffer; `beyond(n)` is the memory at the n-th. */
  function Serve<S>(d: Device<S>, device: S, chunks: seq<seq<byte>>, beyond: nat -> Memory): Server<S> {
    if chunks == [] then Server([], [], [], device) else
    OnRead(d, Serve(d, device, chunks[..|chunks| - 1], beyond), chunks[|chunks| - 1], beyond(|chunks|))
  }

  // ---------------------------------------------------------------- what every run keeps

  /** Frames handled so far and the buffer, against the bytes received so far. */
  ghost predicate InStep(handled: seq<seq<byte>>, recv: seq<byte>, received: seq<byte>) {
    && Flatten(handled) + recv == received
    && Frames(received) == handled + Frames(recv)
    && Tail(received) == Tail(recv)
  }

  lemma ChunkInStep(handled: seq<seq<byte>>, recv: seq<byte>, received: seq<byte>, chunk: seq<byte>)
    requires InStep(handled, recv, received)
    ensures InStep(handled, recv + chunk, received + chunk)
  {
    ConcatAssoc(Flatten(handled), recv, chunk);
    calc {
      Frames(received + chunk);
    == { FramesExtend(received, chunk); }
      handled + Frames(recv) + Frames(Tail(recv) + chunk);
    == { ConcatAssoc(handled, Frames(recv), Frames(Tail(recv) + chunk)); }
      handled + (Frames(recv) + Frames(Tail(recv) + chunk));
    == { FramesExtend(recv, chunk); }
      handled + Frames(recv + chunk);
    }
    calc {
      Tail(received + chunk);
    == { FramesExtend(received, chunk); }
      Tail(Tail(recv) + chunk);
    == { FramesExtend(recv, chunk); }
      Tail(recv + chunk);
    }
  }

  lemma FrameInStep(handled: seq<seq<byte>>, recv: seq<byte>, received: seq<byte>, n: nat)
    requires InStep(handled, recv, received) && FrontFrame(recv) == Some(n)
    ensures InStep(handled + [recv[..n]], recv[n..], received)
  {
    FlattenSnoc(handled, recv[..n]);
    ConcatAssoc(handled, [recv[..n]], Frames(recv[n..]));
    ConcatAssoc(Flatten(handled), recv[..n], recv[n..]);
    assert recv[..n] + recv[n..] == recv;
  }

  lemma ReadInStep<S>(d: Device<S>, v: Server<S>, received: seq<byte>, chunk: seq<byte>, beyond: Memory)
    requires InStep(v.handled, v.recv, received)
    ensures var v' := OnRead(d, v, chunk, beyond); InStep(v'.handled, v'.recv, received + chunk)
  {
    ChunkInStep(v.handled, v.recv, received, chunk);
    var f := FrontFrame(v.recv + chunk);
    if f.Some? {
      FrameInStep(v.handled, v.recv + chunk, received + chunk, f.value);
    }
  }

  lemma {:induction false} ServeInStep<S>(d: Device<S>, device: S, chunks: seq<seq<byte>>, beyond: nat -> Memory)
    ensures var v := Serve(d, device, chunks, beyond); InStep(v.handled, v.recv, Flatten(chunks))
    decreases |chunks|
  {
    if chunks != [] {
      var front := chunks[..|chunks| - 1];
      ServeInStep(d, device, front, beyond);
      ReadInStep(d, Serve(d, device, front, beyond), Flatten(front), chunks[|chunks| - 1], beyond(|chunks|));
    }
  }

  /**
   For every chunking nothing is lost or reordered, and the handled frames are a prefix of the canonical
   framing of the whole stream.
   */
  lemma HandledInOrder<S>(d: Device<S>, device: S, chunks: seq<seq<byte>>, beyond: nat -> Memory)
    ensures var v := Serve(d, device, chunks, beyond); var stream := Flatten(chunks);
      && Flatten(v.handled) + v.recv == stream
      && v.handled <= Frames(stream)
  {
    ServeInStep(d, device, chunks, beyond);
  }

  /** The handled frames that are long enough to be answered. */
  function LongFrames(frames: seq<seq<byte>>): seq<seq<byte>> {
    if frames == [] then [] else
    var last := frames[|frames| - 1];
    LongFrames(frames[..|frames| - 1]) + if |last| >= 12 then [last] else []
  }

  /** A reply to this very request: transaction, protocol and unit are the request's, and so is the function. */
  predicate Answers(reply: seq<byte>, request: seq<byte>) {
    && |reply| >= 9 && |request| >= 12
    && reply[..4] == request[..4] && reply[6] == request[6]
    && (reply[7] == request[7] || reply[7] == WithExceptionBit(request[7]))
  }

  predicate AnswersEach(replies: seq<seq<byte>>, requests: seq<seq<byte>>) {
    |replies| == |requests| && forall k :: 0 <= k < |replies| ==> Answers(replies[k], requests[k])
  }

  lemma ReplyAnswers<S>(d: Device<S>, s: S, buf: seq<byte>, n: nat, beyond: Memory)
    requires n <= |buf|
    ensures var r := Respond(d, s, View(buf, beyond), n).0;
      (r.Some? <==> n >= 12) && (r.Some? ==> Answers(r.value, buf[..n]))
  {
    var mem := View(buf, beyond);
    ReplyShape(d, s, mem, n);
    if n >= 12 {
      var r := Respond(d, s, mem, n).0.value;
      assert r[7] == r[7..][0];
      assert forall i :: 0 <= i < 12 ==> mem(i) == buf[..n][i];
    }
  }

  lemma AnswersSnoc(replies: seq<seq<byte>>, handled: seq<seq<byte>>, reply: Option<seq<byte>>, frame: seq<byte>)
    requires AnswersEach(replies, LongFrames(handled))
    requires (reply.Some? <==> |frame| >= 12) && (reply.Some? ==> Answers(reply.value, frame))
    ensures AnswersEach(if reply.Some? then replies + [reply.value] else replies, LongFrames(handled + [frame]))
  {
    assert (handled + [frame])[..|handled|] == handled;
  }

  /** One READ keeps replies and answerable frames in step. */
  lemma ReadAnswersEach<S>(d: Device<S>, v: Server<S>, chunk: seq<byte>, beyond: Memory)
    requires AnswersEach(v.replies, LongFrames(v.handled))
    ensures var v' := OnRead(d, v, chunk, beyond); AnswersEach(v'.replies, LongFrames(v'.handled))
  {
    var buf := v.recv + chunk;
    var f := FrontFrame(buf);
    if f.Some? {
      var reply := Respond(d, v.device, View(buf, beyond), f.value).0;
      ReplyAnswers(d, v.device, buf, f.value, beyond);
      AnswersSnoc(v.replies, v.handled, reply, buf[..f.value]);
    }
  }

  /**
   In every run, whatever the frames hold, the k-th reply answers the k-th handled frame of 12 bytes or more:
   none is skipped, repeated or answered out of turn.
   */
  lemma {:induction false} RepliesInTurn<S>(d: Device<S>, device: S, chunks: seq<seq<byte>>, beyond: nat -> Memory)
    ensures var v := Serve(d, device, chunks, beyond); AnswersEach(v.replies, LongFrames(v.handled))
    decreases |chunks|
  {
    if chunks != [] {
      var front, last := chunks[..|chunks| - 1], chunks[|chunks| - 1];
      RepliesInTurn(d, device, front, beyond);
      ReadAnswersEach(d, Serve(d, device, front, beyond), last, beyond(|chunks|));
    }
  }

  /** In every run the bytes sent back frame into exactly the replies, one per handled frame of 12 bytes or more. */
  lemma {:induction false} RepliesReframe<S>(d: Device<S>, device: S, chunks: seq<seq<byte>>, beyond: nat -> Memory)
    ensures var v := Serve(d, device, chunks, beyond);
      && (forall r :: r in v.replies ==> WellFramed(r) && 9 <= |r| <= 259)
      && Frames(Flatten(v.replies)) == v.replies && Tail(Flatten(v.replies)) == []
      && |v.replies| == |LongFrames(v.handled)|
    decreases |chunks|
  {
    var v := Serve(d, device, chunks, beyond);
    if chunks != [] {
      var front, last := chunks[..|chunks| - 1], chunks[|chunks| - 1];
      RepliesReframe(d, device, front, beyond);
      var v0 := Serve(d, device, front, beyond);
      var buf := v0.recv + last;
      var f := FrontFrame(buf);
      if f.Some? {
        ReplyShape(d, v0.device, View(buf, beyond(|chunks|)), f.value);
      }
    }
    RepliesInTurn(d, device, chunks, beyond);
    FramesOfReplies(v.replies);
  }

  // ---------------------------------------------------------------- the chunking does not matter

  /** A frame on its own, with zeros behind it. */
  function Alone(frame: seq<byte>): Memory {
    View(frame, (i: nat) => 0)
  }

  /** Answering frames one by one, with no network in between. */
  function Answer<S>(d: Device<S>, device: S, frames: seq<seq<byte>>): (seq<seq<byte>>, S) {
    if frames == [] then ([], device) else
    var (replies, s) := Answer(d, device, frames[..|frames| - 1]);
    var frame := frames[|frames| - 1];
    var (reply, s') := Respond(d, s, Alone(frame), |frame|);
    (if reply.Some? then replies + [reply.value] else replies, s')
  }

  ghost predicate AllSelfContained(frames: seq<seq<byte>>) {
    forall f :: f in frames ==> SelfContained(Alone(f), |f|)
  }

  lemma AnswerSnoc<S>(d: Device<S>, device: S, frames: seq<seq<byte>>, frame: seq<byte>)
    ensures var (replies, s) := Answer(d, device, frames);
      var (reply, s') := Respond(d, s, Alone(frame), |frame|);
      Answer(d, device, frames + [frame]) == (if reply.Some? then replies + [reply.value] else replies, s')
  {
    assert (frames + [frame])[..|frames|] == frames;
  }

  /** A frame at the front of the buffer is answered like the frame alone. */
  lemma FrontAlone<S>(d: Device<S>, s: S, buf: seq<byte>, n: nat, beyond: Memory)
    requires n <= |buf| && SelfContained(Alone(buf[..n]), n)
    ensures Respond(d, s, View(buf, beyond), n) == Respond(d, s, Alone(buf[..n]), n)
  {
    assert Agree(Alone(buf[..n]), View(buf, beyond), n);
    RespondAgree(d, s, Alone(buf[..n]), View(buf, beyond), n);
  }

  lemma ReadAnswers<S>(d: Device<S>, device: S, v: Server<S>, chunk: seq<byte>, beyond: Memory)
    requires (v.replies, v.device) == Answer(d, device, v.handled)
    requires AllSelfContained(OnRead(d, v, chunk, beyond).handled)
    ensures var v' := OnRead(d, v, chunk, beyond); (v'.replies, v'.device) == Answer(d, device, v'.handled)
  {
    var buf := v.recv + chunk;
    var f := FrontFrame(buf);
    if f.Some? {
      var frame := buf[..f.value];
      assert OnRead(d, v, chunk, beyond).handled[|v.handled|] == frame;
      FrontAlone(d, v.device, buf, f.value, beyond);
      AnswerSnoc(d, device, v.handled, frame);
    }
  }

  lemma ReadAppends<S>(d: Device<S>, v: Server<S>, chunk: seq<byte>, beyond: Memory)
    ensures v.handled <= OnRead(d, v, chunk, beyond).handled
  {
  }

  lemma PrefixSelfContained(a: seq<seq<byte>>, b: seq<seq<byte>>)
    requires a <= b && AllSelfContained(b)
    ensures AllSelfContained(a)
  {
    forall f | f in a ensures SelfContained(Alone(f), |f|) {
      var i :| 0 <= i < |a| && a[i] == f;
      assert b[i] == f;
    }
  }

  lemma {:induction false} ServeAnswers<S>(d: Device<S>, device: S, chunks: seq<seq<byte>>, beyond: nat -> Memory)
    requires AllSelfContained(Serve(d, device, chunks, beyond).handled)
    ensures var v := Serve(d, device, chunks, beyond); (v.replies, v.device) == Answer(d, device, v.handled)
    decreases |chunks|
  {
    if chunks != [] {
      var front, last := chunks[..|chunks| - 1], chunks[|chunks| - 1];
      var v0 := Serve(d, device, front, beyond);
      ReadAppends(d, v0, last, beyond(|chunks|));
      PrefixSelfContained(v0.handled, Serve(d, device, chunks, beyond).handled);
      ServeAnswers(d, device, front, beyond);
      ReadAnswers(d, device, v0, last, beyond(|chunks|));
    }
  }

  /**
   Over every chunking, and whatever memory lies behind the buffer, the replies and the device are those of
   answering the first frames of the stream one by one, provided each handled frame holds the data it announces.
   */
  lemma AnswersFollowFrames<S>(d: Device<S>, device: S, chunks: seq<seq<byte>>, beyond: nat -> Memory)
    requires AllSelfContained(Serve(d, device, chunks, beyond).handled)
    ensures var v := Serve(d, device, chunks, beyond);
      v.handled <= Frames(Flatten(chunks)) && (v.replies, v.device) == Answer(d, device, v.handled)
  {
    HandledInOrder(d, device, chunks, beyond);
    ServeAnswers(d, device, chunks, beyond);
  }

  lemma SamePrefix<T>(a: seq<T>, b: seq<T>, c: seq<T>)
    requires a <= c && b <= c && |a| == |b|
    ensures a == b
  {
    assert a == c[..|a|];
  }

  lemma SameRest<T>(front: seq<T>, a: seq<T>, b: seq<T>)
    requires front + a == front + b
    ensures a == b
  {
    assert a == (front + a)[|front|..];
  }

  /** Two ways of cutting the same stream that got equally far gave the same replies and left the same device. */
  lemma ChunkingIrrelevant<S>(d: Device<S>, device: S, a: seq<seq<byte>>, b: seq<seq<byte>>, ma: nat -> Memory, mb: nat -> Memory)
    requires Flatten(a) == Flatten(b) && AllSelfContained(Serve(d, device, a, ma).handled)
    requires |Serve(d, device, a, ma).handled| == |Serve(d, device, b, mb).handled|
    ensures Serve(d, device, a, ma) == Serve(d, device, b, mb)
  {
    var va, vb := Serve(d, device, a, ma), Serve(d, device, b, mb);
    HandledInOrder(d, device, a, ma);
    HandledInOrder(d, device, b, mb);
    SamePrefix(va.handled, vb.handled, Frames(Flatten(a)));
    AnswersFollowFrames(d, device, a, ma);
    AnswersFollowFrames(d, device, b, mb);
    SameRest(Flatten(va.handled), va.recv, vb.recv);
  }

  /** A complete twelve-byte request to write one register, such as 0 0 0 0 0 6 0 16 0 0 0 1: it brings no value. */
  predicate ShortWrite(request: seq<byte>) {
    |request| == 12 && WellFramed(request) && request[7] == 16 && Be16(request[10], request[11]) == 1
  }

  lemma ServeOne<S>(d: Device<S>, device: S, chunk: seq<byte>, beyond: nat -> Memory)
    ensures Serve(d, device, [chunk], beyond) == OnRead(d, Server([], [], [], device), chunk, beyond(1))
  {
    var none: seq<seq<byte>> := [];
    assert [chunk][..0] == none;
    assert Serve(d, device, none, beyond) == Server([], [], [], device);
  }

  lemma ServeMore<S>(d: Device<S>, device: S, chunks: seq<seq<byte>>, chunk: seq<byte>, beyond: nat -> Memory)
    ensures Serve(d, device, chunks + [chunk], beyond) == OnRead(d, Serve(d, device, chunks, beyond), chunk, beyond(|chunks| + 1))
  {
    assert (chunks + [chunk])[..|chunks|] == chunks;
  }

  /** The first READ of a connection, when it brings a whole frame. */
  lemma FirstRead<S>(d: Device<S>, device: S, frame: seq<byte>, more: seq<byte>, beyond: Memory)
    requires FrontFrame(frame) == Some(|frame|)
    ensures var v := OnRead(d, Server([], [], [], device), frame + more, beyond);
      && v.handled == [frame] && v.recv == more
      && v.device == Respond(d, device, View(frame + more, beyond), |frame|).1
  {
    var none: seq<byte> := [];
    assert none + (frame + more) == frame + more;
    FrontStable(frame, more);
    assert frame[..|frame|] == frame && frame[|frame|..] + more == more;
  }

  /** A second READ too short to hold a frame changes the buffer only. */
  lemma QuietRead<S>(d: Device<S>, device: S, first: seq<byte>, more: seq<byte>, beyond: nat -> Memory)
    requires |more| < 7 && OnRead(d, Server([], [], [], device), first, beyond(1)).recv == []
    ensures Serve(d, device, [first, more], beyond) == OnRead(d, Server([], [], [], device), first, beyond(1)).(recv := more)
  {
    ServeOne(d, device, first, beyond);
    ServeMore(d, device, [first], more, beyond);
    assert [first] + [more] == [first, more];
    var none: seq<byte> := [];
    assert none + more == more;
  }

  /** The request with `more` behind it in the same segment stores the word that starts at the second byte behind it. */
  lemma ShortWriteServed(request: seq<byte>, more: seq<byte>, beyond: Memory)
    requires ShortWrite(request)
    ensures var v := OnRead(Recorder(), Server([], [], [], []), request + more, beyond);
      v.handled == [request] && v.recv == more && v.device == [WordAt(View(request + more, beyond), 13)]
  {
    FirstRead(Recorder(), [], request, more, beyond);
    ShortWriteReadsOn(View(request + more, beyond));
  }

  lemma ShortWriteAlone(request: seq<byte>, beyond: Memory)
    requires ShortWrite(request) && beyond(13) == 0 == beyond(14)
    ensures var v := OnRead(Recorder(), Server([], [], [], []), request, beyond);
      v.handled == [request] && v.recv == [] && v.device == [0]
  {
    assert request + [] == request;
    ShortWriteServed(request, [], beyond);
  }

  lemma ServedTogether(request: seq<byte>, more: seq<byte>, beyond: nat -> Memory)
    requires ShortWrite(request) && |more| == 3
    ensures var v := Serve(Recorder(), [], [request + more], beyond);
      v.handled == [request] && v.device == [Be16(more[1], more[2])]
  {
    ServeOne(Recorder(), [], request + more, beyond);
    ShortWriteServed(request, more, beyond(1));
  }

  lemma ServedApart(request: seq<byte>, more: seq<byte>, beyond: nat -> Memory)
    requires ShortWrite(request) && |more| == 3 && beyond(1)(13) == 0 == beyond(1)(14)
    ensures var v := Serve(Recorder(), [], [request, more], beyond); v.handled == [request] && v.device == [0]
  {
    ShortWriteAlone(request, beyond(1));
    QuietRead(Recorder(), [], request, more, beyond);
  }

  lemma FlattenPair<T>(a: seq<T>, b: seq<T>)
    ensures Flatten([a + b]) == a + b == Flatten([a, b])
  {
    FlattenCons(a + b, []);
    assert [a + b] + [] == [a + b];
    FlattenSnoc([a], b);
    FlattenCons(a, []);
    assert [a] + [b] == [a, b] && [a] + [] == [a];
  }

  /** A frame that lacks its data: two ways of cutting one stream store different values in the register. */
  lemma ChunkingMatters(request: seq<byte>, more: seq<byte>, beyond: nat -> Memory)
    requires ShortWrite(request) && |more| == 3 && beyond(1)(13) == 0 == beyond(1)(14)
    ensures var one, two := [request + more], [request, more];
      var v1, v2 := Serve(Recorder(), [], one, beyond), Serve(Recorder(), [], two, beyond);
      && Flatten(one) == Flatten(two) && v1.handled == v2.handled == [request]
      && v1.device == [Be16(more[1], more[2])] && v2.device == [0]
  {
    FlattenPair(request, more);
    ServedTogether(request, more, beyond);
    ServedApart(request, more, beyond);
  }

  // ---------------------------------------------------------------- one frame per READ

  /** How many frames are complete after the first `j` chunks. */
  function Complete(chunks: seq<seq<byte>>, j: nat): nat
    requires j <= |chunks|
  {
    |Frames(Flatten(chunks[..j]))|
  }

  /** No run of final READ events completes more frames than there are events in it. */
  ghost predicate Paced(chunks: seq<seq<byte>>) {
    forall j :: 0 <= j <= |chunks| ==> Complete(chunks, |chunks|) - Complete(chunks, j) <= |chunks| - j
  }

  function HandledSoFar<S>(d: Device<S>, device: S, chunks: seq<seq<byte>>, beyond: nat -> Memory): nat {
    |Serve(d, device, chunks, beyond).handled|
  }

  /** A READ handles one frame more, unless all complete frames are handled. */
  lemma HandledStep<S>(d: Device<S>, device: S, chunks: seq<seq<byte>>, beyond: nat -> Memory)
    requires chunks != []
    ensures var all := |Frames(Flatten(chunks))|;
      var before := HandledSoFar(d, device, chunks[..|chunks| - 1], beyond);
      && before <= all
      && HandledSoFar(d, device, chunks, beyond) == if before < all then before + 1 else before
  {
    var front, last := chunks[..|chunks| - 1], chunks[|chunks| - 1];
    var v0 := Serve(d, device, front, beyond);
    ServeInStep(d, device, front, beyond);
    ChunkInStep(v0.handled, v0.recv, Flatten(front), last);
    FramesCover(v0.recv + last);
  }

  lemma CompleteFront(chunks: seq<seq<byte>>, i: nat)
    requires i < |chunks|
    ensures Complete(chunks, i) == Complete(chunks[..|chunks| - 1], i)
  {
    assert chunks[..i] == chunks[..|chunks| - 1][..i];
  }

  /** `h` is the least, over all moments, of the frames complete then plus the READs since, and `j` is such a moment. */
  ghost predicate Least(chunks: seq<seq<byte>>, h: nat, j: nat) {
    && (forall i :: 0 <= i <= |chunks| ==> h <= Complete(chunks, i) + |chunks| - i)
    && j <= |chunks| && h == Complete(chunks, j) + |chunks| - j
  }

  lemma LeastStep(chunks: seq<seq<byte>>, before: nat, j: nat) returns (j': nat)
    requires chunks != [] && Least(chunks[..|chunks| - 1], before, j) && before <= Complete(chunks, |chunks|)
    ensures Least(chunks, if before < Complete(chunks, |chunks|) then before + 1 else before, j')
  {
    var n := |chunks|;
    forall i | 0 <= i < n ensures Complete(chunks, i) == Complete(chunks[..n - 1], i) {
      CompleteFront(chunks, i);
    }
    j' := if before == Complete(chunks, n) then n else j;
  }

  /** The count of handled frames is the least, over all moments, of the frames complete then plus the READs since. */
  lemma {:induction false} HandledCount<S>(d: Device<S>, device: S, chunks: seq<seq<byte>>, beyond: nat -> Memory) returns (j: nat)
    ensures Least(chunks, HandledSoFar(d, device, chunks, beyond), j)
    decreases |chunks|
  {
    var n := |chunks|;
    assert chunks[..n] == chunks;
    if n == 0 {
      j := 0;
    } else {
      var front := chunks[..n - 1];
      j := HandledCount(d, device, front, beyond);
      HandledStep(d, device, chunks, beyond);
      j := LeastStep(chunks, HandledSoFar(d, device, front, beyond), j);
    }
  }

  /** Every complete frame has been handled exactly when the sender was paced; otherwise frames stay buffered. */
  lemma NoBacklogIffPaced<S>(d: Device<S>, device: S, chunks: seq<seq<byte>>, beyond: nat -> Memory)
    ensures FrontFrame(Serve(d, device, chunks, beyond).recv).None? <==> Paced(chunks)
  {
    var v := Serve(d, device, chunks, beyond);
    assert chunks[..|chunks|] == chunks;
    ServeInStep(d, device, chunks, beyond);
    FramesCover(v.recv);
    var j := HandledCount(d, device, chunks, beyond);
    assert Complete(chunks, |chunks|) == |v.handled| + |Frames(v.recv)|;
  }

  /** Two requests in one segment: the second stays in the buffer. */
  lemma PipelinedRequestWaits<S>(d: Device<S>, device: S, request: seq<byte>, beyond: nat -> Memory)
    requires WellFramed(request)
    ensures Serve(d, device, [request + request], beyond).handled == [request]
    ensures Serve(d, device, [request + request], beyond).recv == request
  {
    var buf := request + request;
    var none: seq<seq<byte>> := [];
    assert [buf][..0] == none;
    assert FrontFrame(buf) == Some(|request|);
    assert buf[..|request|] == request && buf[|request|..] == request;
    assert Serve(d, device, none, beyond) == Server([], [], [], device);
    assert [buf][|[buf]| - 1] == buf && [buf][..|[buf]| - 1] == none;
    var empty: seq<byte> := [];
    assert empty + buf == buf;
  }

  /** A frame of length zero waits for a seventh byte; then it is taken off the buffer and not answered. */
  lemma ZeroLengthWaits<S>(d: Device<S>, device: S, head: seq<byte>, b: byte, beyond: nat -> Memory)
    requires |head| == 6 && head[4] == 0 == head[5]
    ensures Serve(d, device, [head], beyond) == Server(head, [], [], device)
    ensures Serve(d, device, [head + [b]], beyond) == Server([b], [head], [], device)
  {
    ServeOne(d, device, head, beyond);
    ServeOne(d, device, head + [b], beyond);
    var none: seq<byte> := [];
    assert none + head == head && none + (head + [b]) == head + [b];
    assert (head + [b])[..6] == head && (head + [b])[6..] == [b];
  }
}
