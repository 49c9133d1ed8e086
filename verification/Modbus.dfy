/**
 The Modbus/TCP request handler. The register handlers supplied by the firmware are an arbitrary pair of
 state transformers; the request is read from memory `mem`, of which the frame is the first `len` bytes
 (function 16 takes its register values from position 13 on and does not consult the byte count).
 */
module Modbus {
  import opened Bytes

  type word = w: int | 0 <= w < 0x10000

  const RESPONSE_CAPACITY: nat := 260
  const SERVER_DEVICE_FAILURE: byte := 4

  /** `read_reg_fn` and `write_reg_fn` over any device state. */
  datatype Device<!S> = Device(read: (S, word) -> (Option<word>, S), write: (S, word, word) -> (bool, S))

  type Memory = nat -> byte

  function Be16(hi: byte, lo: byte): word {
    256 * hi + lo
  }

  function Hi(w: word): byte { w / 256 }

  function Lo(w: word): byte { w % 256 }

  function WordAt(mem: Memory, i: nat): word {
    Be16(mem(i), mem(i + 1))
  }

  /** Register addresses are 16-bit sums. */
  function Addr(start: word, i: nat): word {
    (start + i) % 0x10000
  }

  function WithExceptionBit(func: byte): byte {
    if func < 128 then func + 128 else func
  }

  // ---------------------------------------------------------------- specification

  /** Write `n` registers with the words at `at`, stopping at the first refusal. */
  function WriteMany<S>(d: Device<S>, s: S, start: word, mem: Memory, at: nat, n: nat): (bool, S)
    decreases n
  {
    if n == 0 then (true, s) else
    var (ok, s1) := d.write(s, start, WordAt(mem, at));
    if !ok then (false, s1) else WriteMany(d, s1, Addr(start, 1), mem, at + 2, n - 1)
  }

  /** Read `n` registers, appending them big-endian to `acc`, stopping at the first refusal. */
  function ReadMany<S>(d: Device<S>, s: S, start: word, n: nat, acc: seq<byte>): (Option<seq<byte>>, S)
    decreases n
  {
    if n == 0 then (Some(acc), s) else
    var (v, s1) := d.read(s, start);
    if v.None? then (None, s1) else ReadMany(d, s1, Addr(start, 1), n - 1, acc + [Hi(v.value), Lo(v.value)])
  }

  /** A reply: the request's header with a new length field, function code and body. */
  function Reply(mem: Memory, func: byte, body: seq<byte>): seq<byte>
    requires |body| + 2 < 0x10000
  {
    [mem(0), mem(1), mem(2), mem(3), Hi(|body| + 2), Lo(|body| + 2), mem(6), func] + body
  }

  function Echo(start: word, num: word): seq<byte> {
    [Hi(start), Lo(start), Hi(num), Lo(num)]
  }

  /** Function 6. */
  function ExecuteWriteOne<S>(d: Device<S>, s: S, start: word, value: word): (Option<seq<byte>>, S) {
    var (ok, s1) := d.write(s, start, value);
    (if ok then Some(Echo(start, value)) else None, s1)
  }

  /** Function 16. */
  function ExecuteWrite<S>(d: Device<S>, s: S, mem: Memory, start: word, num: word): (Option<seq<byte>>, S) {
    if 2 * num + 10 >= RESPONSE_CAPACITY then (None, s) else
    var (ok, s1) := WriteMany(d, s, start, mem, 13, num);
    (if ok && num > 0 then Some(Echo(start, num)) else None, s1)
  }

  /** Functions 3 and 4. */
  function ExecuteRead<S>(d: Device<S>, s: S, start: word, num: word): (Option<seq<byte>>, S) {
    if 2 * num + 9 >= RESPONSE_CAPACITY then (None, s) else
    var (data, s1) := ReadMany(d, s, start, num, []);
    (if data.Some? && num > 0 then Some([2 * num as byte] + data.value) else None, s1)
  }

  /** The outcome of one request: the body of the success reply, or a failure. */
  function Execute<S>(d: Device<S>, s: S, mem: Memory): (Option<seq<byte>>, S) {
    var func, start, arg := mem(7), WordAt(mem, 8), WordAt(mem, 10);
    if func == 6 then ExecuteWriteOne(d, s, start, arg)
    else if func == 16 then ExecuteWrite(d, s, mem, start, arg)
    else if func == 3 || func == 4 then ExecuteRead(d, s, start, arg)
    else (None, s)
  }

  lemma {:induction false} ReadManySize<S>(d: Device<S>, s: S, start: word, n: nat, acc: seq<byte>)
    ensures var r := ReadMany(d, s, start, n, acc).0; r.Some? ==> |r.value| == |acc| + 2 * n
    decreases n
  {
    if n > 0 {
      var (v, s1) := d.read(s, start);
      if v.Some? {
        ReadManySize(d, s1, Addr(start, 1), n - 1, acc + [Hi(v.value), Lo(v.value)]);
      }
    }
  }

  lemma ExecuteSize<S>(d: Device<S>, s: S, mem: Memory)
    ensures var r := Execute(d, s, mem).0; r.Some? ==> 3 <= |r.value| <= 251 && mem(7) < 128
  {
    ReadManySize(d, s, WordAt(mem, 8), WordAt(mem, 10), []);
  }

  /** The reply for a success body, or the exception reply. */
  function Answered(mem: Memory, body: Option<seq<byte>>): seq<byte>
    requires body.Some? ==> |body.value| <= 251
  {
    if body.Some? then Reply(mem, mem(7), body.value)
    else Reply(mem, WithExceptionBit(mem(7)), [SERVER_DEVICE_FAILURE])
  }

  function Respond<S>(d: Device<S>, s: S, mem: Memory, len: nat): (Option<seq<byte>>, S) {
    if len < 12 then (None, s) else
    ExecuteSize(d, s, mem);
    var (body, s1) := Execute(d, s, mem);
    (Some(Answered(mem, body)), s1)
  }

  // ---------------------------------------------------------------- the C code, in place

  method PutWord(a: array<byte>, i: nat, w: word)
    requires i + 1 < a.Length
    modifies a
    ensures a[..] == old(a[..])[i := Hi(w)][i + 1 := Lo(w)]
  {
    a[i], a[i + 1] := Hi(w), Lo(w);
  }

  lemma AddrNext(start: word, i: nat)
    ensures Addr(Addr(start, i), 1) == Addr(start, i + 1) && Addr(start, 0) == start
  {
  }

  /** The loop of function 16. */
  method WriteRegisters<S>(d: Device<S>, s0: S, start: word, mem: Memory, num: word) returns (success: bool, s: S)
    ensures var r := WriteMany(d, s0, start, mem, 13, num); success == (r.0 && num > 0) && s == r.1
  {
    s, success := s0, false;
    var i := 0;
    AddrNext(start, 0);
    while i < num
      invariant i <= num && (i > 0 ==> success) && (i == 0 ==> !success)
      invariant WriteMany(d, s0, start, mem, 13, num) == WriteMany(d, s, Addr(start, i), mem, 13 + 2 * i, num - i)
    {
      var (ok, s1) := d.write(s, Addr(start, i), WordAt(mem, 13 + 2 * i));
      success, s := ok, s1;
      if !success { return; }
      AddrNext(start, i);
      i := i + 1;
    }
  }

  /** The loop of functions 3 and 4: values go into the response from position 9 on. */
  method ReadRegisters<S>(d: Device<S>, s0: S, start: word, num: word, response: array<byte>) returns (success: bool, s: S)
    requires response.Length == RESPONSE_CAPACITY && 2 * num + 9 < RESPONSE_CAPACITY
    modifies response
    ensures response[..9] == old(response[..9])
    ensures var r := ReadMany(d, s0, start, num, []);
      && s == r.1 && success == (r.0.Some? && num > 0)
      && (success ==> response[9..9 + 2 * num] == r.0.value)
  {
    s, success := s0, false;
    var i := 0;
    AddrNext(start, 0);
    assert response[9..9] == [];
    while i < num
      invariant i <= num && (i > 0 ==> success) && (i == 0 ==> !success)
      invariant response[..9] == old(response[..9])
      invariant ReadMany(d, s0, start, num, []) == ReadMany(d, s, Addr(start, i), num - i, response[9..9 + 2 * i])
    {
      var (v, s1) := d.read(s, Addr(start, i));
      success, s := v.Some?, s1;
      if !success { return; }
      ghost var before := response[9..9 + 2 * i];
      PutWord(response, 9 + 2 * i, v.value);
      assert response[9..9 + 2 * (i + 1)] == before + [Hi(v.value), Lo(v.value)];
      AddrNext(start, i);
      i := i + 1;
    }
  }

  method PutEcho(response: array<byte>, start: word, num: word)
    requires response.Length == RESPONSE_CAPACITY
    modifies response
    ensures response[..8] == old(response[..8]) && response[8..12] == Echo(start, num)
  {
    PutWord(response, 8, start);
    PutWord(response, 10, num);
    assert forall i :: 0 <= i < 8 ==> response[..][i] == old(response[..])[i];
  }

  method PutCount(response: array<byte>, count: byte)
    requires response.Length == RESPONSE_CAPACITY && 9 + count <= RESPONSE_CAPACITY
    modifies response
    ensures response[..8] == old(response[..9])[..8]
    ensures response[8..9 + count as int] == [count] + old(response[9..9 + count as int])
  {
    response[8] := count;
  }

  /** Executes the request and builds the body of the success reply behind the copied header. */
  method FillResponse<S>(d: Device<S>, s0: S, mem: Memory, response: array<byte>)
    returns (success: bool, responseLen: nat, s: S)
    requires response.Length == RESPONSE_CAPACITY
    modifies response
    ensures response[..8] == old(response[..8])
    ensures var (body, s1) := Execute(d, s0, mem);
      && s == s1 && success == body.Some?
      && (success ==> responseLen == 8 + |body.value| <= RESPONSE_CAPACITY && response[8..responseLen] == body.value)
  {
    s, success, responseLen := s0, false, 0;
    var func, start, num := mem(7), WordAt(mem, 8), WordAt(mem, 10);
    if func == 6 || (func == 16 && 2 * num + 10 < RESPONSE_CAPACITY) {
      if func == 6 {
        var (ok, s1) := d.write(s, start, num);
        success, s := ok, s1;
      } else {
        success, s := WriteRegisters(d, s, start, mem, num);
      }
      PutEcho(response, start, num);
      responseLen := 12;
    } else if (func == 3 || func == 4) && 2 * num + 9 < RESPONSE_CAPACITY {
      success, s := ReadRegisters(d, s, start, num, response);
      ghost var data := response[9..9 + 2 * num];
      PutCount(response, 2 * num);  // at most 250: the cast to a byte loses nothing
      responseLen := 9 + 2 * num;
    }
  }

  /** Failure replaces the body, then the length field is set. */
  method Finish(ghost mem: Memory, ghost func: byte, response: array<byte>, success: bool, filled: nat) returns (reply: seq<byte>)
    requires response.Length == RESPONSE_CAPACITY && (success ==> 8 <= filled <= RESPONSE_CAPACITY)
    requires response[..8] == [mem(0), mem(1), mem(2), mem(3), mem(4), mem(5), mem(6), func]
    modifies response
    ensures reply == if success then Reply(mem, func, old(response[8..filled]))
                     else Reply(mem, WithExceptionBit(func), [SERVER_DEVICE_FAILURE])
  {
    var responseLen := filled;
    ghost var head := response[..8];
    assert response[7] == head[7];
    if !success {
      responseLen := 9;
      response[7] := WithExceptionBit(response[7]);
      response[8] := SERVER_DEVICE_FAILURE;
    }
    assert forall i :: 0 <= i < 7 ==> response[i] == head[i];
    PutWord(response, 4, responseLen - 6);
    reply := response[..responseLen];
  }

  /** `handle_modbus_pdu`; the reply is what is passed to `mg_send`, if anything. */
  method HandlePdu<S>(d: Device<S>, s0: S, mem: Memory, len: nat) returns (reply: Option<seq<byte>>, s: S)
    ensures (reply, s) == Respond(d, s0, mem, len)
  {
    if len < 12 { return None, s0; }
    var response := new byte[RESPONSE_CAPACITY](i => if 0 <= i < 8 then mem(i) else 0);
    ghost var head := [mem(0), mem(1), mem(2), mem(3), mem(4), mem(5), mem(6), mem(7)];
    assert response[..8] == head;
    var success, responseLen;
    success, responseLen, s := FillResponse(d, s0, mem, response);
    ExecuteSize(d, s0, mem);
    var r := Finish(mem, mem(7), response, success, responseLen);
    reply := Some(r);
  }

  // ---------------------------------------------------------------- every reply is a well-formed frame

  lemma HiLo(w: word)
    ensures Be16(Hi(w), Lo(w)) == w
  {
  }

  /** Under the server's framing rule a frame is as long as its length field says, plus six. */
  predicate WellFramed(r: seq<byte>) {
    |r| >= 7 && 256 * (r[4] as int) + r[5] as int + 6 == |r|
  }

  lemma ReplyFrames(mem: Memory, func: byte, body: seq<byte>)
    requires 1 <= |body| <= 251
    ensures var r := Reply(mem, func, body);
      && 9 <= |r| <= 259 && WellFramed(r) && r[7] == func && r[8..] == body
      && (forall i :: 0 <= i < 4 ==> r[i] == mem(i)) && r[6] == mem(6)
  {
    HiLo(|body| + 2);
  }

  /** What every reply looks like, given the body it was built from. */
  predicate Shaped(mem: Memory, body: Option<seq<byte>>, r: seq<byte>) {
    && 9 <= |r| <= 259 && WellFramed(r)
    && (forall i :: 0 <= i < 4 ==> r[i] == mem(i)) && r[6] == mem(6)
    && r[7..] == if body.Some? then [mem(7)] + body.value else [if mem(7) < 128 then mem(7) + 128 else mem(7), 4]
  }

  lemma AnsweredShape(mem: Memory, body: Option<seq<byte>>)
    requires body.Some? ==> 3 <= |body.value| <= 251
    ensures Shaped(mem, body, Answered(mem, body))
  {
    if body.Some? {
      ReplyFrames(mem, mem(7), body.value);
    } else {
      ReplyFrames(mem, WithExceptionBit(mem(7)), [SERVER_DEVICE_FAILURE]);
    }
  }

  /** Every request of at least 12 bytes is answered, and every answer keeps the header and frames itself. */
  lemma ReplyShape<S>(d: Device<S>, s: S, mem: Memory, len: nat)
    ensures Respond(d, s, mem, len).0.Some? <==> len >= 12
    ensures len >= 12 ==> Shaped(mem, Execute(d, s, mem).0, Respond(d, s, mem, len).0.value)
    ensures Execute(d, s, mem).0.Some? ==> mem(7) < 128
  {
    ExecuteSize(d, s, mem);
    AnsweredShape(mem, Execute(d, s, mem).0);
  }

  // ---------------------------------------------------------------- a request is its frame

  /** Function 16 will read register values; short frames, zero counts and oversized counts read none. */
  predicate ReadsData(mem: Memory, len: nat) {
    len >= 12 && mem(7) == 16 && 0 < WordAt(mem, 10) && 2 * WordAt(mem, 10) + 10 < RESPONSE_CAPACITY
  }

  /** The frame holds everything its function reads. */
  predicate SelfContained(mem: Memory, len: nat) {
    ReadsData(mem, len) ==> 13 + 2 * WordAt(mem, 10) <= len
  }

  predicate Agree(a: Memory, b: Memory, len: nat) {
    forall i :: 0 <= i < len ==> a(i) == b(i)
  }

  lemma {:induction false} WriteManyAgree<S>(d: Device<S>, s: S, start: word, a: Memory, b: Memory, at: nat, n: nat)
    requires Agree(a, b, at + 2 * n)
    ensures WriteMany(d, s, start, a, at, n) == WriteMany(d, s, start, b, at, n)
    decreases n
  {
    if n > 0 {
      assert WordAt(a, at) == WordAt(b, at);
      var r := d.write(s, start, WordAt(a, at));
      if r.0 {
        assert Agree(a, b, at + 2 + 2 * (n - 1));
        WriteManyAgree(d, r.1, Addr(start, 1), a, b, at + 2, n - 1);
      }
    }
  }

  /** The answer to a self-contained request and its effect do not depend on what lies behind the frame. */
  lemma RespondAgree<S>(d: Device<S>, s: S, a: Memory, b: Memory, len: nat)
    requires Agree(a, b, len) && SelfContained(a, len)
    ensures Respond(d, s, a, len) == Respond(d, s, b, len)
  {
    if len >= 12 {
      assert a(7) == b(7) && WordAt(a, 8) == WordAt(b, 8) && WordAt(a, 10) == WordAt(b, 10);
      if ReadsData(a, len) {
        WriteManyAgree(d, s, WordAt(a, 8), a, b, 13, WordAt(a, 10));
      }
      assert Execute(d, s, a) == Execute(d, s, b);
      ExecuteSize(d, s, a);
    }
  }

  /** What lies behind the frame makes no difference to the reply or to the device. */
  ghost predicate IgnoresRest<S(!new)>(d: Device<S>, s: S, mem: Memory, len: nat) {
    forall b: Memory :: Agree(mem, b, len) ==> Respond(d, s, b, len) == Respond(d, s, mem, len)
  }

  /** A device that accepts and records every write. */
  function Recorder(): Device<seq<word>> {
    Device((s: seq<word>, a: word) => (None, s), (s: seq<word>, a: word, v: word) => (true, s + [v]))
  }

  /** The record ends with the last word written. */
  lemma {:induction false} RecordEnds(s: seq<word>, start: word, mem: Memory, at: nat, n: nat)
    requires n > 0
    ensures var r := WriteMany(Recorder(), s, start, mem, at, n).1;
      |r| == |s| + n && r[|r| - 1] == WordAt(mem, at + 2 * (n - 1))
    decreases n
  {
    if n > 1 {
      RecordEnds(s + [WordAt(mem, at)], Addr(start, 1), mem, at + 2, n - 1);
      assert at + 2 + 2 * (n - 1 - 1) == at + 2 * (n - 1);
    }
  }

  /** What a recording device holds after one request. */
  function Record(mem: Memory, len: nat): seq<word> {
    Respond(Recorder(), [], mem, len).1
  }

  lemma RecordedWrite(mem: Memory, len: nat)
    requires ReadsData(mem, len)
    ensures var num, r := WordAt(mem, 10), Record(mem, len);
      |r| == num && r[num - 1] == WordAt(mem, 11 + 2 * num)
  {
    var num := WordAt(mem, 10);
    RecordEnds([], WordAt(mem, 8), mem, 13, num);
    assert 13 + 2 * (num - 1) == 11 + 2 * num;
    assert Execute(Recorder(), [], mem) == ExecuteWrite(Recorder(), [], mem, WordAt(mem, 8), num);
  }

  /** The memory `mem` with one byte replaced. */
  function Replaced(mem: Memory, at: nat, v: byte): Memory {
    i => if i == at then v else mem(i)
  }

  lemma OtherRest(mem: Memory, len: nat, num: word) returns (b: Memory)
    requires 12 <= len <= 12 + 2 * num
    ensures Agree(mem, b, len) && b(7) == mem(7) && WordAt(b, 10) == WordAt(mem, 10)
    ensures WordAt(b, 11 + 2 * num) != WordAt(mem, 11 + 2 * num)
  {
    var last := 12 + 2 * num;
    b := Replaced(mem, last, if mem(last) == 0 then 1 else 0);
  }

  /** A frame too short for its registers: another last byte behind it is recorded differently. */
  lemma RestMatters(mem: Memory, len: nat)
    requires !SelfContained(mem, len)
    ensures !IgnoresRest(Recorder(), [], mem, len)
  {
    var b := OtherRest(mem, len, WordAt(mem, 10));
    RecordedWrite(mem, len);
    RecordedWrite(b, len);
    assert Respond(Recorder(), [], b, len).1 != Respond(Recorder(), [], mem, len).1;
  }

  /** For every device the frame alone decides the answer, if and only if the request is self-contained. */
  lemma FrameSuffices<S(!new)>(d: Device<S>, s: S, mem: Memory, len: nat)
    ensures SelfContained(mem, len) ==> IgnoresRest(d, s, mem, len)
    ensures IgnoresRest(Recorder(), [], mem, len) ==> SelfContained(mem, len)
  {
    if SelfContained(mem, len) {
      forall b: Memory | Agree(mem, b, len) ensures Respond(d, s, b, len) == Respond(d, s, mem, len) {
        RespondAgree(d, s, mem, b, len);
      }
    } else {
      RestMatters(mem, len);
    }
  }

  /** A request to write one register whose frame ends before the value: whatever lies behind it is stored. */
  lemma ShortWriteReadsOn(mem: Memory)
    requires mem(7) == 16 && WordAt(mem, 10) == 1
    ensures Record(mem, 12) == [WordAt(mem, 13)]
  {
    RecordedWrite(mem, 12);
  }

  // ---------------------------------------------------------------- a register bank

  type Registers = map<word, word>

  /** A bank of existing registers, of which some accept writes. */
  function Bank(writable: set<word>): Device<Registers> {
    Device((s: Registers, a: word) => (if a in s then Some(s[a]) else None, s),
           (s: Registers, a: word, v: word) => if a in s && a in writable then (true, s[a := v]) else (false, s))
  }

  predicate Accepts(s: Registers, writable: set<word>, a: word) {
    a in s && a in writable
  }

  /** The bank after the words at `at` went to `k` consecutive addresses; all other registers are as before. */
  ghost predicate Stored(s: Registers, s': Registers, start: word, mem: Memory, at: nat, k: nat) {
    && s'.Keys == s.Keys
    && (forall i :: 0 <= i < k ==> Addr(start, i) in s' && s'[Addr(start, i)] == WordAt(mem, at + 2 * i))
    && (forall a :: a in s && (forall i :: 0 <= i < k ==> a != Addr(start, i)) ==> s'[a] == s[a])
  }

  lemma AddrShift(start: word, i: nat)
    ensures Addr(Addr(start, 1), i) == Addr(start, i + 1)
  {
  }

  lemma AddrInjective(start: word, i: nat, j: nat)
    requires i < j < 0x10000
    ensures Addr(start, i) != Addr(start, j)
  {
  }

  lemma StartNotRevisited(start: word, k: nat)
    requires 0 < k <= 0x10000
    ensures forall i :: 0 <= i < k - 1 ==> start != Addr(Addr(start, 1), i)
  {
    forall i | 0 <= i < k - 1 ensures start != Addr(Addr(start, 1), i) {
      AddrShift(start, i);
      AddrNext(start, 0);
      AddrInjective(start, 0, i + 1);
    }
  }

  /** Storing one word and then the rest at the following addresses. */
  lemma StoredCons(s: Registers, s': Registers, start: word, mem: Memory, at: nat, k: nat)
    requires 0 < k <= 0x10000 && start in s
    requires Stored(s[start := WordAt(mem, at)], s', Addr(start, 1), mem, at + 2, k - 1)
    ensures Stored(s, s', start, mem, at, k)
  {
    AddrNext(start, 0);
    forall i | 0 <= i < k
      ensures Addr(start, i) in s' && s'[Addr(start, i)] == WordAt(mem, at + 2 * i)
    {
      if i == 0 {
        StartNotRevisited(start, k);
      } else {
        AddrShift(start, i - 1);
        assert at + 2 + 2 * (i - 1) == at + 2 * i;
      }
    }
    forall a | a in s && (forall i :: 0 <= i < k ==> a != Addr(start, i)) ensures s'[a] == s[a] {
      forall i | 0 <= i < k - 1 ensures a != Addr(Addr(start, 1), i) {
        AddrShift(start, i);
      }
      assert a != Addr(start, 0);
    }
  }

  /** The first `k` of `n` consecutive registers accept writes, and the next one, if any, refuses. */
  ghost predicate AcceptsFirst(s: Registers, writable: set<word>, start: word, n: nat, k: nat) {
    && k <= n
    && (forall i :: 0 <= i < k ==> Accepts(s, writable, Addr(start, i)))
    && (k < n ==> !Accepts(s, writable, Addr(start, k)))
  }

  lemma AcceptsTail(s: Registers, v: word, writable: set<word>, start: word, n: nat, k: nat)
    requires AcceptsFirst(s, writable, start, n, k) && n > 0
    ensures Accepts(s, writable, start) <==> k > 0
    ensures k > 0 ==> AcceptsFirst(s[start := v], writable, Addr(start, 1), n - 1, k - 1)
  {
    AddrNext(start, 0);
    if k > 0 {
      assert Accepts(s, writable, Addr(start, 0));
      forall i | 0 <= i < k - 1 ensures Accepts(s[start := v], writable, Addr(Addr(start, 1), i)) {
        AddrShift(start, i);
        assert Accepts(s, writable, Addr(start, i + 1));
      }
      AddrShift(start, k - 1);
    }
  }

  /** One step of the write loop over the bank. */
  lemma WriteManyStep(s: Registers, writable: set<word>, start: word, mem: Memory, at: nat, n: nat)
    requires n > 0
    ensures WriteMany(Bank(writable), s, start, mem, at, n) ==
      if Accepts(s, writable, start) then WriteMany(Bank(writable), s[start := WordAt(mem, at)], Addr(start, 1), mem, at + 2, n - 1)
      else (false, s)
  {
  }

  /** Function 16 stores exactly the registers before the first refusal, and succeeds when there is none. */
  lemma {:induction false} WriteManyStores(s: Registers, writable: set<word>, start: word, mem: Memory, at: nat, n: nat, k: nat)
    requires n <= 0x10000 && AcceptsFirst(s, writable, start, n, k)
    ensures var r := WriteMany(Bank(writable), s, start, mem, at, n);
      (r.0 <==> k == n) && Stored(s, r.1, start, mem, at, k)
    decreases n
  {
    if n > 0 {
      var v := WordAt(mem, at);
      AcceptsTail(s, v, writable, start, n, k);
      WriteManyStep(s, writable, start, mem, at, n);
      if k > 0 {
        WriteManyStores(s[start := v], writable, Addr(start, 1), mem, at + 2, n - 1, k - 1);
        StoredCons(s, WriteMany(Bank(writable), s, start, mem, at, n).1, start, mem, at, k);
      }
    }
  }

  /** Reading a range returns the registers of the range, big-endian and in order. */
  lemma {:induction false} ReadManyReturns(s: Registers, writable: set<word>, start: word, n: nat, acc: seq<byte>)
    requires forall i :: 0 <= i < n ==> Addr(start, i) in s
    ensures var (data, s') := ReadMany(Bank(writable), s, start, n, acc);
      && s' == s && data.Some? && |data.value| == |acc| + 2 * n && data.value[..|acc|] == acc
      && forall i :: 0 <= i < n ==> Be16(data.value[|acc| + 2 * i], data.value[|acc| + 2 * i + 1]) == s[Addr(start, i)]
    decreases n
  {
    AddrNext(start, 0);
    if n > 0 {
      var acc' := acc + [Hi(s[start]), Lo(s[start])];
      assert Addr(start, 0) in s;
      forall i | 0 <= i < n - 1 ensures Addr(Addr(start, 1), i) in s {
        AddrShift(start, i);
      }
      ReadManyReturns(s, writable, Addr(start, 1), n - 1, acc');
      var data := ReadMany(Bank(writable), s, start, n, acc).0.value;
      assert data[..|acc|] == data[..|acc'|][..|acc|];
      forall i | 0 <= i < n
        ensures Be16(data[|acc| + 2 * i], data[|acc| + 2 * i + 1]) == s[Addr(start, i)]
      {
        if i == 0 {
          assert data[|acc|] == data[..|acc'|][|acc|] && data[|acc| + 1] == data[..|acc'|][|acc| + 1];
        } else {
          AddrShift(start, i - 1);
          var k := i - 1;
          assert data[|acc'| + 2 * k] == data[|acc| + 2 * i];
        }
      }
    }
  }

  /** A request's function, start address and third word. */
  predicate Requests(mem: Memory, func: byte, start: word, num: word) {
    && mem(7) == func
    && start == 256 * (mem(8) as int) + mem(9) as int && num == 256 * (mem(10) as int) + mem(11) as int
  }

  /** The body of a reply decides everything from the function code on. */
  lemma RespondTail<S>(d: Device<S>, s: S, mem: Memory, len: nat, body: Option<seq<byte>>, s': S)
    requires len >= 12 && Execute(d, s, mem) == (body, s')
    ensures var r := Respond(d, s, mem, len);
      && r.0.Some? && r.1 == s' && |r.0.value| > 7
      && r.0.value[7..] == if body.Some? then [mem(7)] + body.value else [if mem(7) < 128 then mem(7) + 128 else mem(7), 4]
  {
    ReplyShape(d, s, mem, len);
  }

  /** The echo of a request is bytes 8 to 11 of the request. */
  lemma EchoIs(w: Memory, func: byte, start: word, num: word)
    requires Requests(w, func, start, num)
    ensures [func] + Echo(start, num) == [func, w(8), w(9), w(10), w(11)]
  {
  }

  /** A granted write answers with the start and count and stores every word. */
  lemma GrantedWrite(s: Registers, writable: set<word>, w: Memory, start: word, num: word, len: nat)
    requires 1 <= num <= 124 && len >= 13 + 2 * num && Requests(w, 16, start, num)
    requires AcceptsFirst(s, writable, start, num, num)
    ensures var r := Respond(Bank(writable), s, w, len);
      && r.0.Some? && |r.0.value| > 7 && r.0.value[7..] == [16, w(8), w(9), w(10), w(11)]
      && Stored(s, r.1, start, w, 13, num)
  {
    WriteManyStores(s, writable, start, w, 13, num, num);
    var s1 := WriteMany(Bank(writable), s, start, w, 13, num).1;
    assert ExecuteWrite(Bank(writable), s, w, start, num) == (Some(Echo(start, num)), s1);
    RespondTail(Bank(writable), s, w, len, Some(Echo(start, num)), s1);
    EchoIs(w, 16, start, num);
  }

  lemma Distance(start: word, a: word)
    ensures Addr(start, (a - start) % 0x10000) == a
  {
  }

  lemma StoredAt(s: Registers, s': Registers, start: word, mem: Memory, at: nat, k: nat, a: word)
    requires Stored(s, s', start, mem, at, k) && k <= 0x10000 && a in s
    ensures var i := (a - start) % 0x10000; a in s' && s'[a] == if i < k then WordAt(mem, at + 2 * i) else s[a]
  {
    var i := (a - start) % 0x10000;
    Distance(start, a);
    if i >= k {
      forall j | 0 <= j < k ensures a != Addr(start, j) {
        AddrInjective(start, j, i);
      }
    }
  }

  /** What a granted write of a range leaves in any one register of the bank, counted from the start modulo 65536. */
  lemma RegisterAfterWrite(s: Registers, writable: set<word>, w: Memory, start: word, num: word, len: nat, a: word)
    requires 1 <= num <= 124 && len >= 13 + 2 * num && Requests(w, 16, start, num) && a in s
    requires AcceptsFirst(s, writable, start, num, num)
    ensures var s', i := Respond(Bank(writable), s, w, len).1, (a - start) % 0x10000;
      a in s' && s'[a] == if i < num then 256 * (w(13 + 2 * i) as int) + w(14 + 2 * i) as int else s[a]
  {
    GrantedWrite(s, writable, w, start, num, len);
    StoredAt(s, Respond(Bank(writable), s, w, len).1, start, w, 13, num, a);
  }

  /** The data of a read of existing registers. */
  ghost predicate IsRange(s: Registers, start: word, num: nat, data: seq<byte>) {
    && |data| == 2 * num
    && forall i :: 0 <= i < num ==> Addr(start, i) in s && Be16(data[2 * i], data[2 * i + 1]) == s[Addr(start, i)]
  }

  lemma ReadRange(s: Registers, writable: set<word>, start: word, num: nat) returns (data: seq<byte>)
    requires forall i :: 0 <= i < num ==> Addr(start, i) in s
    ensures ReadMany(Bank(writable), s, start, num, []) == (Some(data), s) && IsRange(s, start, num, data)
  {
    var none: seq<byte> := [];
    ReadManyReturns(s, writable, start, num, none);
    data := ReadMany(Bank(writable), s, start, num, none).0.value;
    forall i | 0 <= i < num ensures Be16(data[2 * i], data[2 * i + 1]) == s[Addr(start, i)] {
      assert data[|none| + 2 * i] == data[2 * i];
    }
  }

  /** A reply whose body is a count byte and data. */
  lemma ReplyData(mem: Memory, func: byte, count: byte, data: seq<byte>)
    requires |data| <= 250
    ensures var r := Reply(mem, func, [count] + data);
      |r| == 9 + |data| && r[7] == func && r[8] == count && forall i :: 0 <= i < |data| ==> r[9 + i] == data[i]
  {
  }

  /** The reply shows the register at `a`, high byte first, from position `at` on. */
  predicate Shows(reply: seq<byte>, at: nat, s: Registers, a: word) {
    at + 1 < |reply| && a in s && s[a] == 256 * (reply[at] as int) + reply[at + 1] as int
  }

  /** The reply to a read: function, byte count and the registers of the range in order. */
  ghost predicate ReadsOut(reply: Option<seq<byte>>, func: byte, s: Registers, start: word, num: word) {
    && reply.Some? && |reply.value| == 9 + 2 * num && reply.value[7] == func && reply.value[8] == 2 * num
    && forall i :: 0 <= i < num ==> Shows(reply.value, 9 + 2 * i, s, Addr(start, i))
  }

  /** A read of existing registers answers with their values and changes nothing. */
  lemma GrantedRead(s: Registers, writable: set<word>, r: Memory, start: word, num: word, len: nat)
    requires 1 <= num <= 125 && len >= 12 && (Requests(r, 3, start, num) || Requests(r, 4, start, num))
    requires forall i :: 0 <= i < num ==> Addr(start, i) in s
    ensures var (reply, s') := Respond(Bank(writable), s, r, len);
      s' == s && ReadsOut(reply, r(7), s, start, num)
  {
    var data := ReadRange(s, writable, start, num);
    assert ExecuteRead(Bank(writable), s, start, num) == (Some([2 * num as byte] + data), s);
    assert Execute(Bank(writable), s, r) == ExecuteRead(Bank(writable), s, start, num);
    var reply := Reply(r, r(7), [2 * num] + data);
    assert Respond(Bank(writable), s, r, len) == (Some(reply), s);
    ReplyData(r, r(7), 2 * num, data);
    forall i | 0 <= i < num ensures Shows(reply, 9 + 2 * i, s, Addr(start, i)) {
      assert reply[9 + 2 * i] == data[2 * i] && reply[9 + (2 * i + 1)] == data[2 * i + 1];
    }
  }

  /**
   Writing up to 124 registers and reading the same range back returns what was written, also when the
   addresses wrap, and touches nothing else.
   */
  lemma WriteThenRead(s: Registers, writable: set<word>, w: Memory, r: Memory, start: word, num: word, wlen: nat, rlen: nat)
    requires 1 <= num <= 124 && wlen >= 13 + 2 * num && rlen >= 12
    requires Requests(w, 16, start, num) && (Requests(r, 3, start, num) || Requests(r, 4, start, num))
    requires AcceptsFirst(s, writable, start, num, num)
    ensures var s1 := Respond(Bank(writable), s, w, wlen).1;
      var (reply, s2) := Respond(Bank(writable), s1, r, rlen);
      && Stored(s, s1, start, w, 13, num) && s2 == s1
      && reply.Some? && |reply.value| == 9 + 2 * num && reply.value[7] == r(7) && reply.value[8] == 2 * num
      && forall i :: 0 <= i < num ==> reply.value[9 + 2 * i] == w(13 + 2 * i) && reply.value[10 + 2 * i] == w(14 + 2 * i)
  {
    GrantedWrite(s, writable, w, start, num, wlen);
    var s1 := Respond(Bank(writable), s, w, wlen).1;
    GrantedRead(s1, writable, r, start, num, rlen);
    var reply := Respond(Bank(writable), s1, r, rlen).0.value;
    forall i | 0 <= i < num
      ensures reply[9 + 2 * i] == w(13 + 2 * i) && reply[10 + 2 * i] == w(14 + 2 * i)
    {
      assert s1[Addr(start, i)] == WordAt(w, 13 + 2 * i);
      assert Shows(reply, 9 + 2 * i, s1, Addr(start, i));
    }
  }

  lemma ShownAt(reply: Option<seq<byte>>, func: byte, s: Registers, start: word, num: word, i: nat)
    requires ReadsOut(reply, func, s, start, num) && i < num
    ensures Shows(reply.value, 9 + 2 * i, s, (start + i) % 0x10000)
  {
    assert Shows(reply.value, 9 + 2 * i, s, Addr(start, i));
  }

  lemma OneShown(reply: Option<seq<byte>>, func: byte, s: Registers, a: word, hi: byte, lo: byte)
    requires ReadsOut(reply, func, s, a, 1) && a in s && s[a] == 256 * (hi as int) + lo as int
    ensures reply.value[7..] == [func, 2, hi, lo]
  {
    ShownAt(reply, func, s, a, 1, 0);
  }

  /** A read shows the register of each address, counted from the start modulo 65536. */
  lemma RegisterShown(s: Registers, writable: set<word>, r: Memory, start: word, num: word, len: nat, i: nat)
    requires 1 <= num <= 125 && len >= 12 && (Requests(r, 3, start, num) || Requests(r, 4, start, num))
    requires i < num && forall i :: 0 <= i < num ==> Addr(start, i) in s
    ensures var (reply, s') := Respond(Bank(writable), s, r, len);
      s' == s && reply.Some? && Shows(reply.value, 9 + 2 * i, s, (start + i) % 0x10000)
  {
    GrantedRead(s, writable, r, start, num, len);
    ShownAt(Respond(Bank(writable), s, r, len).0, r(7), s, start, num, i);
  }

  lemma {:induction false} ReadManyRefused(s: Registers, writable: set<word>, start: word, n: nat, acc: seq<byte>, k: nat)
    requires k < n && Addr(start, k) !in s
    ensures ReadMany(Bank(writable), s, start, n, acc) == (None, s)
    decreases n
  {
    AddrNext(start, 0);
    if start in s {
      AddrShift(start, k - 1);
      ReadManyRefused(s, writable, Addr(start, 1), n - 1, acc + [Hi(s[start]), Lo(s[start])], k - 1);
    }
  }

  /** A read that meets a missing register fails with exception code 4 and changes nothing. */
  lemma RefusedRead(s: Registers, writable: set<word>, r: Memory, start: word, num: word, len: nat, k: nat)
    requires k < num <= 125 && len >= 12 && (Requests(r, 3, start, num) || Requests(r, 4, start, num))
    requires (start + k) % 0x10000 !in s
    ensures var (reply, s') := Respond(Bank(writable), s, r, len);
      s' == s && reply.Some? && |reply.value| > 7 && reply.value[7..] == if r(7) == 3 then [131, 4] else [132, 4]
  {
    ReadManyRefused(s, writable, start, num, [], k);
    assert ExecuteRead(Bank(writable), s, start, num) == (None, s);
    RespondTail(Bank(writable), s, r, len, None, s);
  }

  /** A request for no registers fails with exception code 4 and does not reach the device, whatever it is. */
  lemma ZeroCount<S>(d: Device<S>, s: S, mem: Memory, len: nat, start: word)
    requires len >= 12 && (Requests(mem, 3, start, 0) || Requests(mem, 4, start, 0) || Requests(mem, 16, start, 0))
    ensures var (reply, s') := Respond(d, s, mem, len);
      s' == s && reply.Some? && |reply.value| > 7 && reply.value[7..] == [mem(7) + 128, 4]
  {
    RespondTail(d, s, mem, len, None, s);
  }

  /** Function 6 stores its third word under its second and echoes both, or changes nothing and fails. */
  lemma SingleWrite(s: Registers, writable: set<word>, w: Memory, a: word, value: word, len: nat)
    requires len >= 12 && Requests(w, 6, a, value)
    ensures var (reply, s') := Respond(Bank(writable), s, w, len);
      && reply.Some? && |reply.value| > 7
      && if a in s && a in writable then s' == s[a := value] && reply.value[7..] == [6, w(8), w(9), w(10), w(11)]
         else s' == s && reply.value[7..] == [134, 4]
  {
    var d := Bank(writable);
    if a in s && a in writable {
      assert d.write(s, a, value) == (true, s[a := value]);
      RespondTail(d, s, w, len, Some(Echo(a, value)), s[a := value]);
      EchoIs(w, 6, a, value);
    } else {
      assert d.write(s, a, value) == (false, s);
      RespondTail(d, s, w, len, None, s);
    }
  }

  /** Writing one register and reading it back returns the value written. */
  lemma SingleWriteThenRead(s: Registers, writable: set<word>, w: Memory, r: Memory, a: word, value: word, wlen: nat, rlen: nat)
    requires wlen >= 12 && rlen >= 12 && Requests(w, 6, a, value) && (Requests(r, 3, a, 1) || Requests(r, 4, a, 1))
    requires a in s && a in writable
    ensures var s1 := Respond(Bank(writable), s, w, wlen).1;
      var (reply, s2) := Respond(Bank(writable), s1, r, rlen);
      s2 == s1 && reply.Some? && |reply.value| == 11 && reply.value[7..] == [r(7), 2, w(10), w(11)]
  {
    SingleWrite(s, writable, w, a, value, wlen);
    var s1 := Respond(Bank(writable), s, w, wlen).1;
    assert s1 == s[a := value];
    AddrNext(a, 0);
    GrantedRead(s1, writable, r, a, 1, rlen);
    OneShown(Respond(Bank(writable), s1, r, rlen).0, r(7), s1, a, w(10), w(11));
  }

  /** Requests the server does not carry out: unknown functions and counts that do not fit the response. */
  predicate Unsupported(mem: Memory) {
    var func, num := mem(7), WordAt(mem, 10);
    if func == 16 then num > 124 else if func == 3 || func == 4 then num > 125 else func != 6
  }

  /** They are answered with the exception reply and never reach the device, whatever it is. */
  lemma UnsupportedRequest<S>(d: Device<S>, s: S, mem: Memory, len: nat)
    requires len >= 12 && Unsupported(mem)
    ensures var r := Respond(d, s, mem, len);
      r.1 == s && r.0.Some? && |r.0.value| > 7 && r.0.value[7..] == [if mem(7) < 128 then mem(7) + 128 else mem(7), 4]
  {
    RespondTail(d, s, mem, len, None, s);
  }

  /** A refused register makes the whole request fail, with exactly the registers before it written. */
  lemma RefusedWrite(s: Registers, writable: set<word>, w: Memory, start: word, num: word, len: nat, k: nat)
    requires k < num <= 124 && len >= 13 + 2 * num && Requests(w, 16, start, num)
    requires AcceptsFirst(s, writable, start, num, k)
    ensures var r := Respond(Bank(writable), s, w, len);
      && Stored(s, r.1, start, w, 13, k)
      && r.0.Some? && |r.0.value| > 7 && r.0.value[7..] == [144, 4]
  {
    WriteManyStores(s, writable, start, w, 13, num, k);
    var s1 := WriteMany(Bank(writable), s, start, w, 13, num).1;
    assert ExecuteWrite(Bank(writable), s, w, start, num) == (None, s1);
    RespondTail(Bank(writable), s, w, len, None, s1);
  }
}
