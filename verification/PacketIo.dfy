/**
 The packet pool, its counting semaphore and the IO thread, as one machine of atomic steps taken by any
 number of threads in any order. The semaphore is the kernel's: its count goes negative while threads
 queue, and a signal hands the unit to the first of them. A step that is not enabled changes nothing, so
 every sequence of steps is a run.
 */
module PacketIo {

  const POOL_SIZE: nat := 25

  type Slot = n: nat | n < POOL_SIZE
  type Tid = nat

  const IO_THREAD: Tid := 0

  /** What a received packet says about itself: its size and two header fields. */
  datatype Packet = Packet(used: nat, payloadSize: nat, serviceId: nat)

  datatype Service = Service(id: nat, stopped: bool, thread: Tid)

  /** Where a thread stands in the pool protocol. */
  datatype Pc =
    | Running
    | Blocked    // asleep in the semaphore queue
    | Granted    // past the wait, before the pool allocation
    | Returned   // past the pool free, before the signal

  /** Where the IO thread stands in its receive loop; `seen` lists the services as the walk found them. */
  datatype IoPc = Polling | Inspecting(slot: Slot) | Walking(slot: Slot, seen: seq<Service>) | Discarding(slot: Slot, seen: seq<Service>)

  /** What happened to received packets. */
  datatype Fate =
    | Received(slot: Slot, packet: Packet, listed: nat)  // listed: how many services were registered
    | Freed(slot: Slot, seen: seq<Service>)
    | Handed(slot: Slot, seen: seq<Service>)

  datatype State = State(
    headerSize: nat, cnt: int, queue: seq<Tid>, free: set<Slot>, owner: map<Slot, Tid>, pcs: map<Tid, Pc>,
    io: IoPc, packet: Packet, services: seq<Service>, log: seq<Fate>)

  datatype Step =
    | Spawn(t: Tid)
    | Wait(t: Tid)
    | Alloc(t: Tid, slot: Slot)
    | PoolFree(t: Tid, slot: Slot)
    | Signal(t: Tid)
    | Pass(t: Tid, slot: Slot, to: Tid)   // one thread gives a packet it owns to another
    | Receive(slot: Slot, p: Packet)
    | Validate
    | Walk
    | Register(service: Service)
    | SetStopped(i: nat, stopped: bool)

  function Slots(n: nat): set<Slot>
    requires n <= POOL_SIZE
  {
    if n == 0 then {} else Slots(n - 1) + {n - 1}
  }

  function Init(headerSize: nat): State {
    State(headerSize, POOL_SIZE, [], Slots(POOL_SIZE), map[], map[IO_THREAD := Running],
          Polling, Packet(0, 0, 0), [], [])
  }

  predicate At(s: State, t: Tid, pc: Pc) {
    t in s.pcs && s.pcs[t] == pc
  }

  predicate Owns(s: State, t: Tid, slot: Slot) {
    slot in s.owner && s.owner[slot] == t
  }

  /** The size check of the receive loop, with its unsigned subtraction guarded as in the code. */
  predicate Valid(headerSize: nat, p: Packet) {
    p.used >= headerSize && p.used - headerSize == p.payloadSize
  }

  predicate Takes(service: Service, p: Packet) {
    service.id == p.serviceId && !service.stopped
  }

  predicate Enabled(s: State, e: Step) {
    match e
    case Spawn(t) => t !in s.pcs
    case Wait(t) => At(s, t, Running) && (t == IO_THREAD ==> s.io == Polling)
    case Alloc(t, slot) => At(s, t, Granted) && slot in s.free
    case PoolFree(t, slot) =>
      && At(s, t, Running) && Owns(s, t, slot)
      && (t == IO_THREAD ==> s.io == Polling || (s.io.Discarding? && s.io.slot == slot))
    case Signal(t) => At(s, t, Returned)
    case Pass(t, slot, to) => At(s, t, Running) && t != IO_THREAD && Owns(s, t, slot) && to in s.pcs
    case Receive(slot, _) => At(s, IO_THREAD, Running) && s.io == Polling && Owns(s, IO_THREAD, slot)
    case Validate => At(s, IO_THREAD, Running) && s.io.Inspecting?
    case Walk => At(s, IO_THREAD, Running) && s.io.Walking?
    case Register(service) => service.thread in s.pcs && service.thread != IO_THREAD
    case SetStopped(i, _) => i < |s.services|
  }

  function Act(s: State, e: Step): State
    requires Enabled(s, e)
  {
    match e
    case Spawn(t) => s.(pcs := s.pcs[t := Running])
    case Wait(t) =>
      if s.cnt <= 0 then s.(cnt := s.cnt - 1, queue := s.queue + [t], pcs := s.pcs[t := Blocked])
      else s.(cnt := s.cnt - 1, pcs := s.pcs[t := Granted])
    case Alloc(t, slot) =>
      s.(free := s.free - {slot}, owner := s.owner[slot := t], pcs := s.pcs[t := Running])
    case PoolFree(t, slot) =>
      var s1 := s.(free := s.free + {slot}, owner := s.owner - {slot}, pcs := s.pcs[t := Returned]);
      if t == IO_THREAD && s.io.Discarding? then
        s1.(io := Polling, log := s.log + [Freed(slot, s.io.seen)])
      else s1
    case Signal(t) =>
      if s.cnt < 0 && s.queue != [] then
        s.(cnt := s.cnt + 1, queue := s.queue[1..], pcs := s.pcs[t := Running][s.queue[0] := Granted])
      else s.(cnt := s.cnt + 1, pcs := s.pcs[t := Running])
    case Pass(t, slot, to) => s.(owner := s.owner[slot := to])
    case Receive(slot, p) => s.(io := Inspecting(slot), packet := p, log := s.log + [Received(slot, p, |s.services|)])
    case Validate =>
      s.(io := if Valid(s.headerSize, s.packet) then Walking(s.io.slot, []) else Discarding(s.io.slot, []))
    case Walk =>
      var pos := |s.io.seen|;
      if pos >= |s.services| then s.(io := Discarding(s.io.slot, s.io.seen)) else
      var seen := s.io.seen + [s.services[pos]];
      if Takes(s.services[pos], s.packet) then
        s.(io := Polling, owner := s.owner[s.io.slot := s.services[pos].thread],
           log := s.log + [Handed(s.io.slot, seen)])
      else s.(io := Walking(s.io.slot, seen))
    case Register(service) => s.(services := s.services + [service])
    case SetStopped(i, stopped) => s.(services := s.services[i := s.services[i].(stopped := stopped)])
  }

  function Apply(s: State, e: Step): State {
    if Enabled(s, e) then Act(s, e) else s
  }

  function Run(s: State, steps: seq<Step>): State {
    if steps == [] then s else Apply(Run(s, steps[..|steps| - 1]), steps[|steps| - 1])
  }

  // ---------------------------------------------------------------- the pool

  function Threads(pcs: map<Tid, Pc>, pc: Pc): set<Tid> {
    set t | t in pcs && pcs[t] == pc
  }

  ghost predicate SemaphoreInv(s: State) {
    && (s.cnt >= 0 ==> s.queue == []) && (s.cnt < 0 ==> |s.queue| == -s.cnt)
    && (forall i, j :: 0 <= i < j < |s.queue| ==> s.queue[i] != s.queue[j])
    && (forall t :: t in s.queue <==> At(s, t, Blocked))
  }

  ghost predicate PoolInv(s: State) {
    && SemaphoreInv(s)
    && (forall n: Slot :: n in s.free <==> n !in s.owner)
    && (forall n :: n in s.owner ==> s.owner[n] in s.pcs)
    && (forall i :: 0 <= i < |s.services| ==> s.services[i].thread in s.pcs && s.services[i].thread != IO_THREAD)
    && |s.free| == s.cnt + |s.queue| + |Threads(s.pcs, Granted)| + |Threads(s.pcs, Returned)|
  }

  /** Change of the number of threads at `pc` when `t` moves to `to`. */
  lemma CountMove(pcs: map<Tid, Pc>, t: Tid, to: Pc, pc: Pc)
    ensures |Threads(pcs[t := to], pc)| == |Threads(pcs, pc)|
      + (if to == pc && (t in pcs ==> pcs[t] != pc) then 1 else 0)
      - (if to != pc && t in pcs && pcs[t] == pc then 1 else 0)
  {
    if to == pc {
      assert Threads(pcs[t := to], pc) == Threads(pcs, pc) + {t};
    } else {
      assert Threads(pcs[t := to], pc) == Threads(pcs, pc) - {t};
    }
  }

  lemma MoveThread(pcs: map<Tid, Pc>, t: Tid, to: Pc)
    ensures var d := (pc: Pc) => (if to == pc && (t in pcs ==> pcs[t] != pc) then 1 else 0)
                               - (if to != pc && t in pcs && pcs[t] == pc then 1 else 0);
      && |Threads(pcs[t := to], Granted)| == |Threads(pcs, Granted)| + d(Granted)
      && |Threads(pcs[t := to], Returned)| == |Threads(pcs, Returned)| + d(Returned)
  {
    CountMove(pcs, t, to, Granted);
    CountMove(pcs, t, to, Returned);
  }

  lemma {:induction false} SlotSet(n: nat)
    requires n <= POOL_SIZE
    ensures |Slots(n)| == n
    ensures forall k: Slot :: k in Slots(n) <==> k < n
  {
    if n > 0 {
      SlotSet(n - 1);
    }
  }

  lemma InitPool(headerSize: nat)
    ensures PoolInv(Init(headerSize))
  {
    SlotSet(POOL_SIZE);
    assert Threads(Init(headerSize).pcs, Granted) == {} && Threads(Init(headerSize).pcs, Returned) == {};
  }

  lemma WaitPool(s: State, t: Tid)
    requires PoolInv(s) && Enabled(s, Wait(t))
    ensures PoolInv(Act(s, Wait(t)))
  {
    MoveThread(s.pcs, t, if s.cnt <= 0 then Blocked else Granted);
    assert t !in s.queue;
  }

  lemma AllocPool(s: State, t: Tid, slot: Slot)
    requires PoolInv(s) && Enabled(s, Alloc(t, slot))
    ensures PoolInv(Act(s, Alloc(t, slot)))
  {
    MoveThread(s.pcs, t, Running);
  }

  lemma FreePool(s: State, t: Tid, slot: Slot)
    requires PoolInv(s) && Enabled(s, PoolFree(t, slot))
    ensures PoolInv(Act(s, PoolFree(t, slot)))
  {
    MoveThread(s.pcs, t, Returned);
  }

  lemma SignalPool(s: State, t: Tid)
    requires PoolInv(s) && Enabled(s, Signal(t))
    ensures PoolInv(Act(s, Signal(t)))
  {
    MoveThread(s.pcs, t, Running);
    if s.cnt < 0 {
      assert s.queue[0] in s.queue;
      MoveThread(s.pcs[t := Running], s.queue[0], Granted);
      var s' := Act(s, Signal(t));
      forall u ensures u in s'.queue <==> At(s', u, Blocked) {
        assert u in s.queue <==> u == s.queue[0] || u in s.queue[1..];
      }
    }
  }

  /** Steps that move no thread through the protocol: only ownership and the service list may change. */
  lemma OwnershipPool(s: State, s': State)
    requires PoolInv(s)
    requires s'.cnt == s.cnt && s'.queue == s.queue && s'.free == s.free && s'.pcs == s.pcs
    requires s'.owner.Keys == s.owner.Keys && forall n :: n in s'.owner ==> s'.owner[n] in s.pcs
    requires forall i :: 0 <= i < |s'.services| ==> s'.services[i].thread in s.pcs && s'.services[i].thread != IO_THREAD
    ensures PoolInv(s')
  {
    assert forall t :: At(s', t, Blocked) <==> At(s, t, Blocked);
  }

  lemma SpawnPool(s: State, t: Tid)
    requires PoolInv(s) && Enabled(s, Spawn(t))
    ensures PoolInv(Act(s, Spawn(t)))
  {
    MoveThread(s.pcs, t, Running);
  }

  lemma StepPool(s: State, e: Step)
    requires PoolInv(s)
    requires s.io.Walking? ==> Owns(s, IO_THREAD, s.io.slot)
    ensures PoolInv(Apply(s, e))
  {
    if Enabled(s, e) {
      match e
      case Wait(t) => WaitPool(s, t);
      case Alloc(t, slot) => AllocPool(s, t, slot);
      case PoolFree(t, slot) => FreePool(s, t, slot);
      case Signal(t) => SignalPool(s, t);
      case Spawn(t) => SpawnPool(s, t);
      case _ => OwnershipPool(s, Act(s, e));
    }
  }

  // ---------------------------------------------------------------- the receive loop

  /** No service of `seen` took the packet. */
  predicate NoTaker(seen: seq<Service>, p: Packet) {
    forall i :: 0 <= i < |seen| ==> seen[i].id != p.serviceId || seen[i].stopped
  }

  /**
   The outcome of the received packet `r`: freed as malformed, freed after every service registered at its
   reception was visited and none took it, or handed to the first taker.
   */
  predicate Settles(headerSize: nat, r: Fate, f: Fate)
    requires r.Received?
  {
    match f
    case Received(_, _, _) => false
    case Freed(n, seen) =>
      && n == r.slot && NoTaker(seen, r.packet)
      && if r.packet.used == headerSize + r.packet.payloadSize then |seen| >= r.listed else seen == []
    case Handed(n, seen) =>
      && n == r.slot && r.packet.used == headerSize + r.packet.payloadSize && seen != []
      && seen[|seen| - 1].id == r.packet.serviceId && !seen[|seen| - 1].stopped
      && NoTaker(seen[..|seen| - 1], r.packet)
  }

  /** Entry `i` is the outcome of the packet received in the entry before it. */
  predicate SettledAt(headerSize: nat, log: seq<Fate>, i: int) {
    0 < i < |log| && log[i - 1].Received? && Settles(headerSize, log[i - 1], log[i])
  }

  /** Receptions and outcomes alternate, and every outcome settles the reception before it. */
  ghost predicate LogInv(headerSize: nat, log: seq<Fate>) {
    forall i :: 0 <= i < |log| ==>
      if i % 2 == 0 then log[i].Received? else SettledAt(headerSize, log, i)
  }

  /** The walk has visited a prefix of the list, in order; only the stopped flags may have changed since. */
  predicate Visited(seen: seq<Service>, services: seq<Service>) {
    && |seen| <= |services|
    && forall i :: 0 <= i < |seen| ==> seen[i].id == services[i].id && seen[i].thread == services[i].thread
  }

  /** The packet in the IO thread's hands is the last one logged, and services only came since. */
  predicate Holds(s: State)
    requires !s.io.Polling?
  {
    s.log != [] && var r := s.log[|s.log| - 1]; r.Received? && r.slot == s.io.slot && r.packet == s.packet && r.listed <= |s.services|
  }

  ghost predicate IoInv(s: State) {
    && IO_THREAD in s.pcs
    && LogInv(s.headerSize, s.log)
    && (forall i :: 0 <= i < |s.log| && !s.log[i].Received? ==> Visited(s.log[i].seen, s.services))
    && (s.io == Polling <==> |s.log| % 2 == 0)
    && (!s.io.Polling? ==>
          && Holds(s) && Owns(s, IO_THREAD, s.io.slot) && At(s, IO_THREAD, Running))
    && (s.io.Walking? ==>
          Valid(s.headerSize, s.packet) && NoTaker(s.io.seen, s.packet) && Visited(s.io.seen, s.services))
    && (s.io.Discarding? ==>
          && NoTaker(s.io.seen, s.packet) && Visited(s.io.seen, s.services)
          && if Valid(s.headerSize, s.packet) then |s.io.seen| >= s.log[|s.log| - 1].listed else s.io.seen == [])
  }

  lemma LogSnoc(headerSize: nat, log: seq<Fate>, f: Fate)
    requires LogInv(headerSize, log)
    requires if |log| % 2 == 0 then f.Received?
      else log[|log| - 1].Received? && Settles(headerSize, log[|log| - 1], f)
    ensures LogInv(headerSize, log + [f])
  {
  }

  lemma ReceiveIo(s: State, e: Step)
    requires PoolInv(s) && IoInv(s) && Enabled(s, e) && (e.Receive? || e.Validate?)
    ensures IoInv(Act(s, e))
  {
    if e.Receive? {
      LogSnoc(s.headerSize, s.log, Received(e.slot, e.p, |s.services|));
    }
  }

  /** The walk meets a taker. */
  lemma HandIo(s: State)
    requires PoolInv(s) && IoInv(s) && Enabled(s, Walk)
    requires |s.io.seen| < |s.services| && Takes(s.services[|s.io.seen|], s.packet)
    ensures IoInv(Act(s, Walk))
  {
    var seen := s.io.seen + [s.services[|s.io.seen|]];
    assert seen[..|seen| - 1] == s.io.seen;
    assert Visited(seen, s.services);
    LogSnoc(s.headerSize, s.log, Handed(s.io.slot, seen));
    assert Act(s, Walk).log == s.log + [Handed(s.io.slot, seen)];
  }

  lemma WalkIo(s: State)
    requires PoolInv(s) && IoInv(s) && Enabled(s, Walk)
    ensures IoInv(Act(s, Walk))
  {
    var pos := |s.io.seen|;
    if pos < |s.services| && Takes(s.services[pos], s.packet) {
      HandIo(s);
    }
  }

  lemma FreeIo(s: State, t: Tid, slot: Slot)
    requires PoolInv(s) && IoInv(s) && Enabled(s, PoolFree(t, slot))
    ensures IoInv(Act(s, PoolFree(t, slot)))
  {
    if t == IO_THREAD && s.io.Discarding? {
      LogSnoc(s.headerSize, s.log, Freed(slot, s.io.seen));
    }
  }

  lemma SignalIo(s: State, t: Tid)
    requires PoolInv(s) && IoInv(s) && Enabled(s, Signal(t))
    ensures IoInv(Act(s, Signal(t)))
  {
    if s.cnt < 0 {
      assert s.queue[0] in s.queue;
    }
  }

  /** Steps of other threads on the pool do not disturb the packet the IO thread holds. */
  lemma OtherThreadsIo(s: State, e: Step)
    requires PoolInv(s) && IoInv(s) && Enabled(s, e) && (e.Spawn? || e.Wait? || e.Alloc? || e.Pass?)
    ensures IoInv(Act(s, e))
  {
  }

  /** A growing list and changing stopped flags leave what was visited in place. */
  lemma ListIo(s: State, e: Step)
    requires PoolInv(s) && IoInv(s) && Enabled(s, e) && (e.Register? || e.SetStopped?)
    ensures IoInv(Act(s, e))
  {
  }

  lemma StepIo(s: State, e: Step)
    requires PoolInv(s) && IoInv(s)
    ensures IoInv(Apply(s, e))
  {
    if Enabled(s, e) {
      match e
      case Receive(_, _) => ReceiveIo(s, e);
      case Validate => ReceiveIo(s, e);
      case Walk => WalkIo(s);
      case PoolFree(t, slot) => FreeIo(s, t, slot);
      case Signal(t) => SignalIo(s, t);
      case Register(_) => ListIo(s, e);
      case SetStopped(_, _) => ListIo(s, e);
      case _ => OtherThreadsIo(s, e);
    }
  }

  // ---------------------------------------------------------------- every run

  ghost predicate Inv(headerSize: nat, s: State) {
    PoolInv(s) && IoInv(s) && s.headerSize == headerSize
  }

  lemma StepInv(headerSize: nat, s: State, e: Step)
    requires Inv(headerSize, s)
    ensures Inv(headerSize, Apply(s, e))
  {
    StepPool(s, e);
    StepIo(s, e);
  }

  lemma {:induction false} InvOnward(headerSize: nat, s: State, steps: seq<Step>)
    requires Inv(headerSize, s)
    ensures Inv(headerSize, Run(s, steps))
    decreases |steps|
  {
    if steps != [] {
      InvOnward(headerSize, s, steps[..|steps| - 1]);
      StepInv(headerSize, Run(s, steps[..|steps| - 1]), steps[|steps| - 1]);
    }
  }

  lemma RunInv(headerSize: nat, steps: seq<Step>)
    ensures Inv(headerSize, Run(Init(headerSize), steps))
  {
    InitPool(headerSize);
    InvOnward(headerSize, Init(headerSize), steps);
  }

  lemma Partition(free: set<Slot>, held: set<Slot>)
    requires forall n: Slot :: n in free <==> n !in held
    ensures |free| + |held| == POOL_SIZE
  {
    SlotSet(POOL_SIZE);
    assert Slots(POOL_SIZE) == free + held;
    assert free !! held;
  }

  lemma SlotsConserved(s: State)
    requires PoolInv(s)
    ensures |s.free| + |s.owner| == POOL_SIZE
  {
    Partition(s.free, s.owner.Keys);
  }

  lemma GrantedFindsSlot(s: State, t: Tid)
    requires PoolInv(s) && At(s, t, Granted)
    ensures s.free != {}
  {
    assert t in Threads(s.pcs, Granted);
  }

  /**
   In every interleaving the free slots are exactly those counted by the semaphore, promised to a thread
   past its wait, or about to be signalled. So a thread past its wait always finds a slot, a thread sleeps
   only when every free slot is already promised, and no slot is ever lost or held twice.
   */
  lemma PoolNeverRunsDry(headerSize: nat, steps: seq<Step>)
    ensures var s := Run(Init(headerSize), steps);
      && |s.free| == s.cnt + |s.queue| + |Threads(s.pcs, Granted)| + |Threads(s.pcs, Returned)|
      && s.cnt + |s.queue| >= 0
      && (forall t :: At(s, t, Granted) ==> s.free != {})
      && (forall t :: At(s, t, Blocked) ==> |s.free| == |Threads(s.pcs, Granted)| + |Threads(s.pcs, Returned)|)
      && |s.free| + |s.owner| == POOL_SIZE && s.free !! s.owner.Keys
  {
    RunInv(headerSize, steps);
    var s := Run(Init(headerSize), steps);
    SlotsConserved(s);
    forall t | At(s, t, Granted) ensures s.free != {} {
      GrantedFindsSlot(s, t);
    }
    forall t | At(s, t, Blocked) ensures s.cnt + |s.queue| == 0 {
      assert t in s.queue;
    }
  }

  ghost predicate Settled(headerSize: nat, s: State) {
    && (forall i :: 0 <= i < |s.log| ==> if i % 2 == 0 then s.log[i].Received? else SettledAt(headerSize, s.log, i))
    && (forall i :: 0 <= i < |s.log| && !s.log[i].Received? ==> Visited(s.log[i].seen, s.services))
    && (s.io == Polling <==> |s.log| % 2 == 0)
    && (!s.io.Polling? ==> Holds(s) && Owns(s, IO_THREAD, s.io.slot))
  }

  lemma InvSettles(headerSize: nat, s: State)
    requires Inv(headerSize, s)
    ensures Settled(headerSize, s)
  {
  }

  /**
   Over every run of the receive loop, interleaved with every other thread, receptions and outcomes
   alternate: each received packet is freed once or handed to one service, the first in registration order
   that had its id and was not stopped when the walk passed it. Only well-sized packets are handed on, and
   they are freed only after every service registered at their reception was passed and did not take them.
   The only packet without an outcome is the one the IO thread holds.
   */
  lemma EveryPacketSettled(headerSize: nat, steps: seq<Step>)
    ensures Settled(headerSize, Run(Init(headerSize), steps))
  {
    RunInv(headerSize, steps);
    InvSettles(headerSize, Run(Init(headerSize), steps));
  }

  /** Steps of the walk still to take if the list stays as it is. */
  function Remaining(s: State): nat {
    if s.io.Walking? && |s.io.seen| <= |s.services| then |s.services| - |s.io.seen| + 1 else 0
  }

  /** One step of the machine, seen from the walk. */
  ghost predicate WalkMeasured(s: State, e: Step) {
    && Remaining(s) > 0 && Enabled(s, Walk)
    && Remaining(Apply(s, Walk)) < Remaining(s)
    && (e != Walk && !e.Register? ==> Remaining(Apply(s, e)) == Remaining(s))
    && (e.Register? ==> Remaining(Apply(s, e)) <= Remaining(s) + 1)
    && (Apply(s, Walk).io.Discarding? ==>
          |s.io.seen| == |s.services| && Visited(s.io.seen, s.services) && NoTaker(s.io.seen, s.packet))
  }

  lemma WalkStep(s: State, e: Step)
    requires IoInv(s) && s.io.Walking?
    ensures WalkMeasured(s, e)
  {
  }

  function Walks(steps: seq<Step>): nat {
    if steps == [] then 0 else Walks(steps[..|steps| - 1]) + if steps[|steps| - 1].Walk? then 1 else 0
  }

  function Registrations(steps: seq<Step>): nat {
    if steps == [] then 0 else Registrations(steps[..|steps| - 1]) + if steps[|steps| - 1].Register? then 1 else 0
  }

  /** The IO thread is in its walk before, between and after all of `steps`. */
  ghost predicate StillWalking(s: State, steps: seq<Step>) {
    forall j :: 0 <= j <= |steps| ==> Run(s, steps[..j]).io.Walking?
  }

  lemma WalkingFront(s: State, steps: seq<Step>)
    requires StillWalking(s, steps) && steps != []
    ensures StillWalking(s, steps[..|steps| - 1]) && Run(s, steps[..|steps| - 1]).io.Walking? && Run(s, steps).io.Walking?
  {
    var front := steps[..|steps| - 1];
    assert steps[..|steps|] == steps;
    forall j | 0 <= j <= |front| ensures Run(s, front[..j]).io.Walking? {
      assert front[..j] == steps[..j];
    }
  }

  /** While the walk lasts every one of its steps is paid for by the start or by a registration. */
  lemma {:induction false} WalkBudget(headerSize: nat, s: State, steps: seq<Step>)
    requires Inv(headerSize, s) && StillWalking(s, steps)
    ensures Remaining(Run(s, steps)) + Walks(steps) <= Remaining(s) + Registrations(steps)
    decreases |steps|
  {
    if steps != [] {
      var front, e := steps[..|steps| - 1], steps[|steps| - 1];
      WalkingFront(s, steps);
      WalkBudget(headerSize, s, front);
      InvOnward(headerSize, s, front);
      WalkStep(Run(s, front), e);
    }
  }

  /**
   The walk ends in every run: once a continuation has as many steps of it as were left plus one for every
   service registered meanwhile, the IO thread has left the walk, whatever the other threads did in between.
   */
  lemma WalkEnds(headerSize: nat, before: seq<Step>, after: seq<Step>)
    requires Run(Init(headerSize), before).io.Walking?
    requires Walks(after) >= Remaining(Run(Init(headerSize), before)) + Registrations(after)
    ensures exists j: nat :: j <= |after| && !Run(Run(Init(headerSize), before), after[..j]).io.Walking?
  {
    var s := Run(Init(headerSize), before);
    RunInv(headerSize, before);
    if StillWalking(s, after) {
      WalkBudget(headerSize, s, after);
      InvOnward(headerSize, s, after);
      assert after[..|after|] == after;
      WalkStep(Run(s, after), Walk);
      assert false;
    }
  }

  // ---------------------------------------------------------------- who holds the packet

  /** The newest entry of the log and the owner of its slot; `s` is the state before the step that made the entry. */
  predicate Placed(s: State, s': State, f: Fate) {
    match f
    case Received(n, _, _) => Owns(s', IO_THREAD, n)
    case Freed(n, seen) => n !in s'.owner && n in s'.free && s.io == Discarding(n, seen)
    case Handed(n, seen) =>
      && s.io.Walking? && s.io.slot == n && |s.io.seen| < |s.services|
      && seen == s.io.seen + [s.services[|s.io.seen|]]
      && Owns(s', seen[|seen| - 1].thread, n)
  }

  /** The walk looks at the services as they are, one after the other. */
  predicate Looks(s: State, s': State) {
    && (s'.io.Walking? ==>
          || (s.io == Inspecting(s'.io.slot) && s'.io.seen == [])
          || s'.io == s.io
          || (s.io.Walking? && |s.io.seen| < |s.services| && s'.io == Walking(s.io.slot, s.io.seen + [s.services[|s.io.seen|]])))
    && (s'.io.Discarding? ==>
          || (s.io == Inspecting(s'.io.slot) && s'.io.seen == [])
          || s'.io == s.io
          || (s.io == Walking(s'.io.slot, s'.io.seen) && |s.io.seen| == |s.services|))
  }

  ghost predicate Accounted(s: State, s': State) {
    && Looks(s, s')
    && (s'.log == s.log || (s'.log != [] && s'.log[..|s'.log| - 1] == s.log && Placed(s, s', s'.log[|s'.log| - 1])))
  }

  lemma StepAccounted(s: State, e: Step)
    requires PoolInv(s) && IoInv(s)
    ensures Accounted(s, Apply(s, e))
  {
  }

  /**
   In every run, every step: a received packet belongs to the IO thread, a freed one to nobody, and a packet that
   is handed over to the thread of the very service that matched; the walk looks at the services in place.
   */
  lemma EveryStepAccounted(headerSize: nat, steps: seq<Step>, e: Step)
    ensures Accounted(Run(Init(headerSize), steps), Apply(Run(Init(headerSize), steps), e))
  {
    RunInv(headerSize, steps);
    StepAccounted(Run(Init(headerSize), steps), e);
  }

  // ---------------------------------------------------------------- every packet is settled in time

  /** The step the IO thread takes next while it holds a packet. */
  function IoTurn(s: State): Step
    requires !s.io.Polling?
  {
    match s.io
    case Inspecting(_) => Validate
    case Walking(_, _) => Walk
    case Discarding(slot, _) => PoolFree(IO_THREAD, slot)
  }

  /** How many steps of the IO thread settle the packet at most, if the list stays as it is. */
  function ToGo(s: State): nat {
    match s.io
    case Polling => 0
    case Inspecting(_) => |s.services| + 3
    case Walking(_, seen) => if |seen| <= |s.services| then |s.services| - |seen| + 2 else 0
    case Discarding(_, _) => 1
  }

  /** How many of the steps are turns of the IO thread. */
  function Turns(s: State, steps: seq<Step>): nat {
    if steps == [] then 0 else
    var front := steps[..|steps| - 1];
    var s0 := Run(s, front);
    Turns(s, front) + if !s0.io.Polling? && steps[|steps| - 1] == IoTurn(s0) then 1 else 0
  }

  lemma BusyStep(s: State, e: Step)
    requires IoInv(s) && !s.io.Polling?
    ensures ToGo(s) > 0
    ensures ToGo(Apply(s, e)) + (if e == IoTurn(s) then 1 else 0) <= ToGo(s) + if e.Register? then 1 else 0
  {
  }

  ghost predicate StillBusy(s: State, steps: seq<Step>) {
    forall j :: 0 <= j <= |steps| ==> !Run(s, steps[..j]).io.Polling?
  }

  lemma BusyFront(s: State, steps: seq<Step>)
    requires StillBusy(s, steps) && steps != []
    ensures StillBusy(s, steps[..|steps| - 1]) && !Run(s, steps[..|steps| - 1]).io.Polling? && !Run(s, steps).io.Polling?
  {
    var front := steps[..|steps| - 1];
    assert steps[..|steps|] == steps;
    forall j | 0 <= j <= |front| ensures !Run(s, front[..j]).io.Polling? {
      assert front[..j] == steps[..j];
    }
  }

  lemma {:induction false} BusyBudget(headerSize: nat, s: State, steps: seq<Step>)
    requires Inv(headerSize, s) && StillBusy(s, steps)
    ensures ToGo(Run(s, steps)) + Turns(s, steps) <= ToGo(s) + Registrations(steps)
    decreases |steps|
  {
    if steps != [] {
      var front, e := steps[..|steps| - 1], steps[|steps| - 1];
      BusyFront(s, steps);
      BusyBudget(headerSize, s, front);
      InvOnward(headerSize, s, front);
      BusyStep(Run(s, front), e);
    }
  }

  /**
   From every reachable state with a packet in hand: any continuation in which the IO thread gets as many turns as
   were to go, plus one for every registration, settles the packet, whatever the other threads do in between.
   */
  lemma SettledInTime(headerSize: nat, before: seq<Step>, after: seq<Step>)
    requires !Run(Init(headerSize), before).io.Polling?
    requires Turns(Run(Init(headerSize), before), after) >= ToGo(Run(Init(headerSize), before)) + Registrations(after)
    ensures exists j: nat :: j <= |after| && Run(Run(Init(headerSize), before), after[..j]).io.Polling?
  {
    var s := Run(Init(headerSize), before);
    RunInv(headerSize, before);
    if StillBusy(s, after) {
      BusyBudget(headerSize, s, after);
      InvOnward(headerSize, s, after);
      assert after[..|after|] == after;
      BusyStep(Run(s, after), Walk);
      assert false;
    }
  }

  // ---------------------------------------------------------------- waiting threads are served in order

  /** What the kernel promises of each pool operation that a thread gets to perform. */
  predicate Performed(s: State, e: Step, s': State)
    requires Enabled(s, e)
  {
    match e
    case Wait(t) =>
      s'.cnt == s.cnt - 1 && if s.cnt > 0 then At(s', t, Granted) && s'.queue == s.queue
                             else At(s', t, Blocked) && s'.queue == s.queue + [t]
    case Alloc(t, n) => n in s.free && n !in s'.free && Owns(s', t, n) && At(s', t, Running)
    case PoolFree(t, n) => Owns(s, t, n) && n !in s'.owner && n in s'.free && At(s', t, Returned)
    case Signal(t) =>
      && s'.cnt == s.cnt + 1 && At(s', t, Running)
      && (s.queue != [] ==> At(s', s.queue[0], Granted) && s'.queue == s.queue[1..])
    case Pass(t, n, to) => Owns(s', to, n)
    case Spawn(t) => At(s', t, Running)
    case Register(service) => s'.services == s.services + [service]
    case SetStopped(i, stopped) =>
      && |s'.services| == |s.services|
      && s'.services[i] == Service(s.services[i].id, stopped, s.services[i].thread)
      && forall j :: 0 <= j < |s.services| && j != i ==> s'.services[j] == s.services[j]
    case _ => s'.cnt == s.cnt && s'.queue == s.queue && s'.free == s.free && s'.services == s.services
  }

  lemma SignalWakes(s: State, e: Step)
    requires PoolInv(s) && Enabled(s, e)
    ensures Performed(s, e, Apply(s, e))
  {
    if e.Signal? && s.queue != [] {
      assert s.cnt < 0;
      assert s.queue[0] in s.queue;
      assert At(s, s.queue[0], Blocked);
    }
  }

  /** In every run each operation a thread gets to perform has its effect, and a signal wakes the longest waiting thread. */
  lemma StepsTakeEffect(headerSize: nat, steps: seq<Step>, e: Step)
    ensures var s := Run(Init(headerSize), steps); Enabled(s, e) ==> Performed(s, e, Apply(s, e))
  {
    RunInv(headerSize, steps);
    var s := Run(Init(headerSize), steps);
    if Enabled(s, e) {
      SignalWakes(s, e);
    }
  }

  /** The services that get registered in a run, in order. */
  function Registered(s: State, steps: seq<Step>): seq<Service> {
    if steps == [] then [] else
    var front, e := steps[..|steps| - 1], steps[|steps| - 1];
    Registered(s, front) + if e.Register? && Enabled(Run(s, front), e) then [e.service] else []
  }

  /** Equal but for the stopped flags. */
  predicate SameServices(a: seq<Service>, b: seq<Service>) {
    |a| == |b| && forall i :: 0 <= i < |a| ==> a[i].id == b[i].id && a[i].thread == b[i].thread
  }

  lemma ListStep(s: State, e: Step, listed: seq<Service>)
    requires PoolInv(s) && SameServices(s.services, listed)
    ensures SameServices(Apply(s, e).services, listed + if e.Register? && Enabled(s, e) then [e.service] else [])
  {
    if Enabled(s, e) {
      SignalWakes(s, e);
    }
  }

  /** In every run the list that the walk passes holds exactly the registered services, in the order of registration. */
  lemma {:induction false} ListIsRegistrations(headerSize: nat, steps: seq<Step>)
    ensures SameServices(Run(Init(headerSize), steps).services, Registered(Init(headerSize), steps))
    decreases |steps|
  {
    if steps != [] {
      var front := steps[..|steps| - 1];
      ListIsRegistrations(headerSize, front);
      RunInv(headerSize, front);
      ListStep(Run(Init(headerSize), front), steps[|steps| - 1], Registered(Init(headerSize), front));
    }
  }

  /** How many of the steps signal the semaphore. */
  function Signals(s: State, steps: seq<Step>): nat {
    if steps == [] then 0 else
    var front, e := steps[..|steps| - 1], steps[|steps| - 1];
    Signals(s, front) + if e.Signal? && Enabled(Run(s, front), e) then 1 else 0
  }

  ghost predicate NeverGranted(s: State, t: Tid, steps: seq<Step>) {
    forall j :: 0 <= j <= |steps| ==> !At(Run(s, steps[..j]), t, Granted)
  }

  lemma NeverFront(s: State, t: Tid, steps: seq<Step>)
    requires NeverGranted(s, t, steps) && steps != []
    ensures NeverGranted(s, t, steps[..|steps| - 1]) && !At(Run(s, steps), t, Granted)
  {
    var front := steps[..|steps| - 1];
    assert steps[..|steps|] == steps;
    forall j | 0 <= j <= |front| ensures !At(Run(s, front[..j]), t, Granted) {
      assert front[..j] == steps[..j];
    }
  }

  predicate Stands(s: State, p: int, t: Tid) {
    0 <= p < |s.queue| && s.queue[p] == t
  }

  /** One step moves a waiting thread forward by a signal and never back. */
  lemma QueueStep(headerSize: nat, s: State, e: Step, p: int, t: Tid)
    requires Inv(headerSize, s) && Stands(s, p, t) && !At(Apply(s, e), t, Granted)
    ensures Stands(Apply(s, e), p - (if e.Signal? && Enabled(s, e) then 1 else 0), t)
  {
    if Enabled(s, e) {
      SignalWakes(s, e);
    }
  }

  lemma {:induction false} QueueRun(headerSize: nat, s: State, i: nat, t: Tid, steps: seq<Step>)
    requires Inv(headerSize, s) && Stands(s, i, t) && NeverGranted(s, t, steps)
    ensures Stands(Run(s, steps), i - Signals(s, steps), t)
    decreases |steps|
  {
    if steps != [] {
      var front, e := steps[..|steps| - 1], steps[|steps| - 1];
      var s0 := Run(s, front);
      NeverFront(s, t, steps);
      QueueRun(headerSize, s, i, t, front);
      InvOnward(headerSize, s, front);
      assert Run(s, steps) == Apply(s0, e);
      QueueStep(headerSize, s0, e, i - Signals(s, front), t);
    }
  }

  /** No thread is passed over: the thread at position `i` of the queue has its slot promised after `i + 1` signals. */
  lemma WaiterServed(headerSize: nat, before: seq<Step>, after: seq<Step>, i: nat)
    requires i < |Run(Init(headerSize), before).queue| && Signals(Run(Init(headerSize), before), after) > i
    ensures var s := Run(Init(headerSize), before);
      exists j: nat :: j <= |after| && At(Run(s, after[..j]), s.queue[i], Granted)
  {
    var s := Run(Init(headerSize), before);
    RunInv(headerSize, before);
    if NeverGranted(s, s.queue[i], after) {
      QueueRun(headerSize, s, i, s.queue[i], after);
      assert false;
    }
  }
}
