/**
 The main loop that turns global events into service calls, interleaved with any number of broadcasters.
 A broadcast ORs its flags into the listener and signals the thread's GLOBAL event in one atomic step; the
 loop clears the event when it wakes and fetches the flags in a later step, so broadcasts can fall in
 between. Flag words are modelled by the set of their one bits. A step that is not enabled changes nothing.
 */
module EventDispatch {

  const EMERGENCY_CHANGED: nat := 0
  const INPUTS_CHANGED: nat := 1

  type Flags = set<nat>

  datatype Call = EmergencyChanged | InputsChanged | CheckInputs

  datatype Happening = Registered | Broadcasted(flags: Flags) | Fetched(flags: Flags) | Called(call: Call)

  datatype Pc =
    | Starting               // before chEvtRegister
    | Waiting                // in chEvtWaitAnyTimeout
    | Woken                  // event cleared, flags not yet fetched
    | Emergency(got: Flags)  // about to test EMERGENCY_CHANGED
    | Inputs(got: Flags)     // about to test INPUTS_CHANGED

  /** `pending` is the GLOBAL bit of the thread, `flags` the word kept in the listener. */
  datatype State = State(pc: Pc, pending: bool, flags: Flags, history: seq<Happening>)

  datatype Step = Broadcast(flags: Flags) | Advance

  const START := State(Starting, false, {}, [])

  function Apply(s: State, e: Step): State {
    match e
    case Broadcast(fs) =>
      var s1 := s.(history := s.history + [Broadcasted(fs)]);
      if s.pc == Starting then s1 else s1.(flags := s.flags + fs, pending := true)
    case Advance =>
      match s.pc
      case Starting => s.(pc := Waiting, flags := {}, history := s.history + [Registered])
      case Waiting => if s.pending then s.(pc := Woken, pending := false) else s
      case Woken => s.(pc := Emergency(s.flags), flags := {}, history := s.history + [Fetched(s.flags)])
      case Emergency(got) =>
        s.(pc := Inputs(got),
           history := if EMERGENCY_CHANGED in got then s.history + [Called(EmergencyChanged)] else s.history)
      case Inputs(got) =>
        s.(pc := Waiting,
           history := if INPUTS_CHANGED in got then s.history + [Called(InputsChanged), Called(CheckInputs)] else s.history)
  }

  function Run(steps: seq<Step>): State {
    if steps == [] then START else Apply(Run(steps[..|steps| - 1]), steps[|steps| - 1])
  }

  // ---------------------------------------------------------------- what a history means

  /** The flags broadcast since the last fetch, or since registration. */
  function Unread(h: seq<Happening>): Flags {
    if h == [] then {} else
    var front, last := h[..|h| - 1], h[|h| - 1];
    match last
    case Broadcasted(fs) => Unread(front) + fs
    case Called(_) => Unread(front)
    case _ => {}
  }

  /** The flags of the last fetch. */
  function LastFetch(h: seq<Happening>): Flags {
    if h == [] then {} else
    if h[|h| - 1].Fetched? then h[|h| - 1].flags else LastFetch(h[..|h| - 1])
  }

  /** The calls made since the last fetch, in order. */
  function CallsMade(h: seq<Happening>): seq<Call> {
    if h == [] || h[|h| - 1].Fetched? then [] else
    CallsMade(h[..|h| - 1]) + if h[|h| - 1].Called? then [h[|h| - 1].call] else []
  }

  function EmergencyCalls(got: Flags): seq<Call> {
    if EMERGENCY_CHANGED in got then [EmergencyChanged] else []
  }

  /** The calls a flag word asks for. */
  function CallsFor(got: Flags): seq<Call> {
    EmergencyCalls(got) + if INPUTS_CHANGED in got then [InputsChanged, CheckInputs] else []
  }

  predicate Listening(h: seq<Happening>) {
    Registered in h
  }

  predicate FetchedAll(before: seq<Happening>, got: Flags) {
    Listening(before) && got == Unread(before) && CallsMade(before) == CallsFor(LastFetch(before))
  }

  /** Each fetch returns exactly what was broadcast since the fetch before, whose calls were all made by then. */
  ghost predicate Faithful(h: seq<Happening>) {
    forall k :: 0 <= k < |h| && h[k].Fetched? ==> FetchedAll(h[..k], h[k].flags)
  }

  ghost predicate Once(h: seq<Happening>) {
    forall i, j :: 0 <= i < j < |h| ==> !(h[i].Registered? && h[j].Registered?)
  }

  /** The invariant of the interleaving; the second clause is what rules out a lost wake-up. */
  ghost predicate Inv(s: State) {
    && Faithful(s.history) && Once(s.history) && (Listening(s.history) <==> s.pc != Starting)
    && (s.flags != {} ==> s.pending || s.pc == Woken)
    && (s.pc != Starting ==> s.flags == Unread(s.history))
    && match s.pc
       case Starting => s.flags == {} && !s.pending && CallsMade(s.history) == [] && LastFetch(s.history) == {}
       case Emergency(got) => got == LastFetch(s.history) && CallsMade(s.history) == []
       case Inputs(got) => got == LastFetch(s.history) && CallsMade(s.history) == EmergencyCalls(got)
       case _ => CallsMade(s.history) == CallsFor(LastFetch(s.history))
  }

  lemma Snoc(h: seq<Happening>, x: Happening)
    ensures var h' := h + [x];
      && h'[..|h'| - 1] == h && h'[|h'| - 1] == x
      && (Listening(h') <==> Listening(h) || x.Registered?)
  {
  }

  lemma FaithfulSnoc(h: seq<Happening>, x: Happening)
    requires Faithful(h) && Once(h)
    requires x.Fetched? ==> FetchedAll(h, x.flags)
    requires x.Registered? ==> !Listening(h)
    ensures Faithful(h + [x]) && Once(h + [x])
  {
    var h' := h + [x];
    forall k | 0 <= k < |h'| && h'[k].Fetched? ensures FetchedAll(h'[..k], h'[k].flags) {
      assert h'[..k] == h[..k];
      assert h[..|h|] == h;
    }
    forall i, j | 0 <= i < j < |h'| ensures !(h'[i].Registered? && h'[j].Registered?) {
      if j == |h| && x.Registered? {
        assert h[i] in h;
      }
    }
  }

  lemma BroadcastInv(s: State, fs: Flags)
    requires Inv(s)
    ensures Inv(Apply(s, Broadcast(fs)))
  {
    Snoc(s.history, Broadcasted(fs));
    FaithfulSnoc(s.history, Broadcasted(fs));
  }

  lemma RegisterInv(s: State)
    requires Inv(s) && s.pc == Starting
    ensures Inv(Apply(s, Advance))
  {
    Snoc(s.history, Registered);
    FaithfulSnoc(s.history, Registered);
  }

  lemma FetchInv(s: State)
    requires Inv(s) && s.pc == Woken
    ensures Inv(Apply(s, Advance))
  {
    Snoc(s.history, Fetched(s.flags));
    FaithfulSnoc(s.history, Fetched(s.flags));
  }

  lemma EmergencyInv(s: State)
    requires Inv(s) && s.pc.Emergency?
    ensures Inv(Apply(s, Advance))
  {
    Snoc(s.history, Called(EmergencyChanged));
    FaithfulSnoc(s.history, Called(EmergencyChanged));
  }

  /** A call changes what was called and nothing else. */
  lemma CallSnoc(h: seq<Happening>, call: Call)
    requires Faithful(h) && Once(h)
    ensures var h' := h + [Called(call)];
      && Faithful(h') && Once(h') && (Listening(h') <==> Listening(h))
      && CallsMade(h') == CallsMade(h) + [call] && LastFetch(h') == LastFetch(h) && Unread(h') == Unread(h)
  {
    Snoc(h, Called(call));
    FaithfulSnoc(h, Called(call));
  }

  lemma InputCalls(h: seq<Happening>)
    requires Faithful(h) && Once(h)
    ensures var h' := h + [Called(InputsChanged), Called(CheckInputs)];
      && Faithful(h') && Once(h') && (Listening(h') <==> Listening(h))
      && CallsMade(h') == CallsMade(h) + [InputsChanged, CheckInputs]
      && LastFetch(h') == LastFetch(h) && Unread(h') == Unread(h)
  {
    var h1 := h + [Called(InputsChanged)];
    assert h + [Called(InputsChanged), Called(CheckInputs)] == h1 + [Called(CheckInputs)];
    CallSnoc(h, InputsChanged);
    CallSnoc(h1, CheckInputs);
  }

  lemma InputsInv(s: State)
    requires Inv(s) && s.pc.Inputs?
    ensures Inv(Apply(s, Advance))
  {
    InputCalls(s.history);
  }

  lemma StepInv(s: State, e: Step)
    requires Inv(s)
    ensures Inv(Apply(s, e))
  {
    match e
    case Broadcast(fs) => BroadcastInv(s, fs);
    case Advance =>
      match s.pc
      case Starting => RegisterInv(s);
      case Waiting =>
      case Woken => FetchInv(s);
      case Emergency(_) => EmergencyInv(s);
      case Inputs(_) => InputsInv(s);
  }

  lemma {:induction false} RunInv(steps: seq<Step>)
    ensures Inv(Run(steps))
    decreases |steps|
  {
    if steps != [] {
      RunInv(steps[..|steps| - 1]);
      StepInv(Run(steps[..|steps| - 1]), steps[|steps| - 1]);
    }
  }

  // ---------------------------------------------------------------- nothing lost, nothing invented

  /** A flag broadcast after registration is still unread or is part of a later fetch. */
  lemma {:induction false} BroadcastFetched(h: seq<Happening>, i: nat, f: nat)
    requires Faithful(h) && i < |h| && h[i].Broadcasted? && f in h[i].flags
    requires forall j :: i < j < |h| ==> !h[j].Registered?
    ensures f in Unread(h) || exists j :: i < j < |h| && h[j].Fetched? && f in h[j].flags
    decreases |h|
  {
    var m := |h| - 1;
    var front := h[..m];
    if i < m {
      forall k | 0 <= k < m && front[k].Fetched? ensures FetchedAll(front[..k], front[k].flags) {
        assert front[..k] == h[..k];
      }
      BroadcastFetched(front, i, f);
      if f in Unread(front) {
        if h[m].Fetched? {
          assert FetchedAll(h[..m], h[m].flags);
        }
      } else {
        var j :| i < j < |front| && front[j].Fetched? && f in front[j].flags;
        assert h[j] == front[j];
      }
    }
  }

  /** An unread flag comes from a broadcast after the last fetch and after registration. */
  lemma {:induction false} UnreadOrigin(h: seq<Happening>, f: nat) returns (i: nat)
    requires f in Unread(h)
    ensures i < |h| && h[i].Broadcasted? && f in h[i].flags
    ensures forall j :: i < j < |h| ==> !h[j].Fetched? && !h[j].Registered?
    decreases |h|
  {
    var m := |h| - 1;
    if h[m].Broadcasted? && f in h[m].flags {
      i := m;
    } else {
      i := UnreadOrigin(h[..m], f);
    }
  }

  /**
   In every interleaving: unread flags mean that a wake-up is pending or the loop is about to fetch; a
   flag broadcast after registration is unread or was fetched later; when the loop sleeps with nothing
   pending, every such flag has been fetched.
   */
  lemma NoFlagLost(steps: seq<Step>, i: nat, f: nat)
    ensures var s := Run(steps); s.flags != {} ==> s.pending || s.pc == Woken
    ensures var s := Run(steps); var h := s.history;
      i < |h| && h[i].Broadcasted? && f in h[i].flags && Listening(h[..i]) ==>
        && (f in s.flags || exists j :: i < j < |h| && h[j].Fetched? && f in h[j].flags)
        && (s.pc == Waiting && !s.pending ==> exists j :: i < j < |h| && h[j].Fetched? && f in h[j].flags)
  {
    RunInv(steps);
    var h := Run(steps).history;
    if i < |h| && h[i].Broadcasted? && f in h[i].flags && Listening(h[..i]) {
      var r :| 0 <= r < i && h[r].Registered?;
      BroadcastFetched(h, i, f);
      assert Listening(h);
    }
  }

  /**
   Every fetch delivers exactly the flags broadcast since the fetch before it, and the services are called
   for exactly those flags, in the fixed order, before the next fetch.
   */
  lemma FetchIsExact(steps: seq<Step>, k: nat)
    ensures var h := Run(steps).history;
      k < |h| && h[k].Fetched? ==>
        && h[k].flags == Unread(h[..k])
        && CallsMade(h[..k]) == CallsFor(LastFetch(h[..k]))
        && forall f :: f in h[k].flags ==>
             exists i :: 0 <= i < k && h[i].Broadcasted? && f in h[i].flags
                      && forall j :: i < j < k ==> !h[j].Fetched? && !h[j].Registered?
    ensures var s := Run(steps);
      s.pc == Waiting ==> CallsMade(s.history) == CallsFor(LastFetch(s.history))
  {
    RunInv(steps);
    var h := Run(steps).history;
    if k < |h| && h[k].Fetched? {
      assert FetchedAll(h[..k], h[k].flags);
      forall f | f in h[k].flags
        ensures exists i :: 0 <= i < k && h[i].Broadcasted? && f in h[i].flags
                         && forall j :: i < j < k ==> !h[j].Fetched? && !h[j].Registered?
      {
        var i := UnreadOrigin(h[..k], f);
        assert h[i] == h[..k][i];
        forall j | i < j < k ensures !h[j].Fetched? && !h[j].Registered? {
          assert h[j] == h[..k][j];
        }
      }
    }
  }

  // ---------------------------------------------------------------- every flag is served in time

  /** The run continued from a given state. */
  function Onward(s: State, steps: seq<Step>): State {
    if steps == [] then s else Apply(Onward(s, steps[..|steps| - 1]), steps[|steps| - 1])
  }

  lemma {:induction false} RunOnward(a: seq<Step>, b: seq<Step>)
    ensures Run(a + b) == Onward(Run(a), b)
    decreases |b|
  {
    if b == [] {
      assert a + b == a;
    } else {
      RunOnward(a, b[..|b| - 1]);
      assert (a + b)[..|a + b| - 1] == a + b[..|b| - 1];
    }
  }

  function Advances(steps: seq<Step>): nat {
    if steps == [] then 0 else Advances(steps[..|steps| - 1]) + if steps[|steps| - 1].Advance? then 1 else 0
  }

  /** The loop is registered as soon as it has taken a step. */
  lemma {:induction false} RegisteredIff(steps: seq<Step>)
    ensures Run(steps).pc != Starting <==> Advances(steps) > 0
    decreases |steps|
  {
    if steps != [] {
      RegisteredIff(steps[..|steps| - 1]);
    }
  }

  /** Entry `k` fetches flag `f`. */
  predicate Fetches(h: seq<Happening>, k: nat, f: nat) {
    k < |h| && h[k].Fetched? && f in h[k].flags
  }

  /** The services that flag `f` concerns have been called after entry `k`. */
  predicate Served(h: seq<Happening>, k: nat, f: nat) {
    && (f == EMERGENCY_CHANGED ==> exists m :: k < m < |h| && h[m] == Called(EmergencyChanged))
    && (f == INPUTS_CHANGED ==> exists m :: k < m < |h| - 1 && h[m] == Called(InputsChanged) && h[m + 1] == Called(CheckInputs))
  }

  /** After the first `i` entries flag `f` was fetched and its services were called. */
  ghost predicate Done(h: seq<Happening>, i: nat, f: nat) {
    exists k: nat :: i <= k && Fetches(h, k, f) && Served(h, k, f)
  }

  predicate Underway(s: State, k: nat, f: nat, n: nat) {
    match s.pc
    case Emergency(got) => n == 2 && f in got
    case Inputs(got) =>
      && n == 1 && f in got
      && (f == EMERGENCY_CHANGED ==> exists m :: k < m < |s.history| && s.history[m] == Called(EmergencyChanged))
    case _ => false
  }

  /** Flag `f` has been fetched and its calls are under way, with `n` steps of the loop to go. */
  ghost predicate Serving(s: State, i: nat, f: nat, n: nat) {
    exists k: nat :: i <= k && Fetches(s.history, k, f) && Underway(s, k, f, n)
  }

  /** Flag `f` is not fetched yet, with `n` steps of the loop to go until its services have been called. */
  predicate Unfetched(s: State, f: nat, n: nat) {
    && f in s.flags
    && match s.pc
       case Starting => false
       case Waiting => s.pending && n == 4
       case Woken => n == 3
       case Emergency(_) => s.pending && n == 6
       case Inputs(_) => s.pending && n == 5
  }

  /** Flag `f`, broadcast before entry `i` of the history, is served after at most `n` more steps of the loop. */
  ghost predicate Due(s: State, i: nat, f: nat, n: nat) {
    && i <= |s.history|
    && (Unfetched(s, f, n) || Serving(s, i, f, n) || (n == 0 && Done(s.history, i, f)))
  }

  lemma ServedPersists(h: seq<Happening>, h': seq<Happening>, k: nat, f: nat)
    requires h <= h' && Fetches(h, k, f)
    ensures Fetches(h', k, f) && (Served(h, k, f) ==> Served(h', k, f))
  {
    assert forall m :: 0 <= m < |h| ==> h'[m] == h[m];
  }

  lemma DonePersists(h: seq<Happening>, h': seq<Happening>, i: nat, f: nat)
    requires h <= h' && Done(h, i, f)
    ensures Done(h', i, f)
  {
    var k: nat :| i <= k && Fetches(h, k, f) && Served(h, k, f);
    ServedPersists(h, h', k, f);
  }

  lemma HistoryGrows(s: State, e: Step)
    ensures s.history <= Apply(s, e).history
  {
  }

  lemma UnfetchedStep(s: State, e: Step, i: nat, f: nat, n: nat)
    requires Inv(s) && i <= |s.history| && Unfetched(s, f, n)
    ensures Due(Apply(s, e), i, f, if e.Advance? then n - 1 else n)
  {
    var s' := Apply(s, e);
    HistoryGrows(s, e);
    if e.Advance? && s.pc == Woken {
      assert Fetches(s'.history, |s.history|, f) && Underway(s', |s.history|, f, 2);
    }
  }

  /** The two steps that call the services. */
  lemma CallsFollow(s: State, k: nat, f: nat)
    requires Fetches(s.history, k, f) && (Underway(s, k, f, 2) || Underway(s, k, f, 1))
    ensures var s' := Apply(s, Advance);
      if s.pc.Emergency? then Underway(s', k, f, 1) else Served(s'.history, k, f)
  {
    var h, h' := s.history, Apply(s, Advance).history;
    assert forall m :: 0 <= m < |h| ==> h'[m] == h[m];
    if s.pc.Emergency? {
      if f == EMERGENCY_CHANGED {
        assert h'[|h|] == Called(EmergencyChanged);
      }
    } else if f == INPUTS_CHANGED {
      assert h'[|h|] == Called(InputsChanged) && h'[|h| + 1] == Called(CheckInputs);
    }
  }

  lemma ServingStep(s: State, e: Step, i: nat, f: nat, n: nat)
    requires i <= |s.history| && Serving(s, i, f, n)
    ensures Due(Apply(s, e), i, f, if e.Advance? then n - 1 else n)
  {
    var s' := Apply(s, e);
    HistoryGrows(s, e);
    var k: nat :| i <= k && Fetches(s.history, k, f) && Underway(s, k, f, n);
    ServedPersists(s.history, s'.history, k, f);
    assert forall m :: 0 <= m < |s.history| ==> s'.history[m] == s.history[m];
    if e.Advance? {
      CallsFollow(s, k, f);
    } else {
      assert Underway(s', k, f, n);
    }
  }

  function Fewer(n: nat, e: Step): nat {
    if e.Advance? && n > 0 then n - 1 else n
  }

  lemma DueStep(s: State, e: Step, i: nat, f: nat, n: nat)
    requires Inv(s) && Due(s, i, f, n)
    ensures Due(Apply(s, e), i, f, Fewer(n, e))
  {
    if Unfetched(s, f, n) {
      UnfetchedStep(s, e, i, f, n);
    } else if Serving(s, i, f, n) {
      ServingStep(s, e, i, f, n);
    } else {
      HistoryGrows(s, e);
      DonePersists(s.history, Apply(s, e).history, i, f);
    }
  }

  lemma {:induction false} DueRun(s: State, steps: seq<Step>, i: nat, f: nat, n: nat)
    requires Inv(s) && Due(s, i, f, n)
    ensures Inv(Onward(s, steps))
    ensures Due(Onward(s, steps), i, f, if Advances(steps) < n then n - Advances(steps) else 0)
    decreases |steps|
  {
    if steps != [] {
      var front, e := steps[..|steps| - 1], steps[|steps| - 1];
      DueRun(s, front, i, f, n);
      StepInv(Onward(s, front), e);
      DueStep(Onward(s, front), e, i, f, if Advances(front) < n then n - Advances(front) else 0);
    }
  }

  /**
   Progress over runs: once the loop is registered, a flag that is broadcast is fetched and its services are called
   within six steps of the loop, whatever is broadcast before, in between and afterwards.
   */
  lemma FlagServed(before: seq<Step>, fs: Flags, after: seq<Step>, f: nat)
    requires Advances(before) > 0 && f in fs && Advances(after) >= 6
    ensures Done(Run(before + [Broadcast(fs)] + after).history, |Run(before).history| + 1, f)
  {
    var s, i := Run(before + [Broadcast(fs)]), |Run(before).history| + 1;
    RegisteredIff(before);
    RunInv(before);
    RunInv(before + [Broadcast(fs)]);
    assert (before + [Broadcast(fs)])[..|before|] == before;
    var n := match s.pc case Woken => 3 case Emergency(_) => 6 case Inputs(_) => 5 case _ => 4;
    assert Unfetched(s, f, n);
    DueRun(s, after, i, f, n);
    RunOnward(before + [Broadcast(fs)], after);
  }

  // ---------------------------------------------------------------- the loop sleeps otherwise

  /** Step `j` of the run wakes the loop. */
  predicate WakesAt(steps: seq<Step>, j: nat) {
    j < |steps| && Run(steps[..j]).pc == Waiting && Run(steps[..j + 1]).pc == Woken
  }

  /** Step `i` is a broadcast to the registered loop, and the loop has not woken since. */
  ghost predicate SinceWake(steps: seq<Step>, i: nat) {
    && i < |steps| && steps[i].Broadcast? && Run(steps[..i]).pc != Starting
    && forall j :: i < j < |steps| ==> !WakesAt(steps, j)
  }

  lemma WakesFront(front: seq<Step>, e: Step, j: nat)
    requires j < |front|
    ensures WakesAt(front + [e], j) <==> WakesAt(front, j)
  {
    assert (front + [e])[..j] == front[..j] && (front + [e])[..j + 1] == front[..j + 1];
  }

  /** An earlier broadcast still counts unless the new step wakes the loop. */
  lemma SinceWakeSnoc(front: seq<Step>, e: Step, i: nat)
    requires i < |front|
    ensures SinceWake(front + [e], i) <==> SinceWake(front, i) && !WakesAt(front + [e], |front|)
  {
    var steps := front + [e];
    assert steps[..i] == front[..i];
    forall j | 0 <= j < |front| ensures WakesAt(steps, j) <==> WakesAt(front, j) {
      WakesFront(front, e, j);
    }
  }

  lemma LastStep(front: seq<Step>, e: Step)
    ensures var steps, s := front + [e], Run(front);
      && Run(steps) == Apply(s, e)
      && (WakesAt(steps, |front|) <==> s.pc == Waiting && Apply(s, e).pc == Woken)
      && (SinceWake(steps, |front|) <==> e.Broadcast? && s.pc != Starting)
  {
    var steps := front + [e];
    assert steps[..|front|] == front && steps[..|front| + 1] == steps;
  }

  /** The thread's event is pending exactly when a broadcast came since the last wake-up. */
  lemma {:induction false} PendingIff(steps: seq<Step>)
    ensures Run(steps).pending <==> exists i: nat :: SinceWake(steps, i)
    decreases |steps|
  {
    if steps != [] {
      var front, e := steps[..|steps| - 1], steps[|steps| - 1];
      assert steps == front + [e];
      PendingIff(front);
      RunInv(front);
      LastStep(front, e);
      forall i: nat | i < |front| ensures SinceWake(steps, i) <==> SinceWake(front, i) && !WakesAt(steps, |front|) {
        SinceWakeSnoc(front, e, i);
      }
      if Run(steps).pending && !SinceWake(steps, |front|) {
        var i: nat :| SinceWake(front, i);
        assert SinceWake(steps, i);
      }
    }
  }

  /** A waiting loop wakes at its next step iff something was broadcast since its last wake-up; otherwise it sleeps on. */
  lemma WakesIffBroadcast(steps: seq<Step>)
    requires Run(steps).pc == Waiting
    ensures WakesAt(steps + [Advance], |steps|) <==> exists i: nat :: SinceWake(steps, i)
    ensures (forall i: nat :: !SinceWake(steps, i)) ==> Run(steps + [Advance]) == Run(steps)
  {
    PendingIff(steps);
    LastStep(steps, Advance);
  }
}
