/** The remove lock (libusb/src/driver/libusb_driver.c): a use counter that starts at 1, a pending flag and a
    notification event. Any number of threads run interleaved; each step is one interlocked operation, one read or
    write of the flag, or one operation on the event. Clients acquire first and release only what they acquired, as
    `dispatch_pnp` and `dispatch_power` do; one of them, at most, removes the device. */
module RemoveLock {
  import opened Bytes

  /** Where a thread stands. The first row is `remove_lock_acquire` and `remove_lock_release`, where `Setting` means
      that its decrement reached zero; the second is `remove_lock_release_and_wait`. */
  datatype Pc =
    | Idle | Incremented | BackingOut | Setting(refused: bool) | Refused | Holding
    | Marked | FirstSetting | HalfReleased | SecondSetting | Waiting | Removed

  /** `remover` is the thread that set the pending flag. */
  datatype State = State(count: int, event: bool, remover: Option<nat>, threads: seq<Pc>)

  predicate Pending(s: State) {
    s.remover.Some?
  }

  datatype Step =
    | Spawn
    | Advance(thread: nat)          // the next step of the thread
    | Remove(thread: nat)           // a holder sets the pending flag
    | ReleaseRefused(thread: nat)   // releases although its acquire failed (the early exit of dispatch_ioctl)

  function Initial(): State {
    State(1, false, None, [])
  }

  function Goto(s: State, i: nat, pc: Pc): State
    requires i < |s.threads|
  {
    s.(threads := s.threads[i := pc])
  }

  /** `InterlockedDecrement`, which sends the thread to `zero` when the result is zero and to `other` if not. */
  function Decrement(s: State, i: nat, zero: Pc, other: Pc): State
    requires i < |s.threads|
  {
    Goto(s, i, if s.count - 1 == 0 then zero else other).(count := s.count - 1)
  }

  function AdvanceThread(s: State, i: nat): Option<State>
    requires i < |s.threads|
  {
    match s.threads[i]
    case Idle => Some(Goto(s, i, Incremented).(count := s.count + 1))
    case Incremented => Some(Goto(s, i, if Pending(s) then BackingOut else Holding))
    case BackingOut => Some(Decrement(s, i, Setting(true), Refused))
    case Setting(refused) => Some(Goto(s, i, if refused then Refused else Idle).(event := true))
    case Refused => Some(Goto(s, i, Idle))
    case Holding => Some(Decrement(s, i, Setting(false), Idle))
    case Marked => Some(Decrement(s, i, FirstSetting, HalfReleased))
    case FirstSetting => Some(Goto(s, i, HalfReleased).(event := true))
    case HalfReleased => Some(Decrement(s, i, SecondSetting, Waiting))
    case SecondSetting => Some(Goto(s, i, Waiting).(event := true))
    case Waiting => if s.event then Some(Goto(s, i, Removed)) else None
    case Removed => None
  }

  function Apply(s: State, e: Step): Option<State> {
    match e
    case Spawn => Some(s.(threads := s.threads + [Idle]))
    case Advance(i) => if i < |s.threads| then AdvanceThread(s, i) else None
    case Remove(i) =>
      if i < |s.threads| && s.threads[i] == Holding && !Pending(s) then Some(Goto(s, i, Marked).(remover := Some(i)))
      else None
    case ReleaseRefused(i) =>
      if i < |s.threads| && s.threads[i] == Refused then Some(Decrement(s, i, Setting(false), Idle)) else None
  }

  function Run(steps: seq<Step>): Option<State> {
    if steps == [] then Some(Initial())
    else match Run(steps[..|steps| - 1])
      case None => None
      case Some(s) => Apply(s, steps[|steps| - 1])
  }

  predicate Disciplined(steps: seq<Step>) {
    forall e :: e in steps ==> !e.ReleaseRefused?
  }

  // ----- what the counter counts -----

  /** How many of the counter's units are this thread's. Until the device is being removed, one more unit belongs to
      nobody; setting the flag makes it the remover's. */
  function Units(pc: Pc): nat {
    match pc
    case Incremented => 1 case BackingOut => 1 case Holding => 1
    case Marked => 2 case FirstSetting => 1 case HalfReleased => 1
    case _ => 0
  }

  function TotalUnits(ts: seq<Pc>): nat {
    if ts == [] then 0 else TotalUnits(ts[..|ts| - 1]) + Units(ts[|ts| - 1])
  }

  lemma {:induction false} UnitsAfter(ts: seq<Pc>, i: nat, pc: Pc)
    requires i < |ts|
    ensures TotalUnits(ts[i := pc]) == TotalUnits(ts) - Units(ts[i]) + Units(pc)
    ensures TotalUnits(ts) >= Units(ts[i])
    decreases |ts|
  {
    var n := |ts| - 1;
    if i < n {
      UnitsAfter(ts[..n], i, pc);
      assert ts[i := pc][..n] == ts[..n][i := pc];
    } else {
      assert ts[i := pc][..n] == ts[..n];
    }
  }

  lemma {:induction false} NoUnits(ts: seq<Pc>)
    requires TotalUnits(ts) == 0
    ensures forall j :: 0 <= j < |ts| ==> Units(ts[j]) == 0
    decreases |ts|
  {
    if ts != [] {
      NoUnits(ts[..|ts| - 1]);
    }
  }

  lemma {:induction false} SomeUnits(ts: seq<Pc>) returns (j: nat)
    requires TotalUnits(ts) > 0
    ensures j < |ts| && Units(ts[j]) > 0
    decreases |ts|
  {
    if Units(ts[|ts| - 1]) > 0 {
      j := |ts| - 1;
    } else {
      j := SomeUnits(ts[..|ts| - 1]);
    }
  }

  // ----- the invariant -----

  predicate IsRemoving(pc: Pc) {
    pc in {Marked, FirstSetting, HalfReleased, SecondSetting, Waiting, Removed}
  }

  predicate IsSetting(pc: Pc) {
    pc.Setting? || pc in {FirstSetting, SecondSetting}
  }

  /** The remover has done both its releases. */
  predicate BothReleased(s: State) {
    s.remover.Some? && s.remover.value < |s.threads|
    && s.threads[s.remover.value] in {SecondSetting, Waiting, Removed}
  }

  /** Nobody holds the lock, and nobody can get it any more. */
  predicate Drained(s: State) {
    BothReleased(s) && forall j :: 0 <= j < |s.threads| ==> s.threads[j] != Holding
  }

  /** The counter counts the units, and one thread at most is the remover. */
  predicate Counted(s: State) {
    && s.count == TotalUnits(s.threads) + (if Pending(s) then 0 else 1)
    && (forall j :: 0 <= j < |s.threads| ==> (IsRemoving(s.threads[j]) <==> s.remover == Some(j)))
    && (s.remover.Some? ==> s.remover.value < |s.threads|)
  }

  /** The event is set, or about to be, only when the lock is drained, and the remover passes only then. */
  predicate Safe(s: State) {
    && (s.event ==> Drained(s))
    && (forall j :: 0 <= j < |s.threads| && IsSetting(s.threads[j]) ==> Drained(s))
    && (forall j :: 0 <= j < |s.threads| && s.threads[j] == Removed ==> s.event)
  }

  /** Once the counter is down to zero for good, the event is set or somebody is about to set it. */
  predicate Awake(s: State) {
    BothReleased(s) && s.count == 0 ==> s.event || exists j :: 0 <= j < |s.threads| && IsSetting(s.threads[j])
  }

  predicate Inv(s: State) {
    Counted(s) && Safe(s) && Awake(s)
  }

  lemma AdvanceMoves(s: State, i: nat)
    requires i < |s.threads| && AdvanceThread(s, i).Some?
    ensures var r := AdvanceThread(s, i).value;
            && r.remover == s.remover && r.threads == s.threads[i := r.threads[i]]
            && IsRemoving(r.threads[i]) == IsRemoving(s.threads[i])
            && r.count - s.count == Units(r.threads[i]) - Units(s.threads[i])
  {}

  lemma StepCounted(s: State, e: Step)
    requires Counted(s) && !e.ReleaseRefused? && Apply(s, e).Some?
    ensures Counted(Apply(s, e).value)
  {
    var r := Apply(s, e).value;
    match e {
      case Spawn => assert r.threads[..|s.threads|] == s.threads;
      case Remove(i) => UnitsAfter(s.threads, i, Marked);
      case Advance(i) =>
        AdvanceMoves(s, i);
        UnitsAfter(s.threads, i, r.threads[i]);
    }
  }

  lemma StepSafe(s: State, e: Step)
    requires Inv(s) && !e.ReleaseRefused? && Apply(s, e).Some?
    ensures Safe(Apply(s, e).value)
  {
    var r := Apply(s, e).value;
    StepCounted(s, e);
    if r.count == 0 {
      ZeroDrains(r);
    }
    if Drained(s) {
      StaysDrained(s, e);
    }
    StepEvents(s, e);
    hide Drained, Apply, Counted, Awake;
  }

  /** The event is set, and passed, only by threads on their way to it. */
  lemma StepEvents(s: State, e: Step)
    requires Counted(s) && !e.ReleaseRefused? && Apply(s, e).Some?
    ensures var r := Apply(s, e).value;
            && (r.event ==> s.event || exists j :: 0 <= j < |s.threads| && IsSetting(s.threads[j]))
            && (s.event ==> r.event)
            && (forall j :: 0 <= j < |r.threads| && IsSetting(r.threads[j]) ==>
                  r.count == 0 || (j < |s.threads| && IsSetting(s.threads[j])))
            && (forall j :: 0 <= j < |r.threads| && r.threads[j] == Removed ==>
                  r.event || (j < |s.threads| && s.threads[j] == Removed))
  {
    var r := Apply(s, e).value;
    forall j | 0 <= j < |r.threads| && IsSetting(r.threads[j])
      ensures r.count == 0 || (j < |s.threads| && IsSetting(s.threads[j]))
    {}
  }

  /** A counter at zero finds the device pending, both of the remover's units gone, and no holder. */
  lemma ZeroDrains(s: State)
    requires Counted(s) && s.count == 0
    ensures Drained(s)
  {
    NoUnits(s.threads);
    assert IsRemoving(s.threads[s.remover.value]);
  }

  lemma StaysDrained(s: State, e: Step)
    requires Counted(s) && Drained(s) && Apply(s, e).Some?
    ensures Drained(Apply(s, e).value)
  {
    var r := Apply(s, e).value;
    assert IsRemoving(s.threads[s.remover.value]);
    assert r.remover == s.remover;
    forall j | 0 <= j < |r.threads| ensures r.threads[j] != Holding {
      if j < |s.threads| {
        assert s.threads[j] != Holding;
      }
    }
  }

  lemma StepAwake(s: State, e: Step)
    requires Inv(s) && !e.ReleaseRefused? && Apply(s, e).Some?
    ensures Awake(Apply(s, e).value)
  {
    var r := Apply(s, e).value;
    StepCounted(s, e);
    if BothReleased(r) && r.count == 0 && !r.event {
      if e.Advance? && r.count != s.count {
        assert IsSetting(r.threads[e.thread]);
      } else {
        assert BothReleased(s);
        var j :| 0 <= j < |s.threads| && IsSetting(s.threads[j]);
        assert r.threads[j] == s.threads[j];
      }
    }
  }

  lemma {:induction false} RunInv(steps: seq<Step>)
    requires Disciplined(steps) && Run(steps).Some?
    ensures Inv(Run(steps).value)
    decreases |steps|
  {
    if steps != [] {
      var before, e := steps[..|steps| - 1], steps[|steps| - 1];
      assert e in steps;
      RunInv(before);
      StepCounted(Run(before).value, e);
      StepSafe(Run(before).value, e);
      StepAwake(Run(before).value, e);
    }
  }

  // ----- the results -----

  /** When `remove_lock_release_and_wait` has returned, no thread holds the lock. */
  lemma RemovalIsSafe(steps: seq<Step>, i: nat)
    requires Disciplined(steps) && Run(steps).Some?
    requires i < |Run(steps).value.threads| && Run(steps).value.threads[i] == Removed
    ensures forall j :: 0 <= j < |Run(steps).value.threads| ==> Run(steps).value.threads[j] != Holding
  {
    RunInv(steps);
  }

  /** And none ever holds it again, however the run goes on. */
  lemma {:induction false} RemovalIsFinal(steps: seq<Step>, more: seq<Step>, i: nat)
    requires Disciplined(steps + more) && Run(steps).Some? && Run(steps + more).Some?
    requires i < |Run(steps).value.threads| && Run(steps).value.threads[i] == Removed
    ensures Drained(Run(steps + more).value)
    decreases |more|
  {
    if more == [] {
      assert steps + more == steps;
      RunInv(steps);
    } else {
      var shorter, e := more[..|more| - 1], more[|more| - 1];
      assert (steps + more)[..|steps + more| - 1] == steps + shorter;
      assert steps + more == (steps + shorter) + [e];
      RemovalIsFinal(steps, shorter, i);
      RunInv(steps + shorter);
      StaysDrained(Run(steps + shorter).value, e);
    }
  }

  /** No lost wake-up: while the remover waits in vain, some other thread holds the lock or is in the middle of an
      acquire or a release; so once all of them are done, the event is set. */
  lemma NoLostWakeUp(steps: seq<Step>, i: nat)
    requires Disciplined(steps) && Run(steps).Some?
    requires i < |Run(steps).value.threads| && Run(steps).value.threads[i] == Waiting
    ensures var s := Run(steps).value;
            s.event || exists j :: 0 <= j < |s.threads| && j != i
                        && (s.threads[j] in {Incremented, BackingOut, Holding} || s.threads[j].Setting?)
  {
    RunInv(steps);
    var s := Run(steps).value;
    assert IsRemoving(s.threads[i]);
    if !s.event {
      if s.count == 0 {
        var j :| 0 <= j < |s.threads| && IsSetting(s.threads[j]);
        assert j != i;
        assert !IsRemoving(s.threads[j]);
      } else {
        var j := SomeUnits(s.threads);
        assert j != i;
        assert !IsRemoving(s.threads[j]);
      }
    }
  }

  /** Every thread except the waiting remover can always take its next step, and a refused acquire is one that
      found the device pending. */
  lemma OnlyTheRemoverWaits(s: State, i: nat)
    requires i < |s.threads|
    ensures AdvanceThread(s, i).None? <==> s.threads[i] == Removed || (s.threads[i] == Waiting && !s.event)
  {}

  // ----- what an acquire answers -----

  /** How often thread i has found the device pending after counting itself in. */
  function FoundPending(steps: seq<Step>, i: nat): nat
    requires Run(steps).Some?
  {
    if steps == [] then 0
    else
      var before, e := steps[..|steps| - 1], steps[|steps| - 1];
      var s := Run(before).value;
      FoundPending(before, i)
      + if e == Advance(i) && i < |s.threads| && s.threads[i] == Incremented && Pending(s) then 1 else 0
  }

  /** How often it has been told that its acquire was refused. */
  function Refusals(steps: seq<Step>, i: nat): nat
    requires Run(steps).Some?
  {
    if steps == [] then 0
    else
      var before, e := steps[..|steps| - 1], steps[|steps| - 1];
      Refusals(before, i)
      + if e == Advance(i) && i < |Run(steps).value.threads| && Run(steps).value.threads[i] == Refused then 1 else 0
  }

  /** It is on its way to be told. */
  function Untold(s: State, i: nat): nat {
    if i < |s.threads| && s.threads[i] in {BackingOut, Setting(true)} then 1 else 0
  }

  lemma StepTells(s: State, e: Step, i: nat)
    requires Apply(s, e).Some?
    ensures var r := Apply(s, e).value;
            Untold(s, i)
            + (if e == Advance(i) && i < |s.threads| && s.threads[i] == Incremented && Pending(s) then 1 else 0)
            == Untold(r, i) + (if e == Advance(i) && i < |r.threads| && r.threads[i] == Refused then 1 else 0)
  {}

  lemma RunsBefore(steps: seq<Step>)
    requires Run(steps).Some? && steps != []
    ensures var before := steps[..|steps| - 1];
            Run(before).Some? && Apply(Run(before).value, steps[|steps| - 1]) == Run(steps)
  {}

  /** Every acquire that finds the device pending is refused, once, and no other is. */
  lemma {:induction false} RefusedExactly(steps: seq<Step>, i: nat)
    requires Run(steps).Some?
    ensures FoundPending(steps, i) == Refusals(steps, i) + Untold(Run(steps).value, i)
    decreases |steps|
  {
    if steps != [] {
      var before, e := steps[..|steps| - 1], steps[|steps| - 1];
      RunsBefore(steps);
      RefusedExactly(before, i);
      StepTells(Run(before).value, e, i);
      hide Run, Apply, Untold;
    }
  }

  // ----- the discipline is needed -----

  predicate Leads(s: State, e: Step, r: State) {
    && Apply(s, e).Some?
    && var x := Apply(s, e).value;
       x.count == r.count && x.event == r.event && x.remover == r.remover && x.threads == r.threads
  }

  /** The states that some steps lead through. */
  lemma {:induction false} RunAlong(before: seq<Step>, steps: seq<Step>, states: seq<State>)
    requires |states| == |steps| + 1 && Run(before) == Some(states[0])
    requires forall k :: 0 <= k < |steps| ==> Leads(states[k], steps[k], states[k + 1])
    ensures Run(before + steps) == Some(states[|steps|])
    decreases |steps|
  {
    var n := |steps| - 1;
    if steps == [] {
      assert before + steps == before;
    } else {
      RunAlong(before, steps[..n], states[..|steps|]);
      assert (before + steps)[..|before + steps| - 1] == before + steps[..n];
      assert Leads(states[n], steps[n], states[|steps|]);
    }
  }

  function RefusedReleases(steps: seq<Step>): nat {
    if steps == [] then 0
    else RefusedReleases(steps[..|steps| - 1]) + (if steps[|steps| - 1].ReleaseRefused? then 1 else 0)
  }

  /** In every run, disciplined or not, the counter falls short of the units that are owned by the number of releases
      after a refused acquire. */
  lemma {:induction false} CounterFallsShort(steps: seq<Step>)
    requires Run(steps).Some?
    ensures var s := Run(steps).value;
            s.count + RefusedReleases(steps) == TotalUnits(s.threads) + (if Pending(s) then 0 else 1)
    decreases |steps|
  {
    if steps != [] {
      var before, e := steps[..|steps| - 1], steps[|steps| - 1];
      CounterFallsShort(before);
      var s, r := Run(before).value, Run(steps).value;
      assert Apply(s, e) == Some(r);
      hide Run, RefusedReleases;
      StepCounts(s, e);
      LastRefused(steps);
    }
  }

  lemma LastRefused(steps: seq<Step>)
    requires steps != []
    ensures RefusedReleases(steps)
            == RefusedReleases(steps[..|steps| - 1]) + (if steps[|steps| - 1].ReleaseRefused? then 1 else 0)
  {}

  lemma StepCounts(s: State, e: Step)
    requires Apply(s, e).Some?
    ensures var r := Apply(s, e).value;
            r.count - s.count + (if e.ReleaseRefused? then 1 else 0)
            == TotalUnits(r.threads) - TotalUnits(s.threads)
               + (if Pending(r) then 0 else 1) - (if Pending(s) then 0 else 1)
  {
    var r := Apply(s, e).value;
    match e {
      case Spawn => assert r.threads[..|s.threads|] == s.threads;
      case Remove(i) => UnitsAfter(s.threads, i, Marked);
      case ReleaseRefused(i) => UnitsAfter(s.threads, i, r.threads[i]);
      case Advance(i) =>
        AdvanceMoves(s, i);
        UnitsAfter(s.threads, i, r.threads[i]);
    }
  }

  /** A thread whose acquire was refused releases all the same: the remover passes while another thread holds the
      lock. Threads 0 and 1 acquire, 1 removes the device and waits, 2 is refused, releases and sets the event. */
  lemma DisciplineIsNeeded()
    ensures exists steps: seq<Step> ::
              Run(steps).Some? && !Disciplined(steps) && Run(steps).value.threads == [Holding, Removed, Idle]
  {
    var removing := [Spawn, Spawn, Spawn, Advance(0), Advance(0), Advance(1), Advance(1), Remove(1), Advance(1),
                     Advance(1)];
    var refused := [Advance(2), Advance(2), Advance(2), ReleaseRefused(2), Advance(2), Advance(1)];
    hide Run;
    RemoverWaits(removing);
    RefusedThenPassed(removing, refused);
    assert refused[3] in removing + refused;
  }

  lemma RefusedThenPassed(before: seq<Step>, steps: seq<Step>)
    requires Run(before) == Some(State(1, false, Some(1), [Holding, Waiting, Idle]))
    requires steps == [Advance(2), Advance(2), Advance(2), ReleaseRefused(2), Advance(2), Advance(1)]
    ensures Run(before + steps) == Some(State(0, true, Some(1), [Holding, Removed, Idle]))
  {
    var t := (count: int, event: bool, threads: seq<Pc>) => State(count, event, Some(1), threads);
    RunAlong(before, steps,
      [t(1, false, [Holding, Waiting, Idle]), t(2, false, [Holding, Waiting, Incremented]),
       t(2, false, [Holding, Waiting, BackingOut]), t(1, false, [Holding, Waiting, Refused]),
       t(0, false, [Holding, Waiting, Setting(false)]), t(0, true, [Holding, Waiting, Idle]),
       t(0, true, [Holding, Removed, Idle])]);
  }

  lemma RemoverWaits(steps: seq<Step>)
    requires steps == [Spawn, Spawn, Spawn, Advance(0), Advance(0), Advance(1), Advance(1), Remove(1), Advance(1),
                       Advance(1)]
    ensures Run(steps) == Some(State(1, false, Some(1), [Holding, Waiting, Idle]))
  {
    var s := (count: int, threads: seq<Pc>) => State(count, false, None, threads);
    var t := (count: int, threads: seq<Pc>) => State(count, false, Some(1), threads);
    RunAlong([], steps,
      [s(1, []), s(1, [Idle]), s(1, [Idle, Idle]), s(1, [Idle, Idle, Idle]),
       s(2, [Incremented, Idle, Idle]), s(2, [Holding, Idle, Idle]),
       s(3, [Holding, Incremented, Idle]), s(3, [Holding, Holding, Idle]),
       t(3, [Holding, Marked, Idle]), t(2, [Holding, HalfReleased, Idle]), t(1, [Holding, Waiting, Idle])]);
    assert [] + steps == steps;
  }

  // ----- when a refused release does harm -----

  /** No thread holds the lock while the remover has returned. */
  predicate LockSafe(s: State) {
    (exists j :: 0 <= j < |s.threads| && s.threads[j] == Removed) ==> NoHolder(s)
  }

  predicate NoHolder(s: State) {
    forall j :: 0 <= j < |s.threads| ==> s.threads[j] != Holding
  }

  predicate WasRefused(pc: Pc) {
    pc in {BackingOut, Setting(true), Refused}
  }

  /** Only a device being removed refuses. */
  lemma {:induction false} RefusedIsPending(steps: seq<Step>, i: nat)
    requires Run(steps).Some? && i < |Run(steps).value.threads| && WasRefused(Run(steps).value.threads[i])
    ensures Pending(Run(steps).value)
    decreases |steps|
  {
    if steps != [] {
      var before, e := steps[..|steps| - 1], steps[|steps| - 1];
      var s, r := Run(before).value, Run(steps).value;
      assert Apply(s, e) == Some(r);
      if i < |s.threads| && WasRefused(s.threads[i]) {
        RefusedIsPending(before, i);
      }
      hide Run;
      PendingStays(s, e);
      RefusedNow(s, e, i);
    }
  }

  lemma PendingStays(s: State, e: Step)
    requires Apply(s, e).Some?
    ensures Pending(s) ==> Pending(Apply(s, e).value) && Apply(s, e).value.remover == s.remover
  {}

  lemma RefusedNow(s: State, e: Step, i: nat)
    requires Apply(s, e).Some? && i < |Apply(s, e).value.threads| && WasRefused(Apply(s, e).value.threads[i])
    ensures Pending(s) || (i < |s.threads| && WasRefused(s.threads[i]))
  {}

  /** A device being removed that nobody holds stays so, whatever the threads do. */
  lemma {:induction false} StaysUnheld(before: seq<Step>, more: seq<Step>)
    requires Run(before).Some? && Pending(Run(before).value) && NoHolder(Run(before).value)
    requires Run(before + more).Some?
    ensures Pending(Run(before + more).value) && NoHolder(Run(before + more).value)
    decreases |more|
  {
    if more == [] {
      assert before + more == before;
    } else {
      var shorter, e := more[..|more| - 1], more[|more| - 1];
      assert before + more == (before + shorter) + [e];
      assert (before + more)[..|before + more| - 1] == before + shorter;
      StaysUnheld(before, shorter);
      var s := Run(before + shorter).value;
      assert Apply(s, e) == Run(before + more);
      hide Run;
      UnheldNext(s, e);
    }
  }

  lemma UnheldNext(s: State, e: Step)
    requires Pending(s) && NoHolder(s) && Apply(s, e).Some?
    ensures Pending(Apply(s, e).value) && NoHolder(Apply(s, e).value)
  {}

  // With thread j holding the lock, everybody else can be drained until the remover passes.

  /** Thread j holds the lock, and the counter is one short. */
  predicate Short(s: State, j: nat) {
    && s.remover.Some? && s.remover.value < |s.threads| && IsRemoving(s.threads[s.remover.value])
    && j < |s.threads| && s.threads[j] == Holding
    && s.count + 1 == TotalUnits(s.threads)
    && (s.count == 0 ==> s.event || exists k :: 0 <= k < |s.threads| && IsSetting(s.threads[k]))
  }

  /** The steps that a thread may still take before it is idle or has passed. */
  function Work(pc: Pc): nat {
    match pc
    case Incremented => 4 case BackingOut => 3 case Setting(_) => 1 case Holding => 2
    case Marked => 6 case FirstSetting => 5 case HalfReleased => 4 case SecondSetting => 3 case Waiting => 2
    case _ => 0
  }

  function TotalWork(ts: seq<Pc>): nat {
    if ts == [] then 0 else TotalWork(ts[..|ts| - 1]) + Work(ts[|ts| - 1])
  }

  lemma {:induction false} WorkAfter(ts: seq<Pc>, i: nat, pc: Pc)
    requires i < |ts|
    ensures TotalWork(ts[i := pc]) == TotalWork(ts) - Work(ts[i]) + Work(pc)
    decreases |ts|
  {
    var n := |ts| - 1;
    if i < n {
      WorkAfter(ts[..n], i, pc);
      assert ts[i := pc][..n] == ts[..n][i := pc];
    } else {
      assert ts[i := pc][..n] == ts[..n];
    }
  }

  /** Thread k can do some of its work. */
  predicate CanWork(s: State, j: nat, k: nat) {
    k < |s.threads| && k != j && Work(s.threads[k]) > 0 && (s.threads[k] == Waiting ==> s.event)
  }

  lemma WorkingKeepsShort(s: State, j: nat, k: nat)
    requires Short(s, j) && CanWork(s, j, k)
    ensures AdvanceThread(s, k).Some?
    ensures var r := AdvanceThread(s, k).value;
            Short(r, j) && TotalWork(r.threads) < TotalWork(s.threads)
  {
    OnlyTheRemoverWaits(s, k);
    AdvanceMoves(s, k);
    var r := AdvanceThread(s, k).value;
    UnitsAfter(s.threads, k, r.threads[k]);
    WorkAfter(s.threads, k, r.threads[k]);
    WorkGoesDown(s, k);
    hide TotalUnits, TotalWork;
    if r.count == 0 && !r.event {
      if s.count == 0 {
        var x :| 0 <= x < |s.threads| && IsSetting(s.threads[x]);
        assert r.threads[x] == s.threads[x];
      } else {
        assert IsSetting(r.threads[k]);
      }
    }
  }

  lemma WorkGoesDown(s: State, k: nat)
    requires k < |s.threads| && Work(s.threads[k]) > 0 && AdvanceThread(s, k).Some?
    requires s.threads[k] == Incremented ==> Pending(s)
    ensures Work(AdvanceThread(s, k).value.threads[k]) < Work(s.threads[k])
  {}

  lemma {:induction false} ZeroUnits(ts: seq<Pc>)
    requires forall k :: 0 <= k < |ts| ==> Units(ts[k]) == 0
    ensures TotalUnits(ts) == 0
    decreases |ts|
  {
    if ts != [] {
      ZeroUnits(ts[..|ts| - 1]);
    }
  }

  /** When nobody else can work any more, the remover has passed. */
  lemma AllDone(s: State, j: nat)
    requires Short(s, j) && forall k :: 0 <= k < |s.threads| ==> !CanWork(s, j, k)
    ensures s.threads[s.remover.value] == Removed
  {
    var others := s.threads[j := Idle];
    forall k | 0 <= k < |others| ensures Units(others[k]) == 0 {
      assert !CanWork(s, j, k);
    }
    ZeroUnits(others);
    UnitsAfter(s.threads, j, Idle);
    assert s.count == 0;
    if !s.event {
      var k :| 0 <= k < |s.threads| && IsSetting(s.threads[k]);
      assert CanWork(s, j, k);
    }
    assert !CanWork(s, j, s.remover.value);
  }

  lemma RunOneMore(before: seq<Step>, e: Step)
    requires Run(before).Some?
    ensures Run(before + [e]) == Apply(Run(before).value, e)
  {
    assert (before + [e])[..|before + [e]| - 1] == before;
  }

  lemma HeldThoughPassed(s: State, i: nat, j: nat)
    requires i < |s.threads| && s.threads[i] == Removed && j < |s.threads| && s.threads[j] == Holding
    ensures !LockSafe(s)
  {}

  lemma DisciplinedMore(i: nat, rest: seq<Step>)
    requires Disciplined(rest)
    ensures Disciplined([Advance(i)] + rest)
  {}

  lemma ShortIs(s: State, j: nat)
    requires Short(s, j)
    ensures s.remover.Some? && s.remover.value < |s.threads| && j < |s.threads| && s.threads[j] == Holding
  {}

  lemma AdvanceIs(s: State, k: nat)
    requires k < |s.threads|
    ensures Apply(s, Advance(k)) == AdvanceThread(s, k)
  {}

  lemma CanWorkIs(s: State, j: nat, k: nat)
    requires CanWork(s, j, k)
    ensures k < |s.threads|
  {}

  lemma {:induction false} DrainOthers(before: seq<Step>, j: nat) returns (more: seq<Step>)
    requires Run(before).Some? && Short(Run(before).value, j)
    ensures Disciplined(more) && Run(before + more).Some? && !LockSafe(Run(before + more).value)
    decreases TotalWork(Run(before).value.threads)
  {
    hide *;
    var s := Run(before).value;
    if k: nat :| CanWork(s, j, k) {
      CanWorkIs(s, j, k);
      WorkingKeepsShort(s, j, k);
      RunOneMore(before, Advance(k));
      AdvanceIs(s, k);
      var rest := DrainOthers(before + [Advance(k)], j);
      more := [Advance(k)] + rest;
      assert before + more == (before + [Advance(k)]) + rest;
      DisciplinedMore(k, rest);
    } else {
      ShortIs(s, j);
      AllDone(s, j);
      more := [];
      assert before + more == before;
      HeldThoughPassed(s, s.remover.value, j);
      NothingDisciplined();
    }
  }

  lemma NothingDisciplined()
    ensures Disciplined([])
  {}

  /** A lock in use keeps its event unset; a refused release then leaves the counter short. */
  lemma RefusedReleaseLeavesShort(s: State, i: nat, j: nat)
    requires Counted(s) && Safe(s) && Pending(s) && i < |s.threads| && s.threads[i] == Refused
    requires j < |s.threads| && s.threads[j] == Holding
    ensures Short(Apply(s, ReleaseRefused(i)).value, j)
  {
    var r := Apply(s, ReleaseRefused(i)).value;
    UnitsAfter(s.threads, i, r.threads[i]);
    assert IsRemoving(s.threads[s.remover.value]);
    assert !Drained(s);
    if r.count == 0 {
      assert IsSetting(r.threads[i]) || s.count == 1;
    }
    UnitsAfter(s.threads, j, Idle);
    assert r.threads[s.remover.value] == s.threads[s.remover.value];
  }

  /** The exact condition, in every disciplined run: when a thread whose acquire was refused releases all the same, the
      lock stays safe, however the run goes on without another such release, if and only if nobody holds it. */
  lemma RefusedReleaseIsExact(steps: seq<Step>, i: nat)
    requires Disciplined(steps) && Run(steps).Some?
    requires i < |Run(steps).value.threads| && Run(steps).value.threads[i] == Refused
    ensures (forall more :: var all := steps + [ReleaseRefused(i)] + more;
                            Disciplined(more) && Run(all).Some? ==> LockSafe(Run(all).value))
            <==> NoHolder(Run(steps).value)
  {
    var s, e := Run(steps).value, ReleaseRefused(i);
    var before := steps + [e];
    assert before[..|before| - 1] == steps;
    assert Run(before) == Apply(s, e);
    RunInv(steps);
    RefusedIsPending(steps, i);
    if NoHolder(s) {
      UnheldNext(s, e);
      forall more | Disciplined(more) && Run(before + more).Some? ensures LockSafe(Run(before + more).value) {
        StaysUnheld(before, more);
      }
    } else {
      var j: nat :| j < |s.threads| && s.threads[j] == Holding;
      RefusedReleaseLeavesShort(s, i, j);
      var more := DrainOthers(before, j);
      assert !LockSafe(Run(before + more).value);
    }
  }
}
