/** Requests with a timeout (`call_usbd_ex` and `on_usbd_complete`, libusb/src/driver/libusb_driver.c). The caller may
    cancel a request while the bus is completing it. A lock word on the caller's stack, changed only by atomic
    exchanges, decides which side finishes the request. Any number of requests are in flight, each with its own lock;
    every step is one exchange, one call into the I/O manager, or one return from a wait. */
module IrpLock {
  import opened Bytes

  datatype Lock = Cancelable | CancelStarted | CancelComplete | Completed

  /** The caller: inside IoCallDriver, in its timed wait, past the timeout, about to call IoCancelIrp, past it, about
      to finish the request itself, in its second wait, and back from `call_usbd_ex`. */
  datatype Caller =
    | Calling | Waiting | TimedOut | Cancelling | Cancelled | Completing | WaitingAgain | Returned(timedOut: bool)

  /** The other side: the bus owns the request, the completion routine runs, it told the I/O manager to stop
      (STATUS_MORE_PROCESSING_REQUIRED) or to go on, and the I/O manager has finished the request. */
  datatype Completion = OnBus | InRoutine | Withheld | PassedOn | Done

  datatype Side = ByCaller | ByManager

  /** `finishers` lists who finished the request; finishing sets the caller's event. */
  datatype Request = Request(lock: Lock, caller: Caller, completion: Completion, finishers: seq<Side>, event: bool)

  datatype Action =
    | CallReturns(pending: bool)
    | Timeout
    | CallerStep
    | BusCompletes
    | RoutineExchanges
    | ManagerFinishes

  function NewRequest(): Request {
    Request(Cancelable, Calling, OnBus, [], false)
  }

  function Finish(q: Request, side: Side): Request {
    q.(finishers := q.finishers + [side], event := true)
  }

  function CallerMove(q: Request): Option<Request> {
    match q.caller
    case Waiting => if q.event then Some(q.(caller := Returned(false))) else None
    case TimedOut =>
      Some(q.(lock := CancelStarted, caller := if q.lock == Cancelable then Cancelling else WaitingAgain))
    case Cancelling => Some(q.(caller := Cancelled))
    case Cancelled =>
      Some(q.(lock := CancelComplete, caller := if q.lock == Completed then Completing else WaitingAgain))
    case Completing => Some(Finish(q, ByCaller).(caller := WaitingAgain))
    case WaitingAgain => if q.event then Some(q.(caller := Returned(true))) else None
    case Calling => None
    case Returned(_) => None
  }

  function Move(q: Request, a: Action): Option<Request> {
    match a
    case CallReturns(pending) =>
      if q.caller != Calling then None
      else if pending then Some(q.(caller := Waiting))
      else if q.event then Some(q.(caller := Returned(false)))
      else None
    case Timeout => if q.caller == Waiting then Some(q.(caller := TimedOut)) else None
    case CallerStep => CallerMove(q)
    case BusCompletes => if q.completion == OnBus then Some(q.(completion := InRoutine)) else None
    case RoutineExchanges =>
      if q.completion == InRoutine then
        Some(q.(lock := Completed, completion := if q.lock == CancelStarted then Withheld else PassedOn))
      else None
    case ManagerFinishes =>
      if q.completion == PassedOn then Some(Finish(q, ByManager).(completion := Done)) else None
  }

  datatype Step = Submit | Act(id: nat, action: Action)

  function Apply(s: seq<Request>, e: Step): Option<seq<Request>> {
    match e
    case Submit => Some(s + [NewRequest()])
    case Act(id, a) =>
      if id >= |s| then None
      else match Move(s[id], a)
        case None => None
        case Some(q) => Some(s[id := q])
  }

  function Run(steps: seq<Step>): Option<seq<Request>> {
    if steps == [] then Some([])
    else match Run(steps[..|steps| - 1])
      case None => None
      case Some(s) => Apply(s, steps[|steps| - 1])
  }

  // ----- the invariant -----

  /** Who has finished the request, read off the completion side. */
  predicate FinishedAsSeen(q: Request) {
    && q.event == (q.finishers != [])
    && (q.completion in {OnBus, InRoutine, PassedOn} ==> q.finishers == [])
    && (q.completion == Done ==> q.finishers == [ByManager])
    && (q.completion == Withheld ==>
          q.finishers == if q.caller == WaitingAgain || q.caller.Returned? then [ByCaller] else [])
  }

  /** What the lock word and the caller's progress say about the completion side. */
  predicate LockMeans(q: Request) {
    var early := q.completion in {OnBus, InRoutine};
    match q.caller
    case Calling => q.lock == (if early then Cancelable else Completed) && q.completion != Withheld
    case Waiting => q.lock == (if early then Cancelable else Completed) && q.completion != Withheld
    case TimedOut => q.lock == (if early then Cancelable else Completed) && q.completion != Withheld
    case Cancelling => q.lock == (if early then CancelStarted else Completed) && q.completion !in {PassedOn, Done}
    case Cancelled => q.lock == (if early then CancelStarted else Completed) && q.completion !in {PassedOn, Done}
    case Completing => q.completion == Withheld
    case WaitingAgain => early ==> q.lock == CancelComplete
    case Returned(timedOut) => q.completion == Done || (timedOut && q.completion == Withheld)
  }

  predicate Inv(q: Request) {
    FinishedAsSeen(q) && LockMeans(q)
  }

  lemma MoveInv(q: Request, a: Action)
    requires Inv(q) && Move(q, a).Some?
    ensures Inv(Move(q, a).value)
  {}

  lemma {:induction false} RunInv(steps: seq<Step>)
    requires Run(steps).Some?
    ensures forall i :: 0 <= i < |Run(steps).value| ==> Inv(Run(steps).value[i])
    decreases |steps|
  {
    if steps != [] {
      RunInv(steps[..|steps| - 1]);
      var s, e := Run(steps[..|steps| - 1]).value, steps[|steps| - 1];
      if e.Act? {
        MoveInv(s[e.id], e.action);
      }
    }
  }

  // ----- the results -----

  /** Each request is finished at most once, by the caller exactly when the completion routine withheld it, and before
      `call_usbd_ex` returns. */
  lemma FinishedOnce(steps: seq<Step>, i: nat)
    requires Run(steps).Some? && i < |Run(steps).value|
    ensures var q := Run(steps).value[i];
            && |q.finishers| <= 1
            && (q.caller.Returned? ==> |q.finishers| == 1)
            && (ByCaller in q.finishers ==> q.completion == Withheld)
            && (ByManager in q.finishers ==> q.completion == Done)
  {
    RunInv(steps);
  }

  /** IoCancelIrp and the caller's IoCompleteRequest never see a finished request. */
  lemma CallerTouchesLiveRequest(steps: seq<Step>, i: nat)
    requires Run(steps).Some? && i < |Run(steps).value|
    requires Run(steps).value[i].caller in {Cancelling, Completing}
    ensures Run(steps).value[i].finishers == []
  {
    RunInv(steps);
  }

  /** The completion routine never touches the lock word after `call_usbd_ex` has returned: by then its exchange is
      behind it, and it never runs again. */
  lemma RoutineTouchesLiveLock(steps: seq<Step>, i: nat)
    requires Run(steps).Some? && i < |Run(steps).value|
    requires Move(Run(steps).value[i], RoutineExchanges).Some? || Move(Run(steps).value[i], BusCompletes).Some?
    ensures !Run(steps).value[i].caller.Returned?
  {
    RunInv(steps);
  }

  /** Neither side leaves the request to the other: a caller that has to wait waits for a completion side that can
      still move, and a request that nothing can move any more is finished and returned. */
  lemma NobodyIsForgotten(steps: seq<Step>, i: nat)
    requires Run(steps).Some? && i < |Run(steps).value|
    ensures var q := Run(steps).value[i];
            && (q.caller in {Waiting, WaitingAgain} && !q.event ==> q.completion in {OnBus, InRoutine, PassedOn})
            && ((forall a :: Move(q, a).None?) <==> q.caller.Returned?)
  {
    RunInv(steps);
    var q := Run(steps).value[i];
    if !q.caller.Returned? {
      if q.caller == Calling {
        assert Move(q, CallReturns(true)).Some?;
      } else if q.caller == Waiting {
        assert Move(q, Timeout).Some?;
      } else if q.caller != WaitingAgain || q.event {
        assert Move(q, CallerStep).Some?;
      } else if q.completion == OnBus {
        assert Move(q, BusCompletes).Some?;
      } else if q.completion == InRoutine {
        assert Move(q, RoutineExchanges).Some?;
      } else {
        assert Move(q, ManagerFinishes).Some?;
      }
    }
  }

  // ----- the answer of the call, and when it cancels -----

  /** What the caller's place says about its timeout. */
  predicate TimeoutSeen(c: Caller, timeout: bool) {
    match c
    case Calling => !timeout
    case Waiting => !timeout
    case Returned(timedOut) => timeout == timedOut
    case _ => timeout
  }

  lemma MoveTimeout(q: Request, a: Action, timeout: bool)
    requires Move(q, a).Some? && TimeoutSeen(q.caller, timeout)
    ensures TimeoutSeen(Move(q, a).value.caller, timeout || a == Timeout)
  {}

  lemma {:induction false} TimeoutCounts(steps: seq<Step>, i: nat)
    requires Run(steps).Some?
    ensures if i < |Run(steps).value| then TimeoutSeen(Run(steps).value[i].caller, Act(i, Timeout) in steps)
            else Act(i, Timeout) !in steps
    decreases |steps|
  {
    if steps != [] {
      var before, e := steps[..|steps| - 1], steps[|steps| - 1];
      assert steps == before + [e];
      TimeoutCounts(before, i);
      var s := Run(before).value;
      if e.Act? && e.id == i {
        MoveTimeout(s[i], e.action, Act(i, Timeout) in before);
      }
      hide Move, TimeoutSeen;
    }
  }

  /** `call_usbd_ex` answers that it timed out if and only if its wait did. */
  lemma AnswerIsExact(steps: seq<Step>, i: nat)
    requires Run(steps).Some? && i < |Run(steps).value| && Run(steps).value[i].caller.Returned?
    ensures Run(steps).value[i].caller.timedOut <==> Act(i, Timeout) in steps
  {
    TimeoutCounts(steps, i);
  }

  /** Who exchanged the lock word of request `i` first. */
  function FirstToExchange(steps: seq<Step>, i: nat): Option<Side>
    requires Run(steps).Some?
  {
    if steps == [] then None
    else
      var before, e := steps[..|steps| - 1], steps[|steps| - 1];
      if FirstToExchange(before, i).Some? then FirstToExchange(before, i)
      else if e == Act(i, RoutineExchanges) then Some(ByManager)
      else if e == Act(i, CallerStep) && i < |Run(before).value| && Run(before).value[i].caller == TimedOut then
        Some(ByCaller)
      else None
  }

  /** How often IoCancelIrp has been called for request `i`. */
  function Cancels(steps: seq<Step>, i: nat): nat
    requires Run(steps).Some?
  {
    if steps == [] then 0
    else
      var before, e := steps[..|steps| - 1], steps[|steps| - 1];
      Cancels(before, i)
      + if e == Act(i, CallerStep) && i < |Run(before).value| && Run(before).value[i].caller == Cancelling then 1 else 0
  }

  predicate CancelSeen(q: Request, first: Option<Side>, cancels: nat) {
    && (first == None ==> q.completion in {OnBus, InRoutine})
    && (match q.caller
        case Cancelling => first == Some(ByCaller) && cancels == 0
        case Cancelled => first == Some(ByCaller) && cancels == 1
        case Completing => first == Some(ByCaller) && cancels == 1
        case WaitingAgain => first.Some? && cancels == (if first.value == ByCaller then 1 else 0)
        case Returned(_) => first.Some? && cancels == (if first.value == ByCaller then 1 else 0)
        case _ => cancels == 0 && first == (if q.completion in {OnBus, InRoutine} then None else Some(ByManager)))
  }

  lemma MoveCancels(q: Request, a: Action, first: Option<Side>, cancels: nat)
    requires Inv(q) && Move(q, a).Some? && CancelSeen(q, first, cancels)
    ensures CancelSeen(Move(q, a).value,
                       if first.Some? then first
                       else if a == RoutineExchanges then Some(ByManager)
                       else if a == CallerStep && q.caller == TimedOut then Some(ByCaller)
                       else None,
                       cancels + if a == CallerStep && q.caller == Cancelling then 1 else 0)
  {}

  lemma NothingExchanged(steps: seq<Step>, i: nat)
    requires Run(steps).Some? && steps != []
    ensures var before, e := steps[..|steps| - 1], steps[|steps| - 1];
            && Run(before).Some? && Apply(Run(before).value, e) == Run(steps)
            && (!(e.Act? && e.id == i) ==>
                  FirstToExchange(steps, i) == FirstToExchange(before, i) && Cancels(steps, i) == Cancels(before, i))
  {}

  lemma {:induction false} CancelCounts(steps: seq<Step>, i: nat)
    requires Run(steps).Some?
    ensures if i < |Run(steps).value| then
              CancelSeen(Run(steps).value[i], FirstToExchange(steps, i), Cancels(steps, i))
            else FirstToExchange(steps, i) == None && Cancels(steps, i) == 0
    decreases |steps|
  {
    if steps != [] {
      var before, e := steps[..|steps| - 1], steps[|steps| - 1];
      NothingExchanged(steps, i);
      CancelCounts(before, i);
      RunInv(before);
      var s := Run(before).value;
      if e.Act? && e.id == i {
        MoveCancels(s[i], e.action, FirstToExchange(before, i), Cancels(before, i));
      }
      hide Move, CancelSeen, Inv;
      NewCancels();
    }
  }

  lemma NewCancels()
    ensures CancelSeen(NewRequest(), None, 0)
  {}

  /** A request is cancelled at most once, and once the call has returned exactly if the caller exchanged the lock word
      before the completion routine did. */
  lemma CancelsExactly(steps: seq<Step>, i: nat)
    requires Run(steps).Some? && i < |Run(steps).value|
    ensures Cancels(steps, i) <= 1
    ensures Run(steps).value[i].caller.Returned? ==>
              (Cancels(steps, i) == 1 <==> FirstToExchange(steps, i) == Some(ByCaller))
  {
    CancelCounts(steps, i);
  }

  // ----- every request returns -----

  function CallerWork(c: Caller): nat {
    match c
    case Calling => 7 case Waiting => 6 case TimedOut => 5 case Cancelling => 4 case Cancelled => 3
    case Completing => 2 case WaitingAgain => 1 case Returned(_) => 0
  }

  function CompletionWork(c: Completion): nat {
    match c
    case OnBus => 3 case InRoutine => 2 case PassedOn => 1 case Withheld => 0 case Done => 0
  }

  function OwnSteps(steps: seq<Step>, i: nat): nat {
    if steps == [] then 0
    else
      var last := steps[|steps| - 1];
      OwnSteps(steps[..|steps| - 1], i) + (if last.Act? && last.id == i then 1 else 0)
  }

  /** A request takes at most ten steps, whatever happens to the others. */
  lemma {:induction false} TenSteps(steps: seq<Step>, i: nat)
    requires Run(steps).Some?
    ensures i < |Run(steps).value| ==>
              OwnSteps(steps, i) + CallerWork(Run(steps).value[i].caller)
                + CompletionWork(Run(steps).value[i].completion) <= 10
    ensures i >= |Run(steps).value| ==> OwnSteps(steps, i) == 0
    decreases |steps|
  {
    if steps != [] {
      TenSteps(steps[..|steps| - 1], i);
    }
  }
}
