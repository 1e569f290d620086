/** The driver's transfers of module TransferProtocol against the split transfer of module SplitTransfer: when a request,
    with its completions interleaved with everything else, comes to what its chunks in a row come to. */
module SplitRuns {
  import opened Bytes
  import PipeTable
  import opened SplitTransfer
  import opened TransferProtocol

  // ----- what stops a transfer early -----

  /** A completion that would go on finds the flag taken, another request pending, or no memory for the next chunk. */
  predicate StopsAt(c: Cell, t: Transfer, a: Action) {
    && a.Completer?
    && ((t.completer == Trying && c.busy)
        || (t.completer == CompleterPc.Took && !(c.pending == t.sequence && a.mdl)))
  }

  predicate Stops(s: State, e: Step, i: nat)
    requires Shaped(s)
  {
    e.Act? && e.id == i && i < |s.transfers| && StopsAt(s.cells[s.transfers[i].address], s.transfers[i], e.action)
  }

  ghost predicate Stopped(steps: seq<Step>, states: seq<State>, i: nat, n: nat)
    requires Behavior(steps, states) && n < |states|
  {
    exists k :: 0 <= k < n && Stops(states[k], steps[k], i)
  }

  lemma StoppedNext(steps: seq<Step>, states: seq<State>, i: nat, n: nat)
    requires Behavior(steps, states) && 0 < n < |states|
    ensures Stopped(steps, states, i, n) <==> Stopped(steps, states, i, n - 1) || Stops(states[n - 1], steps[n - 1], i)
  {
    hide Apply, Stops;
  }

  // ----- reading -----

  /** What a request has received, what its endpoint has not answered yet, and how its last chunk ended. */
  datatype Track = Track(received: seq<byte>, stream: seq<BusEvent>, status: Status)

  function Delivered(x: Track): Outcome {
    Outcome(x.status, x.received, x.stream)
  }

  /** The bus ends a chunk as one request block on the endpoint ends, and not while the endpoint is silent. */
  function Answered(t: Transfer, a: Action, x: Track): Option<Track> {
    if !a.Bus? then Some(x)
    else
      var o := RunUrb(x.stream, t.urbLength, t.mps);
      if o.status == Waiting || (a.irp && a.urb) != (o.status == Success) then None
      else if o.status == Success && a.length != |o.data| then None
      else Some(Track(x.received + o.data, o.rest, o.status))
  }

  predicate Tracks(s: State, e: Step, i: nat, x: Track, y: Track) {
    if e.Act? && e.id == i && i < |s.transfers| then Answered(s.transfers[i], e.action, x) == Some(y) else y == x
  }

  /** A run in which the chunks of request `i` are answered from `stream`. */
  ghost predicate Tracked(steps: seq<Step>, states: seq<State>, tracks: seq<Track>, i: nat, stream: seq<BusEvent>) {
    && Behavior(steps, states) && |tracks| == |states|
    && tracks[0] == Track([], stream, Success)
    && forall k :: 0 <= k < |steps| ==> Tracks(states[k], steps[k], i, tracks[k], tracks[k + 1])
  }

  predicate GoingOn(t: Transfer) {
    t.completer in {Unsent, InFlight, Trying, CompleterPc.Took, CompleterPc.Ready}
  }

  /** The split transfer from the start, seen from here. */
  ghost predicate FollowsSplit(t: Transfer, x: Track, stopped: bool, stream: seq<BusEvent>)
    requires t.mps > 0 && t.mts > 0
  {
    var goal := SplitRead(stream, t.requested, t.mps, t.mts);
    var further := After(x.received, x.stream, t.totalLength, t.mps, t.mts);
    && |x.received| == t.information
    && if GoingOn(t) then !stopped && goal == further
       else if stopped then x.status == Success && t.totalLength > 0 && goal == further
       else t.completer != Clearing && goal == Delivered(x)
  }

  /** The last chunk has ended well if its completion means to go on. */
  predicate EndedWell(t: Transfer, x: Track) {
    t.completer in {Trying, CompleterPc.Took, CompleterPc.Ready} ==> x.status == Success
  }

  ghost predicate Follows(t: Transfer, x: Track, stopped: bool, stream: seq<BusEvent>) {
    t.mps > 0 && t.mts > 0 && FollowsSplit(t, x, stopped, stream) && EndedWell(t, x)
  }

  lemma SubmitterFollows(c: Cell, t: Transfer, p: Preparation, x: Track, stopped: bool, stream: seq<BusEvent>)
    requires SubmitterMove(c, t, p).Some? && Follows(t, x, stopped, stream) && (NotSentYet(t) <==> t.completer == Unsent)
    ensures Follows(SubmitterMove(c, t, p).value.transfer, x, stopped, stream)
  {
    hide SplitRead, After, SameRequest;
    match t.submitter {
      case Numbered => case Took => case Armed => case Ready => case Tail =>
      case UndoBusy => case UndoContext => case UndoLock => case UndoIrp =>
    }
  }

  lemma CompleterFollows(c: Cell, t: Transfer, mdl: bool, x: Track, stopped: bool, stream: seq<BusEvent>)
    requires CompleterMove(c, t, mdl).Some? && Follows(t, x, stopped, stream)
    requires t.completer in {Trying, CompleterPc.Took} ==> t.totalLength > 0
    ensures Follows(CompleterMove(c, t, mdl).value.transfer, x, stopped || StopsAt(c, t, Completer(mdl)), stream)
  {
    hide SplitRead, After, SameRequest;
    match t.completer {
      case Trying => case Took => case Ready =>
      case Clearing => case Freeing => case Releasing => case Finishing =>
    }
  }

  /** The decision at the end of a chunk is the one that the split transfer makes. */
  lemma BusFollows(c: Cell, t: Transfer, a: Action, x: Track, y: Track, stopped: bool, stream: seq<BusEvent>)
    requires t.bulk && t.urbLength == Min(t.totalLength, t.mts) && a.Bus? && Follows(t, x, stopped, stream)
    requires BusMove(c, t, a.irp, a.urb, a.length).Some? && Answered(t, a, x) == Some(y)
    ensures Follows(BusMove(c, t, a.irp, a.urb, a.length).value.transfer, y, stopped, stream)
  {
    AfterChunk(x.received, x.stream, t.totalLength, t.mps, t.mts);
    hide SplitRead, After, RunUrb, SameRequest;
  }

  lemma AnsweredLater(t: Transfer, a: Action, x: Track)
    requires !a.Bus?
    ensures Answered(t, a, x) == Some(x)
  {}

  lemma NeverStopsAt(c: Cell, t: Transfer, a: Action)
    requires !a.Completer?
    ensures !StopsAt(c, t, a)
  {}

  lemma MoveFollows(c: Cell, t: Transfer, a: Action, x: Track, y: Track, stopped: bool, stream: seq<BusEvent>)
    requires Accounts(t) && t.bulk && Move(c, t, a).Some? && Answered(t, a, x) == Some(y)
    requires Follows(t, x, stopped, stream)
    ensures Follows(Move(c, t, a).value.transfer, y, stopped || StopsAt(c, t, a), stream)
  {
    hide SubmitterMove, CompleterMove, Answered, Follows, FollowsSplit, StopsAt, RunUrb;
    if !a.Bus? {
      AnsweredLater(t, a, x);
    }
    if !a.Completer? {
      NeverStopsAt(c, t, a);
    }
    match a {
      case Submitter(p) => SubmitterFollows(c, t, p, x, stopped, stream);
      case Bus(_, _, _) => BusFollows(c, t, a, x, y, stopped, stream);
      case Completer(mdl) => CompleterFollows(c, t, mdl, x, stopped, stream);
      case ClearTail => TailFollows(t, x, stopped, stream);
    }
  }

  lemma TailFollows(t: Transfer, x: Track, stopped: bool, stream: seq<BusEvent>)
    requires Follows(t, x, stopped, stream)
    ensures Follows(t.(tail := false), x, stopped, stream)
  {
    hide SplitRead, After;
  }

  ghost predicate RunFollows(s: State, x: Track, i: nat, stopped: bool, stream: seq<BusEvent>) {
    if i < |s.transfers| then
      var t := s.transfers[i];
      t.bulk ==> Follows(t, x, stopped, stream)
    else x == Track([], stream, Success) && !stopped
  }

  lemma StepFollows(s: State, e: Step, i: nat, x: Track, y: Track, stopped: bool, stream: seq<BusEvent>)
    requires Shaped(s) && Inv(s) && Apply(s, e).Some? && Tracks(s, e, i, x, y) && RunFollows(s, x, i, stopped, stream)
    ensures RunFollows(Apply(s, e).value, y, i, stopped || Stops(s, e, i), stream)
  {
    hide Follows, Answered, Move, StopsAt, Exclusive, LatestIsPending, InSequence, Contiguous, Disjoint;
    if i < |s.transfers| {
      assert Sound(s, i);
      var t := s.transfers[i];
      if e.Act? && e.id == i {
        MoveKeeps(s.cells[t.address], t, e.action);
        if t.bulk {
          MoveFollows(s.cells[t.address], t, e.action, x, y, stopped, stream);
        }
      }
    } else if e.Begin? && i == |s.transfers| {
      NewFollows(|s.transfers| + 1, e, stream);
    }
  }

  lemma NewFollows(sequence: int, e: Step, stream: seq<BusEvent>)
    requires e.Begin? && e.mps > 0 && e.mts > 0
    ensures var t := NewTransfer(sequence, e.address, e.bulk, e.mps, e.mts, e.length);
            Follows(t, Track([], stream, Success), false, stream)
  {
    hide SplitRead;
    var o := SplitRead(stream, e.length, e.mps, e.mts);
    assert [] + o.data == o.data;
  }

  lemma {:induction false} Following(steps: seq<Step>, states: seq<State>, tracks: seq<Track>, i: nat,
                                     stream: seq<BusEvent>, n: nat)
    requires Tracked(steps, states, tracks, i, stream) && n < |states|
    ensures RunFollows(states[n], tracks[n], i, Stopped(steps, states, i, n), stream)
    decreases n
  {
    hide RunFollows, Stops, Apply, Inv, Tracks;
    if n > 0 {
      Following(steps, states, tracks, i, stream, n - 1);
      Invariant(steps, states, n - 1);
      StoppedNext(steps, states, i, n);
      var s, e := states[n - 1], steps[n - 1];
      assert Apply(s, e) == Some(states[n]) && Tracks(s, e, i, tracks[n - 1], tracks[n]);
      StepFollows(s, e, i, tracks[n - 1], tracks[n], Stopped(steps, states, i, n - 1), stream);
    } else {
      NothingYet(i, tracks[0], stream);
    }
  }

  lemma NothingYet(i: nat, x: Track, stream: seq<BusEvent>)
    requires x == Track([], stream, Success)
    ensures RunFollows(Initial(), x, i, false, stream)
  {}

  // ----- a transfer that stops early is not the split transfer -----

  predicate Decided(t: Transfer) {
    t.completer in {Freeing, Releasing, Finishing, Finished}
  }

  /** The exact condition, in every run, whatever else goes on: a request whose last chunk is over has received what the
      split transfer delivers, answers taken and status included, if and only if no completion of it stopped early. What
      it has received otherwise is the first part of that. */
  lemma SplitExactly(steps: seq<Step>, states: seq<State>, tracks: seq<Track>, i: nat, stream: seq<BusEvent>, n: nat)
    requires Tracked(steps, states, tracks, i, stream) && n < |states| && i < |states[n].transfers|
    requires states[n].transfers[i].bulk && Decided(states[n].transfers[i])
    ensures var t := states[n].transfers[i];
            && t.mps > 0 && t.mts > 0 && |tracks[n].received| == t.information
            && (Delivered(tracks[n]) == SplitRead(stream, t.requested, t.mps, t.mts) <==> !Stopped(steps, states, i, n))
            && (Stopped(steps, states, i, n) ==>
                  SplitRead(stream, t.requested, t.mps, t.mts)
                  == Prepend(tracks[n].received, SplitRead(tracks[n].stream, t.totalLength, t.mps, t.mts)))
  {
    hide Behavior, Stopped, SplitRead;
    Following(steps, states, tracks, i, stream, n);
    var t, x := states[n].transfers[i], tracks[n];
    if Stopped(steps, states, i, n) {
      SplitConsumes(x.stream, t.totalLength, t.mps, t.mts);
    }
  }

  /** What stopped early agrees with no split transfer and, where splitting means what one request means, with no single
      request. */
  lemma SingleExactly(steps: seq<Step>, states: seq<State>, tracks: seq<Track>, i: nat, stream: seq<BusEvent>, n: nat)
    requires Tracked(steps, states, tracks, i, stream) && n < |states| && i < |states[n].transfers|
    requires states[n].transfers[i].bulk && Decided(states[n].transfers[i])
    requires var t := states[n].transfers[i]; t.mps > 0 && t.mts > 0 && (t.requested <= t.mts || t.mts % t.mps == 0)
    ensures var t := states[n].transfers[i];
            Agree(Delivered(tracks[n]), RunUrb(stream, t.requested, t.mps)) <==> !Stopped(steps, states, i, n)
  {
    hide Behavior, Stopped, SplitRead, RunUrb;
    Following(steps, states, tracks, i, stream, n);
    var t, x := states[n].transfers[i], tracks[n];
    SplitAgrees(stream, t.requested, t.mps, t.mts);
    if Stopped(steps, states, i, n) {
      SplitConsumes(x.stream, t.totalLength, t.mps, t.mts);
    }
  }

  /** With the default chunk size of its pipe this holds of every bulk or interrupt transfer of the driver. */
  lemma DefaultExactly(steps: seq<Step>, states: seq<State>, tracks: seq<Track>, i: nat, stream: seq<BusEvent>, n: nat,
                       kind: PipeTable.PipeType, speed: PipeTable.Speed)
    requires Tracked(steps, states, tracks, i, stream) && n < |states| && i < |states[n].transfers|
    requires states[n].transfers[i].bulk && Decided(states[n].transfers[i])
    requires kind == PipeTable.Bulk || kind == PipeTable.Interrupt
    requires var t := states[n].transfers[i];
             0 < t.mps < 0x1_0000 && t.mts == PipeTable.TransferSize(kind, speed, t.mps)
    ensures var t := states[n].transfers[i];
            Agree(Delivered(tracks[n]), RunUrb(stream, t.requested, t.mps)) <==> !Stopped(steps, states, i, n)
  {
    hide Behavior, Stopped, RunUrb, PipeTable.TransferSize, PipeTable.Largest;
    PipeTable.TransferSizeIs(kind, speed, states[n].transfers[i].mps, 0);
    SingleExactly(steps, states, tracks, i, stream, n);
  }

  // ----- what a transfer that stops early reports -----

  predicate StopAccounts(t: Transfer, stopped: bool) {
    && (t.completer in {Trying, CompleterPc.Took, CompleterPc.Ready} ==> t.ok && t.totalLength > 0)
    && (stopped ==> !GoingOn(t) && t.ok && t.totalLength > 0)
  }

  lemma SubmitterStops(c: Cell, t: Transfer, p: Preparation, stopped: bool)
    requires SubmitterMove(c, t, p).Some? && StopAccounts(t, stopped) && (NotSentYet(t) <==> t.completer == Unsent)
    ensures StopAccounts(SubmitterMove(c, t, p).value.transfer, stopped)
  {
    hide SameRequest;
    match t.submitter {
      case Numbered => case Took => case Armed => case Ready => case Tail =>
      case UndoBusy => case UndoContext => case UndoLock => case UndoIrp =>
    }
  }

  lemma CompleterStops(c: Cell, t: Transfer, mdl: bool, stopped: bool)
    requires CompleterMove(c, t, mdl).Some? && StopAccounts(t, stopped)
    ensures StopAccounts(CompleterMove(c, t, mdl).value.transfer, stopped || StopsAt(c, t, Completer(mdl)))
  {
    hide SameRequest;
    match t.completer {
      case Trying => case Took => case Ready =>
      case Clearing => case Freeing => case Releasing => case Finishing =>
    }
  }

  lemma MoveStops(c: Cell, t: Transfer, a: Action, stopped: bool)
    requires t.mps > 0 && Move(c, t, a).Some? && StopAccounts(t, stopped) && (NotSentYet(t) <==> t.completer == Unsent)
    ensures StopAccounts(Move(c, t, a).value.transfer, stopped || StopsAt(c, t, a))
  {
    hide SubmitterMove, CompleterMove, StopsAt;
    if !a.Completer? {
      NeverStopsAt(c, t, a);
    }
    match a {
      case Submitter(p) => SubmitterStops(c, t, p, stopped);
      case Bus(_, _, _) =>
      case Completer(mdl) => CompleterStops(c, t, mdl, stopped);
      case ClearTail =>
    }
  }

  predicate RunStops(s: State, i: nat, stopped: bool) {
    if i < |s.transfers| then StopAccounts(s.transfers[i], stopped) else !stopped
  }

  lemma StepStops(s: State, e: Step, i: nat, stopped: bool)
    requires Shaped(s) && Inv(s) && Apply(s, e).Some? && RunStops(s, i, stopped)
    ensures RunStops(Apply(s, e).value, i, stopped || Stops(s, e, i))
  {
    hide Move, StopAccounts, StopsAt, Exclusive, LatestIsPending, InSequence, Contiguous, Disjoint, EndsInOrder;
    if e.Act? && e.id == i {
      assert Sound(s, i);
      MoveStops(s.cells[s.transfers[i].address], s.transfers[i], e.action, stopped);
    }
    NewStops();
  }

  lemma NewStops()
    ensures forall sequence, address, bulk, mps, mts, length ::
              StopAccounts(NewTransfer(sequence, address, bulk, mps, mts, length), false)
  {}

  lemma {:induction false} StopCounts(steps: seq<Step>, states: seq<State>, i: nat, n: nat)
    requires Behavior(steps, states) && n < |states|
    ensures RunStops(states[n], i, Stopped(steps, states, i, n))
    decreases n
  {
    hide RunStops, Stops, Apply, Inv;
    if n > 0 {
      StopCounts(steps, states, i, n - 1);
      Invariant(steps, states, n - 1);
      assert Apply(states[n - 1], steps[n - 1]) == Some(states[n]);
      StoppedNext(steps, states, i, n);
      StepStops(states[n - 1], steps[n - 1], i, Stopped(steps, states, i, n - 1));
    } else {
      StartStops(states[0], i);
    }
  }

  lemma StartStops(s: State, i: nat)
    requires s == Initial()
    ensures RunStops(s, i, false)
  {}

  /** A request that stops early, be it that the flag is taken, that another is pending or that there is no memory for the
      next chunk, is reported as a success all the same, with fewer bytes than it asked for. */
  lemma StoppingIsReportedAsSuccess(steps: seq<Step>, states: seq<State>, i: nat, n: nat)
    requires Behavior(steps, states) && n < |states| && i < |states[n].transfers|
    requires Stopped(steps, states, i, n) && Over(states[n].transfers[i])
    ensures var t := states[n].transfers[i];
            t.information < t.requested && CompleteIrp(true, t.information) in t.ends
  {
    StopCounts(steps, states, i, n);
    Invariant(steps, states, n);
    SoundEnds(states[n], i);
    EndsWith(states[n].transfers[i]);
    hide Inv, Behavior, Stopped, EndsInOrder;
  }

  // ----- a request that nothing else on its endpoint disturbs -----

  /** All other requests on the endpoint are over. */
  predicate Undisturbed(s: State, i: nat)
    requires i < |s.transfers|
  {
    forall j :: 0 <= j < |s.transfers| && j != i && s.transfers[j].address == s.transfers[i].address ==>
      Over(s.transfers[j])
  }

  ghost predicate Quiet(states: seq<State>, i: nat, n: nat)
    requires n < |states|
  {
    forall k :: 0 <= k <= n && i < |states[k].transfers| ==> Undisturbed(states[k], i)
  }

  /** The completion has overtaken the call, or the completion, that submitted its chunk and has not cleared the flag
      yet. */
  predicate Overtakes(s: State, e: Step, i: nat) {
    && e.Act? && e.id == i && i < |s.transfers| && e.action.Completer?
    && s.transfers[i].completer == Trying && (s.transfers[i].submitter == SubmitterPc.Tail || s.transfers[i].tail)
  }

  predicate RunsOut(s: State, e: Step, i: nat) {
    && e.Act? && e.id == i && i < |s.transfers| && e.action.Completer?
    && s.transfers[i].completer == CompleterPc.Took && !e.action.mdl
  }

  /** The flag that a completion of an undisturbed request finds set is the request's own. */
  lemma FlagOfItsOwn(s: State, i: nat)
    requires Shaped(s) && Inv(s) && i < |s.transfers| && Undisturbed(s, i) && s.transfers[i].completer == Trying
    ensures var t := s.transfers[i];
            s.cells[t.address].busy <==> t.submitter == SubmitterPc.Tail || t.tail
  {
    var t := s.transfers[i];
    assert Sound(s, i);
    if s.cells[t.address].busy {
      var j :| 0 <= j < |s.transfers| && s.transfers[j].address == t.address && Holds(s.transfers[j]);
      if j != i {
        assert Sound(s, j) && Over(s.transfers[j]);
        OverHoldsNothing(s.transfers[j]);
      }
    }
    hide LatestIsPending, InSequence, Contiguous, Disjoint, EndsInOrder;
  }

  lemma OverHoldsNothing(t: Transfer)
    requires Accounts(t) && Over(t)
    ensures !Holds(t)
  {}

  /** From its first step with the flag on, an undisturbed request is the pending one. */
  predicate PendingOnce(s: State, i: nat)
    requires Shaped(s)
  {
    i < |s.transfers| ==>
      var t := s.transfers[i];
      Relies(t) ==> s.cells[t.address].pending == t.sequence
  }

  lemma StepPending(s: State, e: Step, i: nat)
    requires Shaped(s) && Inv(s) && Apply(s, e).Some? && PendingOnce(s, i)
    requires i < |s.transfers| ==> Undisturbed(s, i)
    ensures PendingOnce(Apply(s, e).value, i)
  {
    hide LatestIsPending, InSequence, Contiguous, Disjoint, Exclusive, EndsInOrder;
    if i < |s.transfers| && e.Act? && e.id < |s.transfers| {
      var t := s.transfers[e.id];
      assert Sound(s, e.id);
      MoveKeeps(s.cells[t.address], t, e.action);
      if e.id == i {
        MovePending(s.cells[t.address], t, e.action);
      } else {
        CanMove(s.cells[t.address], t);
      }
      hide Move, Accounts, HoldsOnce, UsesCell;
    }
  }

  /** The request relies on being the pending one from here on. */
  predicate Relies(t: Transfer) {
    t.submitter in {Armed, SubmitterPc.Ready, SubmitterPc.Tail, Returned}
  }

  lemma SubmitterPending(c: Cell, t: Transfer, p: Preparation)
    requires SubmitterMove(c, t, p).Some? && (Relies(t) ==> c.pending == t.sequence)
    ensures var m := SubmitterMove(c, t, p).value; Relies(m.transfer) ==> m.cell.pending == t.sequence
  {
    hide SameRequest;
    match t.submitter {
      case Numbered => case Took => case Armed => case Ready => case Tail =>
      case UndoBusy => case UndoContext => case UndoLock => case UndoIrp =>
    }
  }

  lemma CompleterPending(c: Cell, t: Transfer, mdl: bool)
    requires CompleterMove(c, t, mdl).Some?
    ensures var m := CompleterMove(c, t, mdl).value; m.cell.pending == c.pending && m.transfer.submitter == t.submitter
  {
    hide SameRequest;
  }

  lemma MovePending(c: Cell, t: Transfer, a: Action)
    requires t.mps > 0 && Move(c, t, a).Some? && (Relies(t) ==> c.pending == t.sequence)
    ensures var m := Move(c, t, a).value; Relies(m.transfer) ==> m.cell.pending == m.transfer.sequence
  {
    MoveKeeps(c, t, a);
    hide SubmitterMove, CompleterMove;
    match a {
      case Submitter(p) => SubmitterPending(c, t, p);
      case Bus(_, _, _) =>
      case Completer(mdl) => CompleterPending(c, t, mdl);
      case ClearTail =>
    }
  }

  lemma {:induction false} PendingOfItsOwn(steps: seq<Step>, states: seq<State>, i: nat, n: nat)
    requires Behavior(steps, states) && n < |states| && Quiet(states, i, n)
    ensures Shaped(states[n]) && PendingOnce(states[n], i)
    decreases n
  {
    Invariant(steps, states, n);
    hide Apply, Inv, PendingOnce, Undisturbed;
    if n > 0 {
      PendingOfItsOwn(steps, states, i, n - 1);
      Invariant(steps, states, n - 1);
      assert Apply(states[n - 1], steps[n - 1]) == Some(states[n]);
      StepPending(states[n - 1], steps[n - 1], i);
    } else {
      NobodyPending(states[0], i);
    }
  }

  lemma NobodyPending(s: State, i: nat)
    requires s == Initial()
    ensures PendingOnce(s, i)
  {}

  /** What stops an undisturbed request. */
  lemma StopsAlone(s: State, e: Step, i: nat)
    requires Shaped(s) && Inv(s) && PendingOnce(s, i) && (i < |s.transfers| ==> Undisturbed(s, i))
    ensures Stops(s, e, i) <==> Overtakes(s, e, i) || RunsOut(s, e, i)
  {
    hide LatestIsPending, InSequence, Contiguous, Disjoint, Exclusive, EndsInOrder, Undisturbed, UsesCell, HoldsOnce;
    if i < |s.transfers| {
      assert Sound(s, i);
      if s.transfers[i].completer == Trying {
        FlagOfItsOwn(s, i);
      }
    }
  }

  ghost predicate Outrun(steps: seq<Step>, states: seq<State>, i: nat, n: nat)
    requires |steps| <= |states| && n <= |steps|
  {
    exists k :: 0 <= k < n && (Overtakes(states[k], steps[k], i) || RunsOut(states[k], steps[k], i))
  }

  lemma StoppedAlone(steps: seq<Step>, states: seq<State>, i: nat, n: nat)
    requires Behavior(steps, states) && n < |states| && Quiet(states, i, n)
    ensures Stopped(steps, states, i, n) <==> Outrun(steps, states, i, n)
  {
    forall k | 0 <= k < n
      ensures Stops(states[k], steps[k], i) <==> Overtakes(states[k], steps[k], i) || RunsOut(states[k], steps[k], i)
    {
      Invariant(steps, states, k);
      PendingOfItsOwn(steps, states, i, k);
      StopsAlone(states[k], steps[k], i);
    }
    hide Stops, Overtakes, RunsOut, Apply;
  }

  /** The exact condition for a request that is alone with its completions: it delivers what the split transfer delivers
      if and only if no completion overtakes the one who submitted its chunk, and none runs out of memory. */
  lemma UndisturbedSplit(steps: seq<Step>, states: seq<State>, tracks: seq<Track>, i: nat, stream: seq<BusEvent>, n: nat)
    requires Tracked(steps, states, tracks, i, stream) && n < |states| && i < |states[n].transfers|
    requires states[n].transfers[i].bulk && Decided(states[n].transfers[i]) && Quiet(states, i, n)
    ensures var t := states[n].transfers[i];
            && t.mps > 0 && t.mts > 0 && |tracks[n].received| == t.information
            && (Delivered(tracks[n]) == SplitRead(stream, t.requested, t.mps, t.mts) <==> !Outrun(steps, states, i, n))
            && (t.requested <= t.mts || t.mts % t.mps == 0 ==>
                  (Agree(Delivered(tracks[n]), RunUrb(stream, t.requested, t.mps)) <==> !Outrun(steps, states, i, n)))
  {
    hide Behavior, Stopped, Outrun, SplitRead, RunUrb, Quiet;
    StoppedAlone(steps, states, i, n);
    SplitExactly(steps, states, tracks, i, stream, n);
    var t := states[n].transfers[i];
    if t.requested <= t.mts || t.mts % t.mps == 0 {
      SingleExactly(steps, states, tracks, i, stream, n);
    }
  }

  // ----- a run in which it happens -----

  /** A lone request and its endpoint can come to stand like this when its chunks are answered from `stream`. */
  ghost predicate Stands(c: Cell, t: Transfer, x: Track, stream: seq<BusEvent>) {
    exists steps: seq<Step>, states: seq<State>, tracks: seq<Track> ::
      Tracked(steps, states, tracks, 0, stream) && Alone(states[|steps|], c, t) && tracks[|steps|] == x
  }

  lemma StandsFirst(stream: seq<BusEvent>)
    ensures Stands(Cell(false, 0), NewTransfer(1, 0x81, true, 64, 64, 128), Track([], stream, Success), stream)
  {
    var e := Begin(0x81, true, 64, 64, 128);
    var x := Track([], stream, Success);
    var steps, states, tracks := [e], [Initial(), Apply(Initial(), e).value], [x, x];
    assert Tracked(steps, states, tracks, 0, stream);
    assert Alone(states[|steps|], Cell(false, 0), NewTransfer(1, 0x81, true, 64, 64, 128)) && tracks[|steps|] == x;
  }

  lemma StandsNext(c: Cell, t: Transfer, a: Action, x: Track, y: Track, stream: seq<BusEvent>)
    requires Stands(c, t, x, stream) && t.mps > 0 && Move(c, t, a).Some? && Answered(t, a, x) == Some(y)
    ensures var m := Move(c, t, a).value; Stands(m.cell, m.transfer, y, stream)
  {
    var steps: seq<Step>, states: seq<State>, tracks: seq<Track> :|
      Tracked(steps, states, tracks, 0, stream) && Alone(states[|steps|], c, t) && tracks[|steps|] == x;
    var e, m := Act(0, a), Move(c, t, a).value;
    MoveKeeps(c, t, a);
    hide Move, Answered;
    var r := Apply(states[|steps|], e).value;
    assert r.transfers[0] == m.transfer;
    var steps', states', tracks' := steps + [e], states + [r], tracks + [y];
    assert Behavior(steps', states');
    assert Tracked(steps', states', tracks', 0, stream) && Alone(states'[|steps'|], m.cell, m.transfer);
    assert tracks'[|steps'|] == y;
  }

  function FullPacket(): (d: seq<byte>)
    ensures |d| == 64
  {
    seq(64, _ => 0)
  }

  /** What an endpoint with 128 bytes to give answers. */
  function TwoPackets(): seq<BusEvent> {
    [Packet(FullPacket()), Packet(FullPacket())]
  }

  lemma FirstPacket()
    ensures RunUrb(TwoPackets(), 64, 64) == Outcome(Success, FullPacket(), [Packet(FullPacket())])
  {
    assert TwoPackets()[1..] == [Packet(FullPacket())];
  }

  lemma BothPackets()
    ensures SplitRead(TwoPackets(), 128, 64, 64) == Outcome(Success, FullPacket() + FullPacket(), [])
  {
    FirstPacket();
    assert [Packet(FullPacket())][1..] == [];
    assert RunUrb([Packet(FullPacket())], 64, 64) == Outcome(Success, FullPacket(), []);
    assert SplitRead([Packet(FullPacket())], 64, 64, 64) == Outcome(Success, FullPacket(), []);
  }

  /** The first chunk is over before the call that submitted it has cleared the flag. */
  lemma CompletedFirst()
    ensures Stands(Cell(true, 1), TwoChunks(1, 64).(submitter := SubmitterPc.Tail, completer := Trying),
                   Track(FullPacket(), [Packet(FullPacket())], Success), TwoPackets())
  {
    StandsFirst(TwoPackets());
    FirstPacket();
    hide Stands, SameRequest, RunUrb, TwoPackets, FullPacket;
    var t := NewTransfer(1, 0x81, true, 64, 64, 128);
    var x := Track([], TwoPackets(), Success);
    StandsNext(Cell(false, 0), t, Submitter(Prepared), x, x, TwoPackets());
    StandsNext(Cell(true, 0), t.(submitter := SubmitterPc.Took), Submitter(Prepared), x, x, TwoPackets());
    StandsNext(Cell(true, 1), t.(submitter := Armed), Submitter(Prepared), x, x, TwoPackets());
    StandsNext(Cell(true, 1), t.(submitter := SubmitterPc.Ready, hasContext := true), Submitter(Prepared), x, x,
               TwoPackets());
    assert [] + FullPacket() == FullPacket();
    StandsNext(Cell(true, 1), TwoChunks(1, 0).(submitter := SubmitterPc.Tail), Bus(true, true, 64), x,
               Track(FullPacket(), [Packet(FullPacket())], Success), TwoPackets());
  }

  /** A transfer with the endpoint to itself ends early, as a success: of 128 bytes that the endpoint has to give, and
      that the split transfer delivers, it reports 64. */
  lemma LoneTransferStopsEarly()
    ensures exists c: Cell, t: Transfer, x: Track ::
              && Stands(c, t, x, TwoPackets()) && Over(t) && t.requested == 128
              && t.ends == [FreeContext, ReleaseLock, CompleteIrp(true, 64)] && x.received == FullPacket()
              && SplitRead(TwoPackets(), 128, 64, 64) == Outcome(Success, FullPacket() + FullPacket(), [])
  {
    CompletedFirst();
    BothPackets();
    hide Stands, SameRequest, SplitRead, TwoPackets, FullPacket;
    var x := Track(FullPacket(), [Packet(FullPacket())], Success);
    var t := TwoChunks(1, 64).(submitter := SubmitterPc.Tail, completer := Trying);
    var ends := [FreeContext, ReleaseLock, CompleteIrp(true, 64)];
    assert t.ends + [FreeContext] == ends[..1] && ends[..1] + [ReleaseLock] == ends[..2];
    assert ends[..2] + [CompleteIrp(true, 64)] == ends;
    StandsNext(Cell(true, 1), t, Completer(true), x, x, TwoPackets());
    StandsNext(Cell(true, 1), t.(completer := Freeing), Completer(true), x, x, TwoPackets());
    StandsNext(Cell(true, 1), t.(completer := Releasing, ends := ends[..1]), Completer(true), x, x, TwoPackets());
    StandsNext(Cell(true, 1), t.(completer := Finishing, ends := ends[..2]), Completer(true), x, x, TwoPackets());
    StandsNext(Cell(true, 1), t.(completer := Finished, ends := ends), Submitter(Prepared), x, x, TwoPackets());
    assert Over(t.(completer := Finished, ends := ends, submitter := Returned));
  }
}
