/** Outgoing transfers of module TransferProtocol: the packets that a request puts on the wire, chunk by chunk and
    interleaved with everything else, against those of the split transfer of module SplitTransfer. */
module SplitWrites {
  import opened Bytes
  import opened SplitRuns
  import opened SplitTransfer
  import opened TransferProtocol

  /** The packets of one chunk. */
  function ChunkPackets(e: Submission, data: seq<byte>, mps: nat): seq<seq<byte>>
    requires mps > 0
  {
    if e.offset + e.length <= |data| then Packets(data[e.offset..e.offset + e.length], mps) else []
  }

  /** The packets of all chunks of request `i`, in the order of submission. */
  function Wire(log: seq<Submission>, i: nat, data: seq<byte>, mps: nat): seq<seq<byte>>
    requires mps > 0
  {
    if log == [] then []
    else
      var last := log[|log| - 1];
      Wire(log[..|log| - 1], i, data, mps) + (if last.id == i then ChunkPackets(last, data, mps) else [])
  }

  /** The endpoint takes all of the chunk. */
  predicate Accepts(s: State, e: Step, i: nat) {
    e.Act? && e.id == i && i < |s.transfers| && e.action.Bus? ==>
      e.action == Bus(true, true, s.transfers[i].urbLength)
  }

  ghost predicate Accepted(steps: seq<Step>, states: seq<State>, i: nat) {
    |steps| <= |states| && forall k :: 0 <= k < |steps| ==> Accepts(states[k], steps[k], i)
  }

  /** The packets still to come when the chunks before `from` are out. */
  function Further(data: seq<byte>, from: nat, mps: nat, mts: nat): seq<seq<byte>>
    requires mps > 0 && mts > 0 && from <= |data|
  {
    SplitPackets(data[from..], mps, mts)
  }

  /** What is left behind the chunk in flight. */
  function Behind(t: Transfer, data: seq<byte>): seq<seq<byte>>
    requires t.mps > 0 && t.mts > 0 && t.urbLength <= t.totalLength && t.information + t.totalLength == |data|
  {
    if GoesOn(t.urbLength, t.totalLength - t.urbLength, t.mps, t.mts) then
      Further(data, t.information + t.urbLength, t.mps, t.mts)
    else []
  }

  /** The split transfer's packets, seen from here. */
  predicate Sends(t: Transfer, wire: seq<seq<byte>>, stopped: bool, data: seq<byte>) {
    && t.mps > 0 && t.mts > 0 && t.information + t.totalLength == |data|
    && var goal := SplitPackets(data, t.mps, t.mts);
       if t.completer == InFlight then
         !stopped && t.urbLength <= t.totalLength && goal == wire + Behind(t, data)
       else if GoingOn(t) then !stopped && goal == wire + Further(data, t.information, t.mps, t.mts)
       else if stopped then goal == wire + Further(data, t.information, t.mps, t.mts)
       else t.completer != Clearing && goal == wire
  }

  lemma FurtherNext(data: seq<byte>, from: nat, mps: nat, mts: nat)
    requires mps > 0 && mts > 0 && from <= |data|
    ensures var n := Min(|data| - from, mts);
            Further(data, from, mps, mts) == Packets(data[from..from + n], mps)
              + (if GoesOn(n, |data| - from - n, mps, mts) then Further(data, from + n, mps, mts) else [])
  {
    var n := Min(|data| - from, mts);
    var d := data[from..];
    assert d[..n] == data[from..from + n] && d[n..] == data[from + n..];
    hide Packets;
  }

  /** The chunk that `Send` hands over. */
  function NextChunkOf(t: Transfer): Submission {
    Submission(0, t.address, t.information, Send(t).urbLength)
  }

  lemma SendSends(t: Transfer, wire: seq<seq<byte>>, data: seq<byte>)
    requires Sends(t, wire, false, data) && GoingOn(t) && t.completer != InFlight
    ensures Sends(Send(t), wire + ChunkPackets(NextChunkOf(t), data, t.mps), false, data)
  {
    FurtherNext(data, t.information, t.mps, t.mts);
    hide SplitPackets, Packets, GoesOn, Further;
    assert wire + (ChunkPackets(NextChunkOf(t), data, t.mps) + Behind(Send(t), data))
           == wire + ChunkPackets(NextChunkOf(t), data, t.mps) + Behind(Send(t), data);
  }

  /** What the submission of a step adds to the wire. */
  function Added(t: Transfer, m: Moved, data: seq<byte>): seq<seq<byte>>
    requires t.mps > 0
  {
    if m.submits then ChunkPackets(Submission(0, t.address, t.information, m.transfer.urbLength), data, t.mps) else []
  }

  /** Only what the wire depends on. */
  predicate SameSending(t: Transfer, u: Transfer) {
    && u.mps == t.mps && u.mts == t.mts && u.information == t.information && u.totalLength == t.totalLength
    && u.urbLength == t.urbLength && u.completer == t.completer
  }

  lemma SendsAlike(t: Transfer, u: Transfer, wire: seq<seq<byte>>, stopped: bool, data: seq<byte>)
    requires Sends(t, wire, stopped, data) && SameSending(t, u)
    ensures Sends(u, wire, stopped, data)
  {
    hide SplitPackets, Further, GoesOn;
  }

  lemma SubmitterSends(c: Cell, t: Transfer, p: Preparation, wire: seq<seq<byte>>, stopped: bool, data: seq<byte>)
    requires t.mps > 0 && SubmitterMove(c, t, p).Some? && Sends(t, wire, stopped, data)
    requires NotSentYet(t) <==> t.completer == Unsent
    ensures var m := SubmitterMove(c, t, p).value;
            Sends(m.transfer, wire + Added(t, m, data), stopped, data)
  {
    hide Sends, SameRequest, ChunkPackets;
    var m := SubmitterMove(c, t, p).value;
    if t.submitter == SubmitterPc.Ready {
      GoingOnSends(t, wire, stopped, data);
      SendSends(t, wire, data);
      SendsAlike(Send(t), m.transfer, wire + Added(t, m, data), stopped, data);
    } else {
      SubmitterAlike(c, t, p);
      assert wire + [] == wire;
      SendsAlike(t, m.transfer, wire, stopped, data);
    }
  }

  lemma GoingOnSends(t: Transfer, wire: seq<seq<byte>>, stopped: bool, data: seq<byte>)
    requires Sends(t, wire, stopped, data) && GoingOn(t)
    ensures !stopped
  {}

  lemma SubmitterAlike(c: Cell, t: Transfer, p: Preparation)
    requires SubmitterMove(c, t, p).Some? && t.submitter != SubmitterPc.Ready
    ensures var m := SubmitterMove(c, t, p).value; SameSending(t, m.transfer) && !m.submits
  {
    hide SameRequest, Send;
  }

  /** The decision at the end of a chunk that was taken in full. */
  lemma BusSends(c: Cell, t: Transfer, wire: seq<seq<byte>>, stopped: bool, data: seq<byte>)
    requires t.mps > 0 && t.bulk && BusMove(c, t, true, true, t.urbLength).Some? && Sends(t, wire, stopped, data)
    ensures Sends(BusMove(c, t, true, true, t.urbLength).value.transfer, wire, stopped, data)
  {
    assert wire + [] == wire;
    hide SplitPackets, Further, SameRequest;
  }

  /** Outside the bus only the place where the completion stands decides. */
  predicate Onward(t: Transfer, pc: CompleterPc, stops: bool) {
    && t.completer != InFlight && pc != InFlight
    && (if GoingOn(t.(completer := pc)) then GoingOn(t) && !stops
        else if GoingOn(t) then stops
        else pc != Clearing && !stops)
  }

  lemma SendsOnward(t: Transfer, pc: CompleterPc, wire: seq<seq<byte>>, stopped: bool, stops: bool, data: seq<byte>)
    requires Sends(t, wire, stopped, data) && Onward(t, pc, stops)
    ensures Sends(t.(completer := pc), wire, stopped || stops, data)
  {
    hide SplitPackets, Further, GoesOn;
  }

  lemma CompleterAlike(c: Cell, t: Transfer, mdl: bool)
    requires CompleterMove(c, t, mdl).Some? && t.completer != CompleterPc.Ready
    ensures var m := CompleterMove(c, t, mdl).value;
            && !m.submits && SameSending(t.(completer := m.transfer.completer), m.transfer)
            && Onward(t, m.transfer.completer, StopsAt(c, t, Completer(mdl)))
  {
    hide SameRequest, Send;
    match t.completer {
      case Trying => case Took => case Clearing => case Freeing => case Releasing => case Finishing =>
    }
  }

  lemma CompleterSends(c: Cell, t: Transfer, mdl: bool, wire: seq<seq<byte>>, stopped: bool, data: seq<byte>)
    requires t.mps > 0 && CompleterMove(c, t, mdl).Some? && Sends(t, wire, stopped, data)
    ensures var m := CompleterMove(c, t, mdl).value;
            Sends(m.transfer, wire + Added(t, m, data), stopped || StopsAt(c, t, Completer(mdl)), data)
  {
    hide Sends, SameRequest, ChunkPackets;
    var m := CompleterMove(c, t, mdl).value;
    if t.completer == CompleterPc.Ready {
      GoingOnSends(t, wire, stopped, data);
      SendSends(t, wire, data);
      SendsAlike(Send(t), m.transfer, wire + Added(t, m, data), stopped, data);
    } else {
      hide CompleterMove, Onward, StopsAt, SameSending;
      CompleterAlike(c, t, mdl);
      assert wire + [] == wire;
      SendsOnward(t, m.transfer.completer, wire, stopped, StopsAt(c, t, Completer(mdl)), data);
      SendsAlike(t.(completer := m.transfer.completer), m.transfer, wire, stopped || StopsAt(c, t, Completer(mdl)), data);
    }
  }

  lemma MoveSends(c: Cell, t: Transfer, a: Action, wire: seq<seq<byte>>, stopped: bool, data: seq<byte>)
    requires Accounts(t) && t.bulk && Move(c, t, a).Some? && Sends(t, wire, stopped, data)
    requires a.Bus? ==> a == Bus(true, true, t.urbLength)
    ensures var m := Move(c, t, a).value;
            Sends(m.transfer, wire + Added(t, m, data), stopped || StopsAt(c, t, a), data)
  {
    hide SubmitterMove, CompleterMove, Sends, StopsAt, ChunkPackets;
    assert wire + [] == wire;
    if !a.Completer? {
      NeverStopsAt(c, t, a);
    }
    match a {
      case Submitter(p) => SubmitterSends(c, t, p, wire, stopped, data);
      case Bus(_, _, _) => BusSends(c, t, wire, stopped, data);
      case Completer(mdl) => CompleterSends(c, t, mdl, wire, stopped, data);
      case ClearTail => SendsAlike(t, t.(tail := false), wire, stopped, data);
    }
  }

  // ----- runs -----

  ghost predicate RunSends(s: State, i: nat, stopped: bool, data: seq<byte>) {
    if i < |s.transfers| then
      var t := s.transfers[i];
      t.bulk && t.requested == |data| && t.mps > 0 ==> Sends(t, Wire(s.log, i, data, t.mps), stopped, data)
    else !stopped
  }

  lemma WireNext(log: seq<Submission>, e: Submission, i: nat, data: seq<byte>, mps: nat)
    requires mps > 0
    ensures Wire(log + [e], i, data, mps)
            == Wire(log, i, data, mps) + (if e.id == i then ChunkPackets(e, data, mps) else [])
  {
    assert (log + [e])[..|log + [e]| - 1] == log;
    hide ChunkPackets;
  }

  lemma {:induction false} WireOfNobody(log: seq<Submission>, i: nat, data: seq<byte>, mps: nat)
    requires mps > 0 && forall k :: 0 <= k < |log| ==> log[k].id != i
    ensures Wire(log, i, data, mps) == []
    decreases |log|
  {
    hide ChunkPackets;
    if log != [] {
      WireOfNobody(log[..|log| - 1], i, data, mps);
    }
  }

  lemma NewSends(s: State, e: Step, data: seq<byte>)
    requires Shaped(s) && Inv(s) && e.Begin? && e.mps > 0 && e.mts > 0 && e.length == |data|
    ensures Sends(NewTransfer(|s.transfers| + 1, e.address, e.bulk, e.mps, e.mts, e.length),
                  Wire(s.log, |s.transfers|, data, e.mps), false, data)
  {
    forall k | 0 <= k < |s.log| ensures s.log[k].id != |s.transfers| {
      assert Placed(s, s.log[k]);
    }
    WireOfNobody(s.log, |s.transfers|, data, e.mps);
    assert data[0..] == data;
    hide SplitPackets, Inv;
    assert [] + SplitPackets(data, e.mps, e.mts) == SplitPackets(data, e.mps, e.mts);
  }

  lemma BeginSends(s: State, e: Step, i: nat, stopped: bool, data: seq<byte>)
    requires Shaped(s) && Inv(s) && e.Begin? && Apply(s, e).Some? && RunSends(s, i, stopped, data)
    ensures RunSends(Apply(s, e).value, i, stopped, data)
  {
    if i == |s.transfers| && e.length == |data| {
      NewSends(s, e, data);
    }
    hide Sends, Wire, Inv;
  }

  /** A step of one request, as far as transfers and submissions go. */
  lemma ActIs(s: State, id: nat, a: Action)
    requires Shaped(s) && Apply(s, Act(id, a)).Some?
    ensures id < |s.transfers|
    ensures var t, r := s.transfers[id], Apply(s, Act(id, a)).value;
            var m := Move(s.cells[t.address], t, a);
            && m.Some? && r.transfers == s.transfers[id := m.value.transfer]
            && r.log == if m.value.submits then
                          s.log + [Submission(id, t.address, t.information, m.value.transfer.urbLength)]
                        else s.log
  {
    hide Move;
  }

  lemma WireAfter(log: seq<Submission>, id: nat, t: Transfer, m: Moved, i: nat, data: seq<byte>, mps: nat)
    requires mps > 0 && (i == id ==> t.mps == mps)
    ensures var after :=
              if m.submits then log + [Submission(id, t.address, t.information, m.transfer.urbLength)] else log;
            Wire(after, i, data, mps) == Wire(log, i, data, mps) + (if i == id then Added(t, m, data) else [])
  {
    hide Wire;
    if m.submits {
      WireNext(log, Submission(id, t.address, t.information, m.transfer.urbLength), i, data, mps);
    }
  }

  lemma SoundAccounts(s: State, i: nat)
    requires Shaped(s) && Inv(s) && i < |s.transfers|
    ensures Accounts(s.transfers[i])
  {
    assert Sound(s, i);
    hide Accounts, EndsInOrder, UsesCell, HoldsOnce;
  }

  lemma AccountsPacket(t: Transfer)
    requires Accounts(t)
    ensures t.mps > 0
  {}

  lemma ActSends(s: State, id: nat, a: Action, i: nat, stopped: bool, data: seq<byte>)
    requires Shaped(s) && Inv(s) && Apply(s, Act(id, a)).Some? && Accepts(s, Act(id, a), i)
    requires RunSends(s, i, stopped, data)
    ensures RunSends(Apply(s, Act(id, a)).value, i, stopped || Stops(s, Act(id, a), i), data)
  {
    ActIs(s, id, a);
    SoundAccounts(s, id);
    var t := s.transfers[id];
    var m := Move(s.cells[t.address], t, a).value;
    AccountsPacket(t);
    MoveKeeps(s.cells[t.address], t, a);
    hide Apply, Inv, Move, Accounts, Sends, Wire, Added, StopsAt;
    if i < |s.transfers| && s.transfers[i].mps > 0 {
      WireAfter(s.log, id, t, m, i, data, s.transfers[i].mps);
      assert Wire(s.log, i, data, s.transfers[i].mps) + [] == Wire(s.log, i, data, s.transfers[i].mps);
      if i == id && t.bulk && t.requested == |data| {
        MoveSends(s.cells[t.address], t, a, Wire(s.log, i, data, t.mps), stopped, data);
      }
    }
  }

  lemma StepSends(s: State, e: Step, i: nat, stopped: bool, data: seq<byte>)
    requires Shaped(s) && Inv(s) && Apply(s, e).Some? && Accepts(s, e, i) && RunSends(s, i, stopped, data)
    ensures RunSends(Apply(s, e).value, i, stopped || Stops(s, e, i), data)
  {
    hide RunSends, Apply, Inv, Accepts;
    match e {
      case Begin(_, _, _, _, _) => BeginSends(s, e, i, stopped, data);
      case Act(id, a) => ActSends(s, id, a, i, stopped, data);
    }
  }

  lemma {:induction false} Sending(steps: seq<Step>, states: seq<State>, i: nat, data: seq<byte>, n: nat)
    requires Behavior(steps, states) && Accepted(steps, states, i) && n < |states|
    ensures RunSends(states[n], i, Stopped(steps, states, i, n), data)
    decreases n
  {
    hide RunSends, Stops, Apply, Inv, Accepts;
    if n > 0 {
      Sending(steps, states, i, data, n - 1);
      Invariant(steps, states, n - 1);
      StoppedNext(steps, states, i, n);
      assert Apply(states[n - 1], steps[n - 1]) == Some(states[n]) && Accepts(states[n - 1], steps[n - 1], i);
      StepSends(states[n - 1], steps[n - 1], i, Stopped(steps, states, i, n - 1), data);
    } else {
      NothingSent(i, data);
    }
  }

  lemma NothingSent(i: nat, data: seq<byte>)
    ensures RunSends(Initial(), i, false, data)
  {}

  lemma SomePackets(data: seq<byte>, mps: nat, mts: nat)
    requires mps > 0 && mts > 0
    ensures |SplitPackets(data, mps, mts)| > 0
  {}

  /** The exact condition, in every run: the chunks that a request has sent, all taken in full, are the packets of the
      split transfer if and only if no completion stopped early; with chunks of whole packets, those of the single
      request. */
  lemma WritesExactly(steps: seq<Step>, states: seq<State>, i: nat, data: seq<byte>, n: nat)
    requires Behavior(steps, states) && Accepted(steps, states, i) && n < |states| && i < |states[n].transfers|
    requires var t := states[n].transfers[i]; t.bulk && t.requested == |data| && t.mps > 0 && Decided(t)
    ensures var t := states[n].transfers[i];
            var wire := Wire(states[n].log, i, data, t.mps);
            && t.mts > 0
            && (wire == SplitPackets(data, t.mps, t.mts) <==> !Stopped(steps, states, i, n))
            && (|data| <= t.mts || t.mts % t.mps == 0 ==>
                  (wire == Packets(data, t.mps) <==> !Stopped(steps, states, i, n)))
  {
    hide Behavior, Accepted, Stopped, SplitPackets, Packets, Wire;
    Sending(steps, states, i, data, n);
    var t := states[n].transfers[i];
    WritePreservesPackets(data, t.mps, t.mts);
    if Stopped(steps, states, i, n) {
      SomePackets(data[t.information..], t.mps, t.mts);
    }
  }

  /** Alone with its completions, a request sends the packets of the split transfer exactly if no completion overtakes the
      one who submitted its chunk, and none runs out of memory. */
  lemma UndisturbedWrite(steps: seq<Step>, states: seq<State>, i: nat, data: seq<byte>, n: nat)
    requires Behavior(steps, states) && Accepted(steps, states, i) && n < |states| && i < |states[n].transfers|
    requires var t := states[n].transfers[i]; t.bulk && t.requested == |data| && t.mps > 0 && Decided(t)
    requires Quiet(states, i, n)
    ensures var t := states[n].transfers[i];
            && t.mts > 0
            && (Wire(states[n].log, i, data, t.mps) == SplitPackets(data, t.mps, t.mts) <==> !Outrun(steps, states, i, n))
  {
    hide Behavior, Accepted, Stopped, SplitPackets, Packets, Wire, Outrun, Quiet;
    StoppedAlone(steps, states, i, n);
    WritesExactly(steps, states, i, data, n);
  }
}
