/** Concurrent transfers on shared endpoints (libusb/src/driver/transfer.c). Any number of `transfer` calls and
    `transfer_complete` routines run interleaved; each step below is one interlocked operation, one hand-over to
    the bus, or one clean-up action. Two cells per endpoint address coordinate them: `pending_busy`, taken by
    compare-and-swap, and `pending_sequence`, the number of the latest transfer that started there. */
module TransferProtocol {
  import opened Arithmetic
  import opened Bytes

  const ADDRESSES: nat := 0x100

  /** Where the `transfer` call of a request stands. The Undo steps are its clean-up label. */
  datatype SubmitterPc =
    | Numbered | Took | Armed | Ready | Tail | Returned
    | UndoBusy | UndoContext | UndoLock | UndoIrp | Rejected

  /** Where the completion side of a request stands; `InFlight` means the bus owns the request. */
  datatype CompleterPc =
    | Unsent | InFlight | Trying | Took | Ready
    | Clearing | Freeing | Releasing | Finishing | Finished

  /** The clean-up actions of a request, in the order they happen. */
  datatype End = FreeContext | ReleaseLock | CompleteIrp(ok: bool, information: nat)

  /** One request with its context. `ok` tells whether the status it would be completed with is a success; `tail`
      means a completion has submitted a chunk but not yet cleared `pending_busy`; that write uses the captured
      address. */
  datatype Transfer = Transfer(
    address: nat, sequence: int, bulk: bool, mps: nat, mts: nat, requested: nat,
    totalLength: nat, information: nat, urbLength: nat, sent: nat,
    submitter: SubmitterPc, completer: CompleterPc, tail: bool, hasContext: bool, ok: bool, ends: seq<End>)

  /** The two cells of one endpoint. */
  datatype Cell = Cell(busy: bool, pending: int)

  /** One chunk handed to the bus. */
  datatype Submission = Submission(id: nat, address: nat, offset: nat, length: nat)

  datatype State = State(cells: seq<Cell>, transfers: seq<Transfer>, log: seq<Submission>)

  datatype Preparation = Prepared | NoContext | NoUrb

  /** What a request can do next. The preparation result, the success of the partial MDL and how the bus ends a chunk
      come from outside: `irp` and `urb` are the success of the NTSTATUS and of the request block. */
  datatype Action =
    | Submitter(preparation: Preparation)
    | Bus(irp: bool, urb: bool, length: nat)
    | Completer(mdl: bool)
    | ClearTail

  datatype Step =
    | Begin(address: nat, bulk: bool, mps: nat, mts: nat, length: nat)
    | Act(id: nat, action: Action)

  datatype Moved = Moved(cell: Cell, transfer: Transfer, submits: bool)

  // ----- the code, one step at a time -----

  function NewTransfer(sequence: int, address: nat, bulk: bool, mps: nat, mts: nat, length: nat): Transfer {
    Transfer(address, sequence, bulk, mps, mts, length, length, 0, 0, 0, Numbered, Unsent, false, false, true, [])
  }

  /** A chunk goes to the bus: its length is what is left, at most `mts`. */
  function Send(t: Transfer): Transfer {
    t.(urbLength := if t.totalLength > t.mts then t.mts else t.totalLength, sent := t.sent + 1, completer := InFlight)
  }

  /** The steps of `transfer`. */
  function SubmitterMove(c: Cell, t: Transfer, p: Preparation): (r: Option<Moved>)
    ensures r.Some? ==> SameRequest(t, r.value.transfer)
  {
    match t.submitter
    case Numbered =>
      if c.busy then Some(Moved(c, t.(submitter := UndoContext), false))
      else Some(Moved(c.(busy := true), t.(submitter := SubmitterPc.Took), false))
    case Took => Some(Moved(c.(pending := t.sequence), t.(submitter := Armed), false))
    case Armed =>
      (match p
       case Prepared => Some(Moved(c, t.(submitter := SubmitterPc.Ready, hasContext := true), false))
       case NoContext => Some(Moved(c, t.(submitter := UndoBusy, ok := false), false))
       case NoUrb => Some(Moved(c, t.(submitter := UndoBusy, hasContext := true, ok := false), false)))
    case Ready => Some(Moved(c, Send(t).(submitter := Tail), true))
    case Tail => Some(Moved(c.(busy := false), t.(submitter := Returned), false))
    case UndoBusy => Some(Moved(c.(busy := false), t.(submitter := UndoContext), false))
    case UndoContext =>
      Some(Moved(c, t.(submitter := UndoLock, ends := if t.hasContext then t.ends + [FreeContext] else t.ends), false))
    case UndoLock => Some(Moved(c, t.(submitter := UndoIrp, ends := t.ends + [ReleaseLock]), false))
    case UndoIrp => Some(Moved(c, t.(submitter := Rejected, ends := t.ends + [CompleteIrp(t.ok, 0)]), false))
    case Returned => None
    case Rejected => None
  }

  /** The first part of `transfer_complete`: count what arrived and decide whether to go on. */
  function BusMove(c: Cell, t: Transfer, irp: bool, urb: bool, length: nat): (r: Option<Moved>)
    requires t.mps > 0
    ensures r.Some? ==> SameRequest(t, r.value.transfer)
  {
    if t.completer != InFlight || length > t.urbLength then None
    else
      var transmitted := if irp && urb then length else 0;
      var u := t.(totalLength := if transmitted < t.totalLength then t.totalLength - transmitted else 0,
                  information := t.information + transmitted, ok := irp);
      var goesOn :=
        irp && urb && t.bulk && transmitted % t.mps == 0 && transmitted == t.mts && u.totalLength > 0;
      Some(Moved(c, u.(completer := if goesOn then Trying else Freeing), false))
  }

  /** The rest of `transfer_complete`. */
  function CompleterMove(c: Cell, t: Transfer, mdl: bool): (r: Option<Moved>)
    ensures r.Some? ==> SameRequest(t, r.value.transfer)
  {
    match t.completer
    case Trying =>
      if c.busy then Some(Moved(c, t.(completer := Freeing), false))
      else Some(Moved(c.(busy := true), t.(completer := CompleterPc.Took), false))
    case Took =>
      Some(Moved(c, t.(completer := if c.pending == t.sequence && mdl then CompleterPc.Ready else Clearing), false))
    case Ready => Some(Moved(c, Send(t).(tail := true), true))
    case Clearing => Some(Moved(c.(busy := false), t.(completer := Freeing), false))
    case Freeing => Some(Moved(c, t.(completer := Releasing, ends := t.ends + [FreeContext]), false))
    case Releasing => Some(Moved(c, t.(completer := Finishing, ends := t.ends + [ReleaseLock]), false))
    case Finishing =>
      Some(Moved(c, t.(completer := Finished, ends := t.ends + [CompleteIrp(t.ok, t.information)]), false))
    case Unsent => None
    case InFlight => None
    case Finished => None
  }

  function Move(c: Cell, t: Transfer, a: Action): Option<Moved>
    requires t.mps > 0
  {
    match a
    case Submitter(p) => SubmitterMove(c, t, p)
    case Bus(irp, urb, length) => BusMove(c, t, irp, urb, length)
    case Completer(mdl) => CompleterMove(c, t, mdl)
    case ClearTail => if t.tail then Some(Moved(c.(busy := false), t.(tail := false), false)) else None
  }

  /** What a request keeps for life. */
  predicate SameRequest(t: Transfer, u: Transfer) {
    && u.address == t.address && u.sequence == t.sequence && u.bulk == t.bulk
    && u.mps == t.mps && u.mts == t.mts && u.requested == t.requested
  }

  predicate Shaped(s: State) {
    && |s.cells| == ADDRESSES
    && forall i :: 0 <= i < |s.transfers| ==> s.transfers[i].address < ADDRESSES && s.transfers[i].mps > 0
  }

  function Initial(): (s: State)
    ensures |s.cells| == ADDRESSES && forall a :: 0 <= a < ADDRESSES ==> s.cells[a] == Cell(false, 0)
  {
    State(seq(ADDRESSES, _ => Cell(false, 0)), [], [])
  }

  /** A step of the whole driver, or None when it is not possible. */
  function Apply(s: State, e: Step): (r: Option<State>)
    requires Shaped(s)
    ensures r.Some? ==> Shaped(r.value)
  {
    match e
    case Begin(address, bulk, mps, mts, length) =>
      if address < ADDRESSES && mps > 0 && mts > 0 then
        Some(s.(transfers := s.transfers + [NewTransfer(|s.transfers| + 1, address, bulk, mps, mts, length)]))
      else None
    case Act(id, action) =>
      if id >= |s.transfers| then None
      else
        var t := s.transfers[id];
        match Move(s.cells[t.address], t, action)
        case None => None
        case Some(m) =>
          Some(State(s.cells[t.address := m.cell], s.transfers[id := m.transfer],
                     if m.submits then s.log + [Submission(id, t.address, t.information, m.transfer.urbLength)]
                     else s.log))
  }

  /** A run: some steps, and the states before, between and after them. */
  ghost predicate Behavior(steps: seq<Step>, states: seq<State>) {
    && |states| == |steps| + 1
    && states[0] == Initial()
    && forall k :: 0 <= k < |steps| ==> Shaped(states[k]) && Apply(states[k], steps[k]) == Some(states[k + 1])
  }

  // ----- what holds of one request -----

  /** The places where `pending_busy` is this request's. */
  predicate SubmitterHolds(t: Transfer) {
    t.submitter in {SubmitterPc.Took, Armed, SubmitterPc.Ready, Tail, UndoBusy}
  }

  predicate CompleterHolds(t: Transfer) {
    t.completer in {CompleterPc.Took, CompleterPc.Ready, Clearing}
  }

  predicate Holds(t: Transfer) {
    SubmitterHolds(t) || CompleterHolds(t) || t.tail
  }

  predicate HoldsOnce(t: Transfer) {
    && !(SubmitterHolds(t) && CompleterHolds(t))
    && !(SubmitterHolds(t) && t.tail)
    && !(CompleterHolds(t) && t.tail)
  }

  /** Between these points the request relies on `pending_sequence` being its own number. */
  predicate ReliesOnSequence(t: Transfer) {
    t.submitter in {Armed, SubmitterPc.Ready} || t.completer == CompleterPc.Ready
  }

  predicate NotSentYet(t: Transfer) {
    t.submitter !in {Tail, Returned}
  }

  predicate Accounts(t: Transfer) {
    && t.mps > 0 && t.mts > 0
    && t.information + t.totalLength == t.requested
    && (NotSentYet(t) <==> t.completer == Unsent)
    && (NotSentYet(t) <==> t.sent == 0)
    && (NotSentYet(t) ==> t.information == 0 && !t.tail)
    && (t.completer == InFlight ==> t.information == (t.sent - 1) * t.mts && t.urbLength == Min(t.totalLength, t.mts))
    && (t.completer in {Trying, CompleterPc.Took, CompleterPc.Ready} ==>
          t.information == t.sent * t.mts && t.totalLength > 0)
    && (t.sent > 1 ==> (t.sent - 1) * t.mts < t.requested)
    && t.information <= t.sent * t.mts
  }

  /** What has been cleaned up so far, read off the program counters. */
  predicate EndsInOrder(t: Transfer) {
    var freed := if t.hasContext then [FreeContext] else [];
    && (t.submitter in {SubmitterPc.Ready, Tail, Returned} ==> t.hasContext)
    && t.ends == (
         if t.submitter == UndoLock then freed
         else if t.submitter == UndoIrp then freed + [ReleaseLock]
         else if t.submitter == Rejected then freed + [ReleaseLock, CompleteIrp(t.ok, 0)]
         else if t.completer == Releasing then [FreeContext]
         else if t.completer == Finishing then [FreeContext, ReleaseLock]
         else if t.completer == Finished then [FreeContext, ReleaseLock, CompleteIrp(t.ok, t.information)]
         else [])
  }

  /** How a request may use the two cells of its endpoint. */
  predicate UsesCell(t: Transfer, c: Cell) {
    (Holds(t) ==> c.busy) && (ReliesOnSequence(t) ==> c.pending == t.sequence)
  }

  /** Taking and clearing the flag: it changes exactly when the request starts or stops holding it, and the
      sequence cell is written only by the holder, before its first chunk. */
  predicate CellRule(c: Cell, t: Transfer, m: Moved) {
    && (if m.cell.busy == c.busy then Holds(m.transfer) == Holds(t)
        else Holds(m.transfer) == m.cell.busy && Holds(t) == c.busy)
    && (m.cell.pending != c.pending ==> Holds(t) && m.cell.pending == t.sequence && NotSentYet(t))
    && (m.submits ==> Holds(t) && ReliesOnSequence(t))
  }

  lemma MoveCell(c: Cell, t: Transfer, a: Action)
    requires t.mps > 0 && HoldsOnce(t) && UsesCell(t, c) && Move(c, t, a).Some?
    requires t.submitter == SubmitterPc.Took ==> NotSentYet(t) && t.completer == Unsent
    requires NotSentYet(t) ==> t.completer == Unsent
    ensures var m := Move(c, t, a).value;
            HoldsOnce(m.transfer) && UsesCell(m.transfer, m.cell) && CellRule(c, t, m)
  {}

  ghost predicate KeepsAccounts(t: Transfer, m: Moved) {
    && Accounts(m.transfer)
    && m.transfer.sent == t.sent + (if m.submits then 1 else 0)
    && (m.submits ==> t.information == t.sent * t.mts)
  }

  lemma SubmitterAccounts(c: Cell, t: Transfer, p: Preparation)
    requires Accounts(t) && SubmitterMove(c, t, p).Some?
    ensures KeepsAccounts(t, SubmitterMove(c, t, p).value)
  {
    assert 0 * t.mts == 0 && 1 * t.mts == t.mts;
  }

  lemma BusAccounts(c: Cell, t: Transfer, irp: bool, urb: bool, length: nat)
    requires Accounts(t) && BusMove(c, t, irp, urb, length).Some?
    ensures KeepsAccounts(t, BusMove(c, t, irp, urb, length).value)
  {
    assert (t.sent - 1) * t.mts + t.mts == t.sent * t.mts;
  }

  lemma CompleterAccounts(c: Cell, t: Transfer, mdl: bool)
    requires Accounts(t) && CompleterMove(c, t, mdl).Some?
    ensures KeepsAccounts(t, CompleterMove(c, t, mdl).value)
  {
    if t.completer == CompleterPc.Ready {
      NextChunk(t);
    }
  }

  lemma NextChunk(t: Transfer)
    requires Accounts(t) && t.completer == CompleterPc.Ready
    ensures Accounts(Send(t).(tail := true))
  {
    var s, mts := t.sent, t.mts;
    assert t.information == s * mts;
    assert (s + 1) * mts == s * mts + mts;
    assert (s + 1 - 1) * mts == s * mts;
  }

  lemma MoveAccounts(c: Cell, t: Transfer, a: Action)
    requires Accounts(t) && Move(c, t, a).Some?
    ensures KeepsAccounts(t, Move(c, t, a).value)
  {
    match a {
      case Submitter(p) => SubmitterAccounts(c, t, p);
      case Bus(irp, urb, length) => BusAccounts(c, t, irp, urb, length);
      case Completer(mdl) => CompleterAccounts(c, t, mdl);
      case ClearTail =>
    }
  }

  lemma MoveEnds(c: Cell, t: Transfer, a: Action)
    requires Accounts(t) && EndsInOrder(t) && Move(c, t, a).Some?
    ensures EndsInOrder(Move(c, t, a).value.transfer)
  {
    hide SubmitterMove, BusMove, CompleterMove;
    match a {
      case Submitter(p) => SubmitterEnds(c, t, p);
      case Bus(irp, urb, length) => BusEnds(c, t, irp, urb, length);
      case Completer(mdl) => CompleterEnds(c, t, mdl);
      case ClearTail =>
    }
  }

  lemma SubmitterEnds(c: Cell, t: Transfer, p: Preparation)
    requires (NotSentYet(t) <==> t.completer == Unsent) && EndsInOrder(t) && SubmitterMove(c, t, p).Some?
    ensures EndsInOrder(SubmitterMove(c, t, p).value.transfer)
  {
    hide SameRequest;
    match t.submitter {
      case Numbered => case Took => case Armed => case Ready => case Tail =>
      case UndoBusy => case UndoContext => case UndoLock => case UndoIrp =>
    }
  }

  lemma BusEnds(c: Cell, t: Transfer, irp: bool, urb: bool, length: nat)
    requires t.mps > 0 && (NotSentYet(t) <==> t.completer == Unsent)
    requires EndsInOrder(t) && BusMove(c, t, irp, urb, length).Some?
    ensures EndsInOrder(BusMove(c, t, irp, urb, length).value.transfer)
  {}

  lemma CompleterEnds(c: Cell, t: Transfer, mdl: bool)
    requires (NotSentYet(t) <==> t.completer == Unsent) && EndsInOrder(t) && CompleterMove(c, t, mdl).Some?
    ensures EndsInOrder(CompleterMove(c, t, mdl).value.transfer)
  {}

  // ----- what holds of the whole driver, in every reachable state -----

  predicate Sound(s: State, i: nat)
    requires Shaped(s) && i < |s.transfers|
  {
    var t := s.transfers[i];
    t.sequence == i + 1 && HoldsOnce(t) && Accounts(t) && EndsInOrder(t) && UsesCell(t, s.cells[t.address])
  }

  /** At most one request holds an endpoint's flag, and a flag that is set has a holder. */
  ghost predicate Exclusive(s: State)
    requires Shaped(s)
  {
    && (forall i, j :: 0 <= i < j < |s.transfers| && s.transfers[i].address == s.transfers[j].address ==>
          !(Holds(s.transfers[i]) && Holds(s.transfers[j])))
    && (forall a :: 0 <= a < ADDRESSES && s.cells[a].busy ==>
          exists i :: 0 <= i < |s.transfers| && s.transfers[i].address == a && Holds(s.transfers[i]))
  }

  /** A submission stays inside its request and lies below the chunk that would come next. */
  predicate Placed(s: State, e: Submission)
    requires Shaped(s)
  {
    && e.id < |s.transfers|
    && var t := s.transfers[e.id];
       && e.address == t.address && !NotSentYet(t)
       && e.length <= t.mts && e.offset + e.length <= t.requested
       && e.offset + e.length <= t.sent * t.mts
  }

  /** Every submission of one request between two others of that request on the endpoint is its own. */
  ghost predicate Contiguous(log: seq<Submission>) {
    forall i, j, k ::
      0 <= i < j < k < |log| && log[i].address == log[j].address == log[k].address && log[i].id == log[k].id ==>
        log[j].id == log[i].id
  }

  ghost predicate Disjoint(log: seq<Submission>) {
    forall i, j :: 0 <= i < j < |log| && log[i].id == log[j].id ==> log[i].offset + log[i].length <= log[j].offset
  }

  predicate IsLatest(s: State, e: Submission)
    requires Shaped(s)
  {
    e.address < ADDRESSES && s.cells[e.address].pending == e.id + 1
  }

  /** Only the request named by `pending_sequence` can have the latest submissions of an endpoint. */
  ghost predicate LatestIsPending(s: State)
    requires Shaped(s)
  {
    forall i, j ::
      0 <= i < j < |s.log| && s.log[i].address == s.log[j].address && IsLatest(s, s.log[i]) ==>
        s.log[j].id == s.log[i].id
  }

  function SentBy(log: seq<Submission>, id: nat): nat {
    if log == [] then 0 else SentBy(log[..|log| - 1], id) + (if log[|log| - 1].id == id then 1 else 0)
  }

  /** The n-th chunk of a request (counting from 0) starts at n times its chunk size. */
  ghost predicate InSequence(s: State)
    requires Shaped(s)
  {
    forall k :: 0 <= k < |s.log| ==>
      && s.log[k].id < |s.transfers|
      && s.log[k].offset == SentBy(s.log[..k], s.log[k].id) * s.transfers[s.log[k].id].mts
  }

  ghost predicate Inv(s: State)
    requires Shaped(s)
  {
    && (forall i :: 0 <= i < |s.transfers| ==> Sound(s, i))
    && Exclusive(s)
    && (forall k :: 0 <= k < |s.log| ==> Placed(s, s.log[k]))
    && Contiguous(s.log) && Disjoint(s.log) && LatestIsPending(s) && InSequence(s)
    && (forall i :: 0 <= i < |s.transfers| ==> SentBy(s.log, i) == s.transfers[i].sent)
  }

  lemma SentByNobody(log: seq<Submission>, id: nat)
    requires forall k :: 0 <= k < |log| ==> log[k].id != id
    ensures SentBy(log, id) == 0
  {}

  lemma BeginSound(s: State, e: Step)
    requires Shaped(s) && Inv(s) && e.Begin? && Apply(s, e).Some?
    ensures var r := Apply(s, e).value;
            && (forall i :: 0 <= i < |r.transfers| ==> Sound(r, i))
            && (forall k :: 0 <= k < |r.log| ==> Placed(r, r.log[k]))
            && LatestIsPending(r)
  {
    var r := Apply(s, e).value;
    forall i | 0 <= i < |r.transfers| ensures Sound(r, i) {
      if i < |s.transfers| {
        assert Sound(s, i);
      }
    }
    forall k | 0 <= k < |r.log| ensures Placed(r, r.log[k]) {
      assert Placed(s, s.log[k]);
    }
    forall i, j | 0 <= i < j < |r.log| && r.log[i].address == r.log[j].address && IsLatest(r, r.log[i])
      ensures r.log[j].id == r.log[i].id
    {
      assert IsLatest(s, s.log[i]);
    }
  }

  lemma BeginExclusive(s: State, e: Step)
    requires Shaped(s) && Inv(s) && e.Begin? && Apply(s, e).Some?
    ensures Exclusive(Apply(s, e).value)
  {
    var r := Apply(s, e).value;
    forall a | 0 <= a < ADDRESSES && r.cells[a].busy
      ensures exists i :: 0 <= i < |r.transfers| && r.transfers[i].address == a && Holds(r.transfers[i])
    {
      var i :| 0 <= i < |s.transfers| && s.transfers[i].address == a && Holds(s.transfers[i]);
      assert r.transfers[i] == s.transfers[i];
    }
  }

  lemma BeginSent(s: State, e: Step)
    requires Shaped(s) && Inv(s) && e.Begin? && Apply(s, e).Some?
    ensures var r := Apply(s, e).value;
            InSequence(r) && forall i :: 0 <= i < |r.transfers| ==> SentBy(r.log, i) == r.transfers[i].sent
  {
    forall k | 0 <= k < |s.log| ensures s.log[k].id != |s.transfers| {
      assert Placed(s, s.log[k]);
    }
    SentByNobody(s.log, |s.transfers|);
  }

  lemma ActSound(s: State, id: nat, a: Action)
    requires Shaped(s) && Inv(s) && Apply(s, Act(id, a)).Some?
    ensures var r := Apply(s, Act(id, a)).value;
            forall i :: 0 <= i < |r.transfers| ==> Sound(r, i)
  {
    var r := Apply(s, Act(id, a)).value;
    var t := s.transfers[id];
    var c := s.cells[t.address];
    assert Sound(s, id);
    MoveCell(c, t, a);
    MoveAccounts(c, t, a);
    MoveEnds(c, t, a);
    forall i | 0 <= i < |r.transfers| ensures Sound(r, i) {
      assert Sound(s, i);
    }
  }

  lemma ActExclusive(s: State, id: nat, a: Action)
    requires Shaped(s) && Inv(s) && Apply(s, Act(id, a)).Some?
    ensures Exclusive(Apply(s, Act(id, a)).value)
  {
    var r := Apply(s, Act(id, a)).value;
    var t := s.transfers[id];
    var c := s.cells[t.address];
    assert Sound(s, id);
    MoveCell(c, t, a);
    forall x | 0 <= x < ADDRESSES && r.cells[x].busy
      ensures exists i :: 0 <= i < |r.transfers| && r.transfers[i].address == x && Holds(r.transfers[i])
    {
      if x == t.address && !c.busy {
        assert Holds(r.transfers[id]);
      } else {
        var i :| 0 <= i < |s.transfers| && s.transfers[i].address == x && Holds(s.transfers[i]);
        assert r.transfers[i].address == x && Holds(r.transfers[i]);
      }
    }
    forall i, j | 0 <= i < j < |r.transfers| && r.transfers[i].address == r.transfers[j].address
      ensures !(Holds(r.transfers[i]) && Holds(r.transfers[j]))
    {
      assert Sound(s, i) && Sound(s, j);
    }
  }

  lemma OldPlaced(s: State, id: nat, a: Action, e: Submission)
    requires Shaped(s) && Apply(s, Act(id, a)).Some? && Sound(s, id) && Placed(s, e)
    ensures Placed(Apply(s, Act(id, a)).value, e)
  {
    var t := s.transfers[id];
    MoveAccounts(s.cells[t.address], t, a);
    var u := Apply(s, Act(id, a)).value.transfers[id];
    ProductGrows(t.sent, u.sent, t.mts);
  }

  lemma NewPlaced(s: State, id: nat, a: Action)
    requires Shaped(s) && Apply(s, Act(id, a)).Some? && Sound(s, id)
    requires |Apply(s, Act(id, a)).value.log| > |s.log|
    ensures var r := Apply(s, Act(id, a)).value;
            var t := s.transfers[id];
            && r.log[|s.log|] == Submission(id, t.address, t.sent * t.mts, r.transfers[id].urbLength)
            && Placed(r, r.log[|s.log|])
  {
    var t := s.transfers[id];
    MoveAccounts(s.cells[t.address], t, a);
    ChunkFits(t.sent, t.mts);
    hide EndsInOrder, HoldsOnce, UsesCell;
  }

  lemma ChunkFits(n: nat, mts: nat)
    ensures (n + 1) * mts == n * mts + mts
  {}

  lemma ActPlaced(s: State, id: nat, a: Action)
    requires Shaped(s) && Inv(s) && Apply(s, Act(id, a)).Some?
    ensures var r := Apply(s, Act(id, a)).value;
            && (forall k :: 0 <= k < |r.log| ==> Placed(r, r.log[k]))
            && Disjoint(r.log)
  {
    hide Move, Accounts, EndsInOrder, HoldsOnce;
    var r := Apply(s, Act(id, a)).value;
    assert Sound(s, id);
    forall k | 0 <= k < |s.log| ensures Placed(r, s.log[k]) {
      OldPlaced(s, id, a, s.log[k]);
    }
    if |r.log| > |s.log| {
      NewPlaced(s, id, a);
    }
    forall i, j | 0 <= i < j < |r.log| && r.log[i].id == r.log[j].id
      ensures r.log[i].offset + r.log[i].length <= r.log[j].offset
    {
      if j == |s.log| {
        assert Placed(s, s.log[i]);
      }
    }
  }

  /** A submitting request is the pending one, so it continues the latest block or opens a new one. */
  lemma ActContiguous(s: State, id: nat, a: Action)
    requires Shaped(s) && Inv(s) && Apply(s, Act(id, a)).Some?
    ensures Contiguous(Apply(s, Act(id, a)).value.log)
  {
    var r := Apply(s, Act(id, a)).value;
    var t := s.transfers[id];
    assert Sound(s, id);
    MoveCell(s.cells[t.address], t, a);
    forall i, j, k |
        0 <= i < j < k < |r.log| && r.log[i].address == r.log[j].address == r.log[k].address
        && r.log[i].id == r.log[k].id
      ensures r.log[j].id == r.log[i].id
    {
      if k == |s.log| {
        assert IsLatest(s, s.log[i]);
      }
    }
  }

  /** A step that writes the sequence cell is one of a request without submissions, and a submission is one of the
      pending request; so the latest block stays the pending request's. */
  lemma LatestStays(s: State, r: State, id: nat, c: Cell)
    requires Shaped(s) && Shaped(r) && LatestIsPending(s) && id < |s.transfers|
    requires var x := s.transfers[id].address;
             && r.cells == s.cells[x := c]
             && (c.pending != s.cells[x].pending ==>
                   c.pending == id + 1 && r.log == s.log && forall k :: 0 <= k < |s.log| ==> s.log[k].id != id)
             && (r.log == s.log
                 || (|r.log| == |s.log| + 1 && r.log[..|s.log|] == s.log && r.log[|s.log|].id == id
                     && r.log[|s.log|].address == x && c.pending == id + 1))
    ensures LatestIsPending(r)
  {
    forall i, j | 0 <= i < j < |r.log| && r.log[i].address == r.log[j].address && IsLatest(r, r.log[i])
      ensures r.log[j].id == r.log[i].id
    {
      assert r.log[i] == s.log[i];
      if j < |s.log| {
        assert r.log[j] == s.log[j] && IsLatest(s, s.log[i]);
      }
    }
  }

  lemma ActLatest(s: State, id: nat, a: Action)
    requires Shaped(s) && Inv(s) && Apply(s, Act(id, a)).Some?
    ensures LatestIsPending(Apply(s, Act(id, a)).value)
  {
    var t := s.transfers[id];
    var c := s.cells[t.address];
    assert Sound(s, id);
    MoveCell(c, t, a);
    var m := Move(c, t, a).value;
    hide Move, Accounts, EndsInOrder, HoldsOnce, Holds;
    assert NotSentYet(t) ==> forall k :: 0 <= k < |s.log| ==> s.log[k].id != id by {
      if NotSentYet(t) {
        forall k | 0 <= k < |s.log| ensures s.log[k].id != id {
          assert Placed(s, s.log[k]);
        }
      }
    }
    assert m.submits ==> ReliesOnSequence(t) && c.pending == t.sequence;
    LatestStays(s, Apply(s, Act(id, a)).value, id, m.cell);
  }

  lemma ActSent(s: State, id: nat, a: Action)
    requires Shaped(s) && Inv(s) && Apply(s, Act(id, a)).Some?
    ensures var r := Apply(s, Act(id, a)).value;
            forall i :: 0 <= i < |r.transfers| ==> SentBy(r.log, i) == r.transfers[i].sent
  {
    var r := Apply(s, Act(id, a)).value;
    assert Sound(s, id);
    MoveAccounts(s.cells[s.transfers[id].address], s.transfers[id], a);
    if |r.log| > |s.log| {
      assert r.log[..|s.log|] == s.log;
    }
  }

  lemma ActInSequence(s: State, id: nat, a: Action)
    requires Shaped(s) && Inv(s) && Apply(s, Act(id, a)).Some?
    ensures InSequence(Apply(s, Act(id, a)).value)
  {
    var r := Apply(s, Act(id, a)).value;
    assert Sound(s, id);
    forall k | 0 <= k < |r.log|
      ensures && r.log[k].id < |r.transfers|
              && r.log[k].offset == SentBy(r.log[..k], r.log[k].id) * r.transfers[r.log[k].id].mts
    {
      if k < |s.log| {
        assert r.log[..k] == s.log[..k];
      } else {
        assert r.log[..k] == s.log;
        NewPlaced(s, id, a);
      }
    }
  }

  lemma StepInv(s: State, e: Step)
    requires Shaped(s) && Inv(s) && Apply(s, e).Some?
    ensures Inv(Apply(s, e).value)
  {
    match e {
      case Begin(_, _, _, _, _) =>
        BeginSound(s, e);
        BeginExclusive(s, e);
        BeginSent(s, e);
      case Act(id, a) =>
        ActSound(s, id, a);
        ActExclusive(s, id, a);
        ActPlaced(s, id, a);
        ActContiguous(s, id, a);
        ActLatest(s, id, a);
        ActSent(s, id, a);
        ActInSequence(s, id, a);
    }
  }

  lemma {:induction false} Invariant(steps: seq<Step>, states: seq<State>, n: nat)
    requires Behavior(steps, states) && n < |states|
    ensures Shaped(states[n]) && Inv(states[n])
  {
    if n > 0 {
      Invariant(steps, states, n - 1);
      assert Apply(states[n - 1], steps[n - 1]) == Some(states[n]);
      StepInv(states[n - 1], steps[n - 1]);
    }
  }

  // ----- the results -----

  /** No interleaving: in every state of every run the submissions on one endpoint form one block per request, and
      the flag of an endpoint is set exactly while one request holds it. */
  lemma NoInterleaving(steps: seq<Step>, states: seq<State>, n: nat)
    requires Behavior(steps, states) && n < |states|
    ensures Shaped(states[n]) && Contiguous(states[n].log) && Exclusive(states[n])
  {
    Invariant(steps, states, n);
  }

  /** Once another request has submitted on the endpoint, the earlier one never submits there again. */
  lemma OvertakenForGood(steps: seq<Step>, states: seq<State>, m: nat, n: nat, i: nat, j: nat, k: nat)
    requires Behavior(steps, states) && m <= n < |states|
    requires i < j < |states[m].log| <= k < |states[n].log|
    requires states[m].log[i].address == states[m].log[j].address == states[n].log[k].address
    requires states[m].log[i].id != states[m].log[j].id
    ensures states[n].log[k].id != states[m].log[i].id
  {
    Invariant(steps, states, n);
    LogGrows(steps, states, m, n);
  }

  lemma {:induction false} LogGrows(steps: seq<Step>, states: seq<State>, m: nat, n: nat)
    requires Behavior(steps, states) && m <= n < |states|
    ensures states[m].log <= states[n].log
    decreases n
  {
    if m < n {
      LogGrows(steps, states, m, n - 1);
      assert Apply(states[n - 1], steps[n - 1]) == Some(states[n]);
    }
  }

  /** The whole clean-up of a request that reports `information`. */
  function CleanUp(t: Transfer, information: nat): seq<End> {
    (if t.hasContext then [FreeContext] else []) + [ReleaseLock, CompleteIrp(t.ok, information)]
  }

  /** Nothing is left to do for the request. */
  predicate Over(t: Transfer) {
    !t.tail && (t.submitter == Rejected || (t.submitter == Returned && t.completer == Finished))
  }

  /** Exactly once: at any moment a request has done an initial part of one clean-up (context freed if it existed,
      then the remove lock released, then the request completed with its status and the bytes counted); a request with
      nothing left to do has done all of it; and any other request can take a step, whatever the others do. */
  lemma CleanedUpOnce(steps: seq<Step>, states: seq<State>, n: nat, i: nat)
    requires Behavior(steps, states) && n < |states| && i < |states[n].transfers|
    ensures var t := states[n].transfers[i];
            var reported := if t.completer == Unsent then 0 else t.information;
            && t.ends <= CleanUp(t, reported)
            && (Over(t) ==> t.ends == CleanUp(t, reported))
            && Shaped(states[n])
            && (Over(t) <==> forall a :: Apply(states[n], Act(i, a)).None?)
  {
    Invariant(steps, states, n);
    var s := states[n];
    assert Sound(s, i);
    CanMove(s.cells[s.transfers[i].address], s.transfers[i]);
    forall a ensures Apply(s, Act(i, a)).None? <==> Move(s.cells[s.transfers[i].address], s.transfers[i], a).None? {}
  }

  lemma CanMove(c: Cell, t: Transfer)
    requires Accounts(t)
    ensures Over(t) <==> forall a :: Move(c, t, a).None?
  {
    if !Over(t) {
      var a := if t.tail then ClearTail
               else if t.submitter !in {Returned, Rejected} then Submitter(Prepared)
               else if t.completer == InFlight then Bus(false, false, 0)
               else Completer(true);
      assert Move(c, t, a).Some?;
    }
  }

  /** How the bus ended a chunk of request `i` last. */
  function LastEnd(steps: seq<Step>, i: nat): Option<Action> {
    if steps == [] then None
    else
      var last := steps[|steps| - 1];
      if last.Act? && last.id == i && last.action.Bus? then Some(last.action) else LastEnd(steps[..|steps| - 1], i)
  }

  /** The NTSTATUS of that chunk. */
  function LastStatus(steps: seq<Step>, i: nat): bool {
    match LastEnd(steps, i) case None => true case Some(a) => a.Bus? && a.irp
  }

  /** How the status of a request stands to the steps it has taken. */
  predicate StatusAccounts(t: Transfer, last: bool) {
    if NotSentYet(t) then
      && last && (t.submitter in {Numbered, SubmitterPc.Took, Armed, SubmitterPc.Ready} ==> t.ok)
      && (t.submitter in {UndoBusy, UndoContext, UndoLock, UndoIrp, Rejected} && t.hasContext ==> !t.ok)
      && (t.submitter == UndoBusy ==> !t.ok) && (t.submitter in {Numbered, SubmitterPc.Took, Armed} ==> !t.hasContext)
    else t.ok == last
  }

  lemma MoveStatus(c: Cell, t: Transfer, a: Action, last: bool)
    requires t.mps > 0 && Move(c, t, a).Some? && (NotSentYet(t) <==> t.completer == Unsent) && StatusAccounts(t, last)
    ensures StatusAccounts(Move(c, t, a).value.transfer, if a.Bus? then a.irp else last)
  {
    hide SameRequest;
    match a {
      case Submitter(p) =>
        match t.submitter {
          case Numbered => case Took => case Armed => case Ready => case Tail =>
          case UndoBusy => case UndoContext => case UndoLock => case UndoIrp =>
        }
      case Bus(irp, urb, length) =>
      case Completer(mdl) =>
      case ClearTail =>
    }
  }

  predicate RunStatus(s: State, i: nat, last: bool) {
    if i < |s.transfers| then StatusAccounts(s.transfers[i], last) else last
  }

  lemma StepStatus(s: State, e: Step, i: nat, last: bool)
    requires Shaped(s) && Inv(s) && Apply(s, e).Some? && RunStatus(s, i, last)
    ensures RunStatus(Apply(s, e).value, i, if e.Act? && e.id == i && e.action.Bus? then e.action.irp else last)
  {
    hide Move, StatusAccounts, EndsInOrder, Contiguous, Disjoint, LatestIsPending, InSequence, Exclusive;
    if e.Act? && e.id == i {
      assert Sound(s, i);
      MoveStatus(s.cells[s.transfers[i].address], s.transfers[i], e.action, last);
    }
    NewStatus();
  }

  lemma NewStatus()
    ensures forall sequence, address, bulk, mps, mts, length ::
              StatusAccounts(NewTransfer(sequence, address, bulk, mps, mts, length), true)
  {}

  lemma LastStatusNext(steps: seq<Step>, n: nat, i: nat)
    requires 0 < n <= |steps|
    ensures var e := steps[n - 1];
            LastStatus(steps[..n], i)
            == if e.Act? && e.id == i && e.action.Bus? then e.action.irp else LastStatus(steps[..n - 1], i)
  {
    assert steps[..n][..n - 1] == steps[..n - 1];
  }

  /** The status reported: a request that went to the bus is completed with the NTSTATUS of its last chunk, whatever
      its request block said and whatever stopped it from going on; one that did not is a failure if it had a
      context. */
  lemma {:induction false} StatusIsLast(steps: seq<Step>, states: seq<State>, n: nat, i: nat)
    requires Behavior(steps, states) && n < |states|
    ensures RunStatus(states[n], i, LastStatus(steps[..n], i))
    decreases n
  {
    hide RunStatus, LastStatus, Apply, Inv;
    if n > 0 {
      StatusIsLast(steps, states, n - 1, i);
      Invariant(steps, states, n - 1);
      assert Apply(states[n - 1], steps[n - 1]) == Some(states[n]);
      LastStatusNext(steps, n, i);
      StepStatus(states[n - 1], steps[n - 1], i, LastStatus(steps[..n - 1], i));
    } else {
      StartStatus(states[0], i);
    }
  }

  lemma StartStatus(s: State, i: nat)
    requires s == Initial()
    ensures RunStatus(s, i, LastStatus([], i))
  {}

  /** The request's first step finds the flag of its endpoint taken. */
  predicate FindsBusy(s: State, e: Step, i: nat)
    requires Shaped(s)
  {
    && e.Act? && e.id == i && i < |s.transfers| && e.action.Submitter?
    && s.transfers[i].submitter == Numbered && s.cells[s.transfers[i].address].busy
  }

  ghost predicate FoundBusy(steps: seq<Step>, states: seq<State>, i: nat, n: nat)
    requires Behavior(steps, states) && n < |states|
  {
    exists k :: 0 <= k < n && FindsBusy(states[k], steps[k], i)
  }

  predicate BusyAccounts(t: Transfer, found: bool) {
    && (t.submitter in {Numbered, SubmitterPc.Took, Armed} ==> t.ok)
    && (if t.submitter in {UndoContext, UndoLock, UndoIrp, Rejected} then t.completer == Unsent && t.ok == found
        else !found && (t.submitter == UndoBusy ==> t.completer == Unsent && !t.ok))
  }

  lemma MoveBusy(c: Cell, t: Transfer, a: Action, found: bool)
    requires t.mps > 0 && Move(c, t, a).Some? && (NotSentYet(t) <==> t.completer == Unsent) && BusyAccounts(t, found)
    ensures BusyAccounts(Move(c, t, a).value.transfer, found || (a.Submitter? && t.submitter == Numbered && c.busy))
  {
    hide SameRequest, Send;
    match a {
      case Submitter(p) =>
        match t.submitter {
          case Numbered => case Took => case Armed => case Ready => SendIs(t); case Tail =>
          case UndoBusy => case UndoContext => case UndoLock => case UndoIrp =>
        }
      case Bus(_, _, _) =>
      case Completer(_) => SendIs(t);
      case ClearTail =>
    }
  }

  lemma SendIs(t: Transfer)
    ensures Send(t).submitter == t.submitter && Send(t).sequence == t.sequence && Send(t).ok == t.ok
    ensures Send(t).completer == InFlight && Send(t).hasContext == t.hasContext
  {}

  predicate RunBusy(s: State, i: nat, found: bool) {
    if i < |s.transfers| then BusyAccounts(s.transfers[i], found) else !found
  }

  lemma StepBusy(s: State, e: Step, i: nat, found: bool)
    requires Shaped(s) && Inv(s) && Apply(s, e).Some? && RunBusy(s, i, found)
    ensures RunBusy(Apply(s, e).value, i, found || FindsBusy(s, e, i))
  {
    hide Move, BusyAccounts, EndsInOrder, Contiguous, Disjoint, LatestIsPending, InSequence, Exclusive;
    if e.Act? && e.id == i {
      assert Sound(s, i);
      MoveBusy(s.cells[s.transfers[i].address], s.transfers[i], e.action, found);
    }
    NewBusy();
  }

  lemma FoundNext(steps: seq<Step>, states: seq<State>, i: nat, n: nat)
    requires Behavior(steps, states) && 0 < n < |states|
    ensures FoundBusy(steps, states, i, n) <==>
              FoundBusy(steps, states, i, n - 1) || FindsBusy(states[n - 1], steps[n - 1], i)
  {
    hide Apply, FindsBusy;
  }

  lemma {:induction false} BusyCounts(steps: seq<Step>, states: seq<State>, n: nat, i: nat)
    requires Behavior(steps, states) && n < |states|
    ensures RunBusy(states[n], i, FoundBusy(steps, states, i, n))
    decreases n
  {
    hide RunBusy, FindsBusy, Apply, Inv;
    if n > 0 {
      BusyCounts(steps, states, n - 1, i);
      Invariant(steps, states, n - 1);
      assert Apply(states[n - 1], steps[n - 1]) == Some(states[n]);
      FoundNext(steps, states, i, n);
      StepBusy(states[n - 1], steps[n - 1], i, FoundBusy(steps, states, i, n - 1));
    } else {
      StartBusy(states[0], i);
    }
  }

  lemma StartBusy(s: State, i: nat)
    requires s == Initial()
    ensures RunBusy(s, i, false)
  {}

  lemma NewBusy()
    ensures forall sequence, address, bulk, mps, mts, length ::
              BusyAccounts(NewTransfer(sequence, address, bulk, mps, mts, length), false)
  {}

  /** The status that a request is completed with, exactly. One that the call rejected is a success, with no bytes, if and
      only if it found its endpoint busy. One that went to the bus is a success if and only if the NTSTATUS of its last
      chunk was; so a request block that failed is reported as a success exactly if the NTSTATUS did not fail with it. */
  lemma ReportedExactly(steps: seq<Step>, states: seq<State>, n: nat, i: nat)
    requires Behavior(steps, states) && n < |states| && i < |states[n].transfers| && Over(states[n].transfers[i])
    ensures var t := states[n].transfers[i];
            var last := LastEnd(steps[..n], i);
            if t.submitter == Rejected then
              CompleteIrp(true, 0) in t.ends <==> FoundBusy(steps, states, i, n)
            else
              && (CompleteIrp(true, t.information) in t.ends <==> LastStatus(steps[..n], i))
              && (last.Some? && last.value.Bus? && !(last.value.irp && last.value.urb) ==>
                    (CompleteIrp(true, t.information) in t.ends <==> last.value.irp && !last.value.urb))
  {
    Invariant(steps, states, n);
    BusyCounts(steps, states, n, i);
    StatusIsLast(steps, states, n, i);
    SoundEnds(states[n], i);
    EndsWith(states[n].transfers[i]);
    hide LastEnd, FoundBusy, Inv, Behavior, EndsInOrder, Accounts;
  }

  lemma SoundEnds(s: State, i: nat)
    requires Shaped(s) && Inv(s) && i < |s.transfers|
    ensures Accounts(s.transfers[i]) && EndsInOrder(s.transfers[i])
  {
    assert Sound(s, i);
    hide Accounts, EndsInOrder, HoldsOnce, UsesCell;
  }

  lemma EndsWith(t: Transfer)
    requires Accounts(t) && EndsInOrder(t) && Over(t)
    ensures if t.submitter == Rejected then CompleteIrp(true, 0) in t.ends <==> t.ok
            else CompleteIrp(true, t.information) in t.ends <==> t.ok
    ensures t.submitter == Rejected <==> NotSentYet(t)
  {}

  /** The steps that read or write the context of the request, which the last write of `transfer_complete` does
      too. */
  predicate UsesContext(t: Transfer, a: Action) {
    match a
    case Submitter(_) => t.submitter == SubmitterPc.Ready || (t.submitter == UndoContext && t.hasContext)
    case Bus(_, _, _) => true
    case Completer(_) => t.completer in {Trying, CompleterPc.Took, CompleterPc.Ready, Clearing, Freeing}
    case ClearTail => true
  }

  /** A freed context is used by one step only: clearing `pending_busy` behind a chunk that is over already. */
  lemma OnlyTheTailFollows(steps: seq<Step>, states: seq<State>, n: nat, i: nat, a: Action)
    requires Behavior(steps, states) && n < |states| && i < |states[n].transfers|
    requires Shaped(states[n]) && Apply(states[n], Act(i, a)).Some?
    requires FreeContext in states[n].transfers[i].ends
    ensures UsesContext(states[n].transfers[i], a) <==> a == ClearTail
  {
    Invariant(steps, states, n);
    assert Sound(states[n], i);
  }

  /** A lone request and its endpoint can come to stand like this. */
  ghost predicate Reached(c: Cell, t: Transfer) {
    exists steps: seq<Step>, states: seq<State> ::
      Behavior(steps, states) && Alone(states[|steps|], c, t)
  }

  predicate Alone(s: State, c: Cell, t: Transfer) {
    Shaped(s) && |s.transfers| == 1 && s.transfers[0] == t && s.cells[t.address] == c
  }

  lemma Starts(address: nat, mps: nat, mts: nat, length: nat)
    requires address < ADDRESSES && mps > 0 && mts > 0
    ensures Reached(Cell(false, 0), NewTransfer(1, address, true, mps, mts, length))
  {
    var e := Begin(address, true, mps, mts, length);
    var steps, states := [e], [Initial(), Apply(Initial(), e).value];
    assert Behavior(steps, states) && Alone(states[1], Cell(false, 0), NewTransfer(1, address, true, mps, mts, length));
  }

  lemma Moves(c: Cell, t: Transfer, a: Action)
    requires Reached(c, t) && t.mps > 0 && Move(c, t, a).Some?
    ensures var m := Move(c, t, a).value; Reached(m.cell, m.transfer)
  {
    var steps: seq<Step>, states: seq<State> :| Behavior(steps, states) && Alone(states[|steps|], c, t);
    var e, m := Act(0, a), Move(c, t, a).value;
    MoveKeeps(c, t, a);
    hide Move;
    var r := Apply(states[|steps|], e).value;
    assert r.transfers[0] == m.transfer;
    assert Behavior(steps + [e], states + [r]) && Alone((states + [r])[|steps + [e]|], m.cell, m.transfer);
  }

  lemma MoveKeeps(c: Cell, t: Transfer, a: Action)
    requires t.mps > 0 && Move(c, t, a).Some?
    ensures SameRequest(t, Move(c, t, a).value.transfer)
  {}

  /** And it can follow: a transfer of two chunks whose second chunk is over before the first completion has cleared
      the flag behind it. */
  lemma TailAfterFree()
    ensures exists c: Cell, t: Transfer ::
              t.mps > 0 && Reached(c, t) && FreeContext in t.ends && Move(c, t, ClearTail).Some?
  {
    FirstChunk();
    SecondChunk();
    hide Reached;
    assert FreeContext in TwoChunks(2, 128).(completer := Releasing, tail := true, ends := [FreeContext]).ends;
  }

  /** A request of two chunks that has sent some of them and counted some bytes. */
  function TwoChunks(sent: nat, information: nat): Transfer
    requires information <= 128
  {
    Transfer(0x81, 1, true, 64, 64, 128, 128 - information, information, 64, sent, Returned, InFlight, false, true, true,
             [])
  }

  lemma FirstChunk()
    ensures Reached(Cell(false, 1), TwoChunks(1, 0))
  {
    Starts(0x81, 64, 64, 128);
    hide Reached, SameRequest;
    var t := NewTransfer(1, 0x81, true, 64, 64, 128);
    Moves(Cell(false, 0), t, Submitter(Prepared));
    Moves(Cell(true, 0), t.(submitter := SubmitterPc.Took), Submitter(Prepared));
    Moves(Cell(true, 1), t.(submitter := Armed), Submitter(Prepared));
    Moves(Cell(true, 1), t.(submitter := SubmitterPc.Ready, hasContext := true), Submitter(Prepared));
    Moves(Cell(true, 1), TwoChunks(1, 0).(submitter := Tail), Submitter(Prepared));
  }

  lemma SecondChunk()
    requires Reached(Cell(false, 1), TwoChunks(1, 0))
    ensures Reached(Cell(true, 1), TwoChunks(2, 128).(completer := Releasing, tail := true, ends := [FreeContext]))
  {
    hide Reached, SameRequest;
    var t, u := TwoChunks(1, 64), TwoChunks(2, 128).(tail := true);
    Moves(Cell(false, 1), TwoChunks(1, 0), Bus(true, true, 64));
    Moves(Cell(false, 1), t.(completer := Trying), Completer(true));
    Moves(Cell(true, 1), t.(completer := CompleterPc.Took), Completer(true));
    Moves(Cell(true, 1), t.(completer := CompleterPc.Ready), Completer(true));
    Moves(Cell(true, 1), TwoChunks(2, 64).(tail := true), Bus(true, true, 64));
    Moves(Cell(true, 1), u.(completer := Freeing), Completer(true));
    assert u.ends + [FreeContext] == [FreeContext];
  }

  /** Conservation: what was counted and what is left always make up the request; the submissions of a request are
      its consecutive chunks, inside its buffer, disjoint, and no more than its length needs. */
  lemma Conservation(steps: seq<Step>, states: seq<State>, n: nat, i: nat)
    requires Behavior(steps, states) && n < |states| && i < |states[n].transfers|
    ensures var s := states[n];
            var t := s.transfers[i];
            && t.information + t.totalLength == t.requested
            && (SentBy(s.log, i) > 1 ==> (SentBy(s.log, i) - 1) * t.mts < t.requested)
            && Shaped(s) && InSequence(s) && Disjoint(s.log)
            && forall k :: 0 <= k < |s.log| && s.log[k].id == i ==>
                 s.log[k].address == t.address && s.log[k].length <= t.mts
                 && s.log[k].offset + s.log[k].length <= t.requested
  {
    Invariant(steps, states, n);
    var s := states[n];
    assert Sound(s, i);
    forall k | 0 <= k < |s.log| ensures Placed(s, s.log[k]) {}
  }

  /** The allocation of the request's context succeeds. */
  predicate MakesContext(s: State, e: Step, i: nat) {
    && e.Act? && e.id == i && i < |s.transfers| && e.action.Submitter? && e.action.preparation != NoContext
    && s.transfers[i].submitter == Armed
  }

  ghost predicate MadeContext(steps: seq<Step>, states: seq<State>, i: nat, n: nat)
    requires Behavior(steps, states) && n < |states|
  {
    exists k :: 0 <= k < n && MakesContext(states[k], steps[k], i)
  }

  lemma MoveMakes(c: Cell, t: Transfer, a: Action)
    requires t.mps > 0 && Move(c, t, a).Some?
    ensures Move(c, t, a).value.transfer.hasContext
            == (t.hasContext || (a.Submitter? && a.preparation != NoContext && t.submitter == Armed))
  {
    hide SameRequest, Send;
    match a {
      case Submitter(p) =>
        match t.submitter {
          case Numbered => case Took => case Armed => case Ready => SendIs(t); case Tail =>
          case UndoBusy => case UndoContext => case UndoLock => case UndoIrp =>
        }
      case Bus(_, _, _) =>
      case Completer(_) => SendIs(t);
      case ClearTail =>
    }
  }

  lemma MakesNext(steps: seq<Step>, states: seq<State>, i: nat, n: nat)
    requires Behavior(steps, states) && 0 < n < |states|
    ensures MadeContext(steps, states, i, n) <==>
              MadeContext(steps, states, i, n - 1) || MakesContext(states[n - 1], steps[n - 1], i)
  {
    hide Apply, MakesContext;
  }

  predicate RunMakes(s: State, i: nat, made: bool) {
    if i < |s.transfers| then s.transfers[i].hasContext == made else !made
  }

  lemma StepMakes(s: State, e: Step, i: nat, made: bool)
    requires Shaped(s) && Apply(s, e).Some? && RunMakes(s, i, made)
    ensures RunMakes(Apply(s, e).value, i, made || MakesContext(s, e, i))
  {
    hide Move;
    if e.Act? && e.id == i {
      MoveMakes(s.cells[s.transfers[i].address], s.transfers[i], e.action);
    }
  }

  lemma {:induction false} ContextCounts(steps: seq<Step>, states: seq<State>, n: nat, i: nat)
    requires Behavior(steps, states) && n < |states|
    ensures RunMakes(states[n], i, MadeContext(steps, states, i, n))
    decreases n
  {
    hide Apply, RunMakes, MakesContext;
    if n > 0 {
      ContextCounts(steps, states, n - 1, i);
      assert Shaped(states[n - 1]) && Apply(states[n - 1], steps[n - 1]) == Some(states[n]);
      MakesNext(steps, states, i, n);
      StepMakes(states[n - 1], steps[n - 1], i, MadeContext(steps, states, i, n - 1));
    } else {
      NoneMade(states[0], i);
    }
  }

  lemma NoneMade(s: State, i: nat)
    requires s == Initial()
    ensures RunMakes(s, i, false)
  {}

  /** A request that is over has freed a context if and only if it had allocated one. */
  lemma FreedExactly(steps: seq<Step>, states: seq<State>, n: nat, i: nat)
    requires Behavior(steps, states) && n < |states| && i < |states[n].transfers| && Over(states[n].transfers[i])
    ensures FreeContext in states[n].transfers[i].ends <==> MadeContext(steps, states, i, n)
  {
    Invariant(steps, states, n);
    ContextCounts(steps, states, n, i);
    SoundEnds(states[n], i);
    FreesItsOwn(states[n].transfers[i]);
    hide Inv, Behavior, MadeContext, EndsInOrder, Accounts;
  }

  lemma FreesItsOwn(t: Transfer)
    requires Accounts(t) && EndsInOrder(t) && Over(t)
    ensures FreeContext in t.ends <==> t.hasContext
  {}

  /** What a request must be to send more than one chunk. */
  predicate MayContinue(t: Transfer) {
    t.mps > 0 && t.bulk && t.mts % t.mps == 0
  }

  predicate Continues(t: Transfer) {
    t.sent > 1 || t.completer in {Trying, CompleterPc.Took, CompleterPc.Ready}
  }

  lemma MoveContinues(c: Cell, t: Transfer, a: Action)
    requires Accounts(t) && Move(c, t, a).Some? && (Continues(t) ==> MayContinue(t))
    ensures Continues(Move(c, t, a).value.transfer) ==> MayContinue(Move(c, t, a).value.transfer)
  {
    MoveKeeps(c, t, a);
    hide SubmitterMove, CompleterMove, SameRequest;
    match a {
      case Submitter(p) => SubmitterContinues(c, t, p);
      case Bus(irp, urb, length) =>
      case Completer(mdl) => CompleterContinues(c, t, mdl);
      case ClearTail =>
    }
  }

  lemma SubmitterContinues(c: Cell, t: Transfer, p: Preparation)
    requires SubmitterMove(c, t, p).Some? && (NotSentYet(t) <==> t.sent == 0) && (NotSentYet(t) <==> t.completer == Unsent)
    ensures var u := SubmitterMove(c, t, p).value.transfer;
            && (Continues(u) ==> Continues(t)) && u.mps == t.mps && u.mts == t.mts && u.bulk == t.bulk
  {
    match t.submitter {
      case Numbered => case Took => case Armed => case Ready => case Tail =>
      case UndoBusy => case UndoContext => case UndoLock => case UndoIrp =>
    }
  }

  lemma CompleterContinues(c: Cell, t: Transfer, mdl: bool)
    requires CompleterMove(c, t, mdl).Some?
    ensures var u := CompleterMove(c, t, mdl).value.transfer;
            && (Continues(u) ==> Continues(t)) && u.mps == t.mps && u.mts == t.mts && u.bulk == t.bulk
  {
    match t.completer {
      case Trying => case Took => case Ready =>
      case Clearing => case Freeing => case Releasing => case Finishing =>
    }
  }

  predicate RunContinues(s: State, i: nat) {
    i < |s.transfers| && Continues(s.transfers[i]) ==> MayContinue(s.transfers[i])
  }

  lemma StepContinues(s: State, e: Step, i: nat)
    requires Shaped(s) && Inv(s) && Apply(s, e).Some? && RunContinues(s, i)
    ensures RunContinues(Apply(s, e).value, i)
  {
    if i < |s.transfers| {
      SoundEnds(s, i);
      hide Move, Inv, Accounts, EndsInOrder, Continues, MayContinue;
      if e.Act? && e.id == i {
        MoveContinues(s.cells[s.transfers[i].address], s.transfers[i], e.action);
      }
    } else {
      hide MayContinue, Inv, Move;
    }
  }

  /** In every run, a request that has sent more than one chunk is a bulk or interrupt transfer whose chunks are whole
      packets. */
  lemma {:induction false} OnlyWholePacketsContinue(steps: seq<Step>, states: seq<State>, n: nat, i: nat)
    requires Behavior(steps, states) && n < |states|
    ensures i < |states[n].transfers| && states[n].transfers[i].sent > 1 ==>
              var t := states[n].transfers[i]; t.mps > 0 && t.bulk && t.mts % t.mps == 0
    ensures RunContinues(states[n], i)
    decreases n
  {
    if n > 0 {
      OnlyWholePacketsContinue(steps, states, n - 1, i);
      Invariant(steps, states, n - 1);
      assert Apply(states[n - 1], steps[n - 1]) == Some(states[n]);
      hide Apply, Inv;
      StepContinues(states[n - 1], steps[n - 1], i);
    }
  }

  /** No endpoint stays blocked: when every request on it is over, its flag is clear. */
  lemma FlagsAreGivenBack(steps: seq<Step>, states: seq<State>, n: nat, address: nat)
    requires Behavior(steps, states) && n < |states| && address < |states[n].cells|
    requires forall i :: 0 <= i < |states[n].transfers| && states[n].transfers[i].address == address ==>
               Over(states[n].transfers[i])
    ensures !states[n].cells[address].busy
  {
    Invariant(steps, states, n);
    var s := states[n];
    forall i | 0 <= i < |s.transfers| && s.transfers[i].address == address ensures !Holds(s.transfers[i]) {
      assert Sound(s, i);
    }
  }

  // ----- every request comes to an end -----

  function SubmitterWork(t: Transfer): nat {
    match t.submitter
    case Numbered => 30 case Took => 29 case Armed => 28 case Ready => 27 case Tail => 1
    case UndoBusy => 5 case UndoContext => 4 case UndoLock => 3 case UndoIrp => 2
    case Returned => 0 case Rejected => 0
  }

  function CompleterWork(t: Transfer): nat {
    match t.completer
    case Unsent => 0 case InFlight => 9 case Trying => 20 case Took => 19 case Ready => 18
    case Clearing => 5 case Freeing => 4 case Releasing => 3 case Finishing => 2 case Finished => 0
  }

  function Work(t: Transfer): nat {
    20 * t.totalLength + SubmitterWork(t) + CompleterWork(t) + (if t.tail then 1 else 0)
  }

  function OwnSteps(steps: seq<Step>, i: nat): nat {
    if steps == [] then 0
    else
      var last := steps[|steps| - 1];
      OwnSteps(steps[..|steps| - 1], i) + (if last.Act? && last.id == i then 1 else 0)
  }

  lemma MoveWorks(c: Cell, t: Transfer, a: Action)
    requires Accounts(t) && Move(c, t, a).Some?
    ensures Work(Move(c, t, a).value.transfer) < Work(t)
  {
    hide SubmitterMove, BusMove, CompleterMove;
    match a {
      case Submitter(p) => SubmitterWorks(c, t, p);
      case Bus(irp, urb, length) => BusWorks(c, t, irp, urb, length);
      case Completer(mdl) => CompleterWorks(c, t, mdl);
      case ClearTail =>
    }
  }

  lemma SubmitterWorks(c: Cell, t: Transfer, p: Preparation)
    requires SubmitterMove(c, t, p).Some?
    ensures Work(SubmitterMove(c, t, p).value.transfer) < Work(t)
  {
    hide SameRequest;
    match t.submitter {
      case Numbered => case Took => case Armed => case Ready => case Tail =>
      case UndoBusy => case UndoContext => case UndoLock => case UndoIrp =>
    }
  }

  lemma BusWorks(c: Cell, t: Transfer, irp: bool, urb: bool, length: nat)
    requires t.mps > 0 && t.mts > 0 && BusMove(c, t, irp, urb, length).Some?
    ensures Work(BusMove(c, t, irp, urb, length).value.transfer) < Work(t)
  {}

  lemma CompleterWorks(c: Cell, t: Transfer, mdl: bool)
    requires CompleterMove(c, t, mdl).Some?
    ensures Work(CompleterMove(c, t, mdl).value.transfer) < Work(t)
  {
    hide SameRequest;
    match t.completer {
      case Trying => case Took => case Ready =>
      case Clearing => case Freeing => case Releasing => case Finishing =>
    }
  }

  /** A request starts with 20 units of work per byte and 30 more; each of its own steps uses up at least one. */
  lemma StepWorks(s: State, e: Step, i: nat)
    requires Shaped(s) && Inv(s) && Apply(s, e).Some?
    ensures var r := Apply(s, e).value;
            if i < |s.transfers| then
              && i < |r.transfers| && r.transfers[i].requested == s.transfers[i].requested
              && Work(r.transfers[i]) + (if e.Act? && e.id == i then 1 else 0) <= Work(s.transfers[i])
            else
              && !(e.Act? && e.id == i)
              && (i < |r.transfers| ==> Work(r.transfers[i]) == 20 * r.transfers[i].requested + 30)
  {
    if e.Act? && e.id == i {
      assert Sound(s, i);
      MoveWorks(s.cells[s.transfers[i].address], s.transfers[i], e.action);
    }
  }

  /** Every request is over after a number of its own steps fixed by its length, however the others interleave. */
  lemma {:induction false} EndsInTime(steps: seq<Step>, states: seq<State>, n: nat, i: nat)
    requires Behavior(steps, states) && n < |states|
    ensures if i < |states[n].transfers| then
              OwnSteps(steps[..n], i) + Work(states[n].transfers[i]) <= 20 * states[n].transfers[i].requested + 30
            else OwnSteps(steps[..n], i) == 0
    decreases n
  {
    if n > 0 {
      EndsInTime(steps, states, n - 1, i);
      Invariant(steps, states, n - 1);
      hide Apply, Inv, Work;
      assert Apply(states[n - 1], steps[n - 1]) == Some(states[n]);
      assert steps[..n][..n - 1] == steps[..n - 1];
      StepWorks(states[n - 1], steps[n - 1], i);
    }
  }
}
