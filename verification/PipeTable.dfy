/** The endpoint table that `update_pipe_info` fills and `get_pipe_info` searches (libusb/src/driver/libusb_driver.c),
    with the default chunk size it computes for every pipe. */
module PipeTable {
  import opened Arithmetic
  import opened Bytes
  import opened SplitTransfer

  const KILO := 1024
  const MEGA := 1024 * 1024

  datatype PipeType = Control | Isochronous | Bulk | Interrupt
  datatype Speed = LowOrFull | High | Super

  /** A pipe as the bus driver describes it; `packetSize` is a USHORT, handle 0 is none. */
  datatype Pipe = Pipe(address: byte, handle: nat, packetSize: nat, interval: byte, kind: PipeType, flags: nat)

  datatype Endpoint = Endpoint(address: byte, handle: nat, packetSize: nat, interval: byte, kind: PipeType, flags: nat,
                               transferSize: nat)
  const BLANK := Endpoint(0, 0, 0, 0, Control, 0, 0)

  function Largest(kind: PipeType, speed: Speed, packetSize: nat): nat {
    match kind
    case Control => if speed == Super then 64 * KILO else 4 * KILO
    case Interrupt => 4 * MEGA
    case Isochronous => (if speed == LowOrFull then 256 else 1024) * packetSize
    case Bulk => match speed case Super => 32 * MEGA case High => 4 * MEGA case LowOrFull => 256 * KILO
  }

  /** As many whole packets as fit; a packet size of 0 changes nothing. */
  function RoundDown(n: nat, packetSize: nat): nat {
    if packetSize == 0 then n else n - n % packetSize
  }

  lemma RoundDownIs(n: nat, packetSize: nat, k: nat)
    requires packetSize > 0
    ensures var size := RoundDown(n, packetSize);
            && size % packetSize == 0
            && (k * packetSize <= n <==> k * packetSize <= size)
            && (size > 0 <==> packetSize <= n)
  {
    var q, rest := n / packetSize, n % packetSize;
    assert n == q * packetSize + rest;
    MultipleOf(q, packetSize);
    if k > q {
      ProductGrows(q + 1, k, packetSize);
      assert (q + 1) * packetSize == q * packetSize + packetSize;
    } else {
      ProductGrows(k, q, packetSize);
    }
    MultipleBound(q, packetSize);
  }

  function TransferSize(kind: PipeType, speed: Speed, packetSize: nat): nat {
    RoundDown(Largest(kind, speed, packetSize), packetSize)
  }

  /** The greatest number of whole packets that fits, and for a bulk or interrupt pipe that is one at least. */
  lemma TransferSizeIs(kind: PipeType, speed: Speed, packetSize: nat, k: nat)
    requires packetSize > 0
    ensures var size := TransferSize(kind, speed, packetSize);
            && size % packetSize == 0
            && (k * packetSize <= Largest(kind, speed, packetSize) <==> k * packetSize <= size)
            && (size > 0 <==> packetSize <= Largest(kind, speed, packetSize))
    ensures packetSize < 0x1_0000 && (kind == Bulk || kind == Interrupt) ==>
              packetSize <= Largest(kind, speed, packetSize)
  {
    hide RoundDown;
    RoundDownIs(Largest(kind, speed, packetSize), packetSize, k);
  }

  /** The greatest multiple of the packet size up to the limit. */
  predicate FitsLimit(size: nat, limit: nat, packetSize: nat) {
    packetSize > 0 && size % packetSize == 0 && size <= limit < size + packetSize
  }

  lemma RoundDownFits(n: nat, packetSize: nat)
    requires packetSize > 0
    ensures FitsLimit(RoundDown(n, packetSize), n, packetSize)
  {
    RoundDownIs(n, packetSize, 0);
  }

  /** The limits by pipe type and speed: 32 MB, 4 MB and 256 KB for bulk pipes, 4 MB for interrupt pipes, 64 KB and 4 KB
      for control pipes, and 1024 or 256 packets for isochronous ones. */
  lemma TransferSizesAre(packetSize: nat)
    requires packetSize > 0
    ensures FitsLimit(TransferSize(Bulk, Super, packetSize), 33554432, packetSize)
    ensures FitsLimit(TransferSize(Bulk, High, packetSize), 4194304, packetSize)
    ensures FitsLimit(TransferSize(Bulk, LowOrFull, packetSize), 262144, packetSize)
    ensures forall speed :: FitsLimit(TransferSize(Interrupt, speed, packetSize), 4194304, packetSize)
    ensures FitsLimit(TransferSize(Control, Super, packetSize), 65536, packetSize)
    ensures forall speed :: speed != Super ==> FitsLimit(TransferSize(Control, speed, packetSize), 4096, packetSize)
    ensures forall speed :: speed != LowOrFull ==> TransferSize(Isochronous, speed, packetSize) == 1024 * packetSize
    ensures TransferSize(Isochronous, LowOrFull, packetSize) == 256 * packetSize
  {
    RoundDownFits(33554432, packetSize);
    RoundDownFits(4194304, packetSize);
    RoundDownFits(262144, packetSize);
    RoundDownFits(65536, packetSize);
    RoundDownFits(4096, packetSize);
    MultipleOf(1024, packetSize);
    MultipleOf(256, packetSize);
    assert RoundDown(1024 * packetSize, packetSize) == 1024 * packetSize;
    assert RoundDown(256 * packetSize, packetSize) == 256 * packetSize;
    hide FitsLimit, RoundDown;
  }

  /** The slot is the pipe's: its address, handle, packet size, interval, type and flags. */
  predicate Describes(e: Endpoint, p: Pipe) {
    && e.address == p.address && e.handle == p.handle && e.packetSize == p.packetSize
    && e.interval == p.interval && e.kind == p.kind && e.flags == p.flags
  }

  function Entry(p: Pipe, speed: Speed): Endpoint {
    Endpoint(p.address, p.handle, p.packetSize, p.interval, p.kind, p.flags, TransferSize(p.kind, speed, p.packetSize))
  }

  /** A slot describes a pipe of the device, or is blanked out. */
  ghost predicate Sound(e: Endpoint, speed: Speed) {
    || (e.address == 0 && e.handle == 0)
    || (e.address != 0 && e.handle != 0 && e.packetSize < 0x1_0000
        && e.transferSize == TransferSize(e.kind, speed, e.packetSize))
  }

  predicate RealPipe(p: Pipe) {
    p.address != 0 && p.handle != 0 && p.packetSize < 0x1_0000
  }

  /** `GetMaxTransferSize`: what the request asks for, or else the endpoint's default. */
  function ChunkSize(e: Endpoint, requested: nat): nat {
    if requested != 0 then requested else e.transferSize
  }

  class Table {
    const speed: Speed
    const valid: array<bool>
    const endpoints: array2<Endpoint>

    ghost predicate Valid()
      reads valid, endpoints
    {
      && valid.Length == endpoints.Length0 == MAX_INTERFACES && endpoints.Length1 == MAX_ENDPOINTS
      && forall i, j :: 0 <= i < MAX_INTERFACES && 0 <= j < MAX_ENDPOINTS ==> Sound(endpoints[i, j], speed)
    }

    constructor (speed: Speed)
      ensures Valid() && fresh(valid) && fresh(endpoints)
      ensures forall i :: 0 <= i < MAX_INTERFACES ==> !valid[i]
    {
      this.speed := speed;
      valid := new bool[MAX_INTERFACES](_ => false);
      endpoints := new Endpoint[MAX_INTERFACES, MAX_ENDPOINTS]((_, _) => BLANK);
    }

    /** `update_pipe_info`: the interface's slots hold its first 32 pipes, in order, and no other address. Every other
        interface keeps its slots. */
    method Update(number: nat, pipes: seq<Pipe>) returns (ok: bool)
      requires Valid() && forall p :: p in pipes ==> RealPipe(p)
      modifies valid, endpoints
      ensures Valid() && ok == (number < MAX_INTERFACES)
      ensures valid[..] == if ok then old(valid[..])[number := true] else old(valid[..])
      ensures ok ==> forall j :: 0 <= j < MAX_ENDPOINTS ==>
                endpoints[number, j] == if j < |pipes| then Entry(pipes[j], speed)
                                        else old(endpoints[number, j]).(address := 0, handle := 0)
      ensures ok ==> forall j :: 0 <= j < MAX_ENDPOINTS && j < |pipes| ==> Describes(endpoints[number, j], pipes[j])
      ensures ok ==> forall j :: |pipes| <= j < MAX_ENDPOINTS ==>
                endpoints[number, j].address == 0 && endpoints[number, j].handle == 0
      ensures forall i, j :: 0 <= i < MAX_INTERFACES && i != number && 0 <= j < MAX_ENDPOINTS ==>
                endpoints[i, j] == old(endpoints[i, j])
    {
      if number >= MAX_INTERFACES {
        return false;
      }
      hide TransferSize;
      valid[number] := true;
      for j := 0 to MAX_ENDPOINTS
        invariant valid[..] == old(valid[..])[number := true]
        invariant forall k :: 0 <= k < MAX_ENDPOINTS ==>
                    endpoints[number, k] == if k < j then old(endpoints[number, k]).(address := 0, handle := 0)
                                            else old(endpoints[number, k])
        invariant forall i, k :: 0 <= i < MAX_INTERFACES && i != number && 0 <= k < MAX_ENDPOINTS ==>
                    endpoints[i, k] == old(endpoints[i, k])
      {
        endpoints[number, j] := endpoints[number, j].(address := 0, handle := 0);
      }
      var j := 0;
      while j < |pipes| && j < MAX_ENDPOINTS
        invariant 0 <= j <= |pipes| && j <= MAX_ENDPOINTS
        invariant valid[..] == old(valid[..])[number := true]
        invariant forall k :: 0 <= k < MAX_ENDPOINTS ==>
                    endpoints[number, k] == if k < j then Entry(pipes[k], speed)
                                            else old(endpoints[number, k]).(address := 0, handle := 0)
        invariant forall i, k :: 0 <= i < MAX_INTERFACES && i != number && 0 <= k < MAX_ENDPOINTS ==>
                    endpoints[i, k] == old(endpoints[i, k])
      {
        endpoints[number, j] := Entry(pipes[j], speed);
        j := j + 1;
      }
      forall i, j | 0 <= i < MAX_INTERFACES && 0 <= j < MAX_ENDPOINTS ensures Sound(endpoints[i, j], speed) {
        assert i != number ==> Sound(old(endpoints[i, j]), speed);
        assert j < |pipes| ==> RealPipe(pipes[j]);
      }
      return true;
    }

    /** The slot is the first with the address, over all valid interfaces. */
    ghost predicate FirstWith(address: byte, i: nat, j: nat)
      reads valid, endpoints
    {
      && valid.Length == endpoints.Length0 == MAX_INTERFACES && endpoints.Length1 == MAX_ENDPOINTS
      && i < MAX_INTERFACES && j < MAX_ENDPOINTS && valid[i] && endpoints[i, j].address == address
      && (forall k :: 0 <= k < j ==> endpoints[i, k].address != address)
      && (forall h, k :: 0 <= h < i && valid[h] && 0 <= k < MAX_ENDPOINTS ==> endpoints[h, k].address != address)
    }

    /** `get_pipe_info`: the first slot with the address, over all valid interfaces. What it finds under an address
        other than 0 is a pipe; what it finds under address 0 is a blank slot. */
    method Find(address: byte) returns (found: Option<(nat, nat)>)
      requires Valid()
      ensures found == None ==> forall i, j :: 0 <= i < MAX_INTERFACES && valid[i] && 0 <= j < MAX_ENDPOINTS ==>
                                  endpoints[i, j].address != address
      ensures found.Some? ==>
                var (i, j) := found.value;
                && FirstWith(address, i, j)
                && (endpoints[i, j].handle != 0 <==> address != 0)
    {
      hide TransferSize;
      for i := 0 to MAX_INTERFACES
        invariant forall h, k :: 0 <= h < i && valid[h] && 0 <= k < MAX_ENDPOINTS ==> endpoints[h, k].address != address
      {
        if valid[i] {
          for j := 0 to MAX_ENDPOINTS
            invariant forall k :: 0 <= k < j ==> endpoints[i, k].address != address
          {
            if endpoints[i, j].address == address {
              assert Sound(endpoints[i, j], speed);
              return Some((i, j));
            }
          }
        }
      }
      return None;
    }
  }

  /** An address leads to its pipe: in a table whose interface `number` has been filled with these pipes, and no interface
      below it has the address, what is found for the address of a pipe is the first pipe with that address. */
  lemma PipeIsFound(t: Table, number: nat, pipes: seq<Pipe>, p: nat, i: nat, j: nat)
    requires t.Valid() && number < MAX_INTERFACES && t.valid[number] && p < |pipes| && p < MAX_ENDPOINTS
    requires forall k :: 0 <= k < MAX_ENDPOINTS && k < |pipes| ==> Describes(t.endpoints[number, k], pipes[k])
    requires forall k :: 0 <= k < p ==> pipes[k].address != pipes[p].address
    requires forall h, k :: 0 <= h < number && t.valid[h] && 0 <= k < MAX_ENDPOINTS ==>
               t.endpoints[h, k].address != pipes[p].address
    requires t.FirstWith(pipes[p].address, i, j)
    ensures i == number && j == p && t.endpoints[i, j].handle == pipes[p].handle
  {
    assert Describes(t.endpoints[number, p], pipes[p]);
    forall k | 0 <= k < p ensures t.endpoints[number, k].address != pipes[p].address {
      assert Describes(t.endpoints[number, k], pipes[k]);
    }
  }

  /** A chunk size that a request asks for is taken, whatever the pipe's own, and is safe exactly if no transfer is longer
      or it is a whole number of packets. */
  lemma RequestedChunks(e: Endpoint, requested: nat, total: nat)
    requires requested > 0 && e.packetSize > 0
    ensures ChunkSize(e, requested) == requested
    ensures (forall stream: seq<BusEvent> ::
               Agree(SplitRead(stream, total, e.packetSize, ChunkSize(e, requested)),
                     RunUrb(stream, total, e.packetSize)))
            <==> total <= requested || requested % e.packetSize == 0
  {
    SplitPreservesMeaning(total, e.packetSize, requested);
    hide RunUrb, SplitRead, Agree;
  }

  /** The default chunk size makes every bulk or interrupt transfer, of any length and whatever the endpoint answers,
      look like one request, if its completions go on (`SplitRuns.DefaultExactly` is about the driver's transfers). */
  lemma DefaultChunksAreSafe(e: Endpoint, speed: Speed, total: nat, stream: seq<BusEvent>)
    requires Sound(e, speed) && e.address != 0 && e.packetSize > 0 && (e.kind == Bulk || e.kind == Interrupt)
    ensures ChunkSize(e, 0) > 0
    ensures Agree(SplitRead(stream, total, e.packetSize, ChunkSize(e, 0)), RunUrb(stream, total, e.packetSize))
  {
    TransferSizeIs(e.kind, speed, e.packetSize, 0);
    hide RunUrb, SplitRead, Agree, TransferSize;
    SplitPreservesMeaning(total, e.packetSize, ChunkSize(e, 0));
  }
}
