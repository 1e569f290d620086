/** Large bulk and interrupt transfers (libusb/src/driver/transfer.c): a request is cut into chunks of at most
    `maxTransferSize` bytes, and the completion of one chunk decides whether the next one is submitted. The
    reference is one single request of the whole length, which ends by the end-of-transfer rule of sections 5.7.3
    and 5.8.3 of the USB 2.0 specification. */
module SplitTransfer {
  import opened Arithmetic
  import opened Bytes

  /** What an endpoint answers, in order: a data packet, or a bus error (stall, cancellation, ...). */
  datatype BusEvent = Packet(data: seq<byte>) | Fault

  /** How a request ends: with data, with an error, or still waiting because the endpoint went silent.
      `rest` is what the endpoint has not answered yet. */
  datatype Status = Success | Failure | Waiting
  datatype Outcome = Outcome(status: Status, data: seq<byte>, rest: seq<BusEvent>)

  function Prepend(d: seq<byte>, o: Outcome): Outcome {
    o.(data := d + o.data)
  }

  // ----- one USB request block -----

  /** One request of `length` bytes: it ends when the bytes are there or with a packet shorter than the maximum
      packet size. A packet that exceeds the packet size, or the room left, is an overrun. */
  function RunUrb(stream: seq<BusEvent>, length: nat, mps: nat): (o: Outcome)
    ensures |o.data| <= length
    ensures o.status != Success ==> o.data == []
    decreases |stream|
  {
    if length == 0 then Outcome(Success, [], stream)
    else if stream == [] then Outcome(Waiting, [], [])
    else match stream[0]
      case Fault => Outcome(Failure, [], stream[1..])
      case Packet(d) =>
        if |d| > mps || |d| > length then Outcome(Failure, [], stream[1..])
        else if |d| < mps || |d| == length then Outcome(Success, d, stream[1..])
        else
          var o := RunUrb(stream[1..], length - |d|, mps);
          if o.status == Success then Prepend(d, o) else o
  }

  /** How a request ends, told packet by packet: after k full packets, which leave room, the endpoint is silent, fails the
      request with a bus error or an overrun, or ends it with a short packet or the one that fills it. */
  lemma {:induction false} UrbEnds(stream: seq<BusEvent>, length: nat, mps: nat) returns (k: nat)
    requires mps > 0 && length > 0
    ensures k <= |stream| && k * mps < length
    ensures forall i :: 0 <= i < k ==> stream[i].Packet? && |stream[i].data| == mps
    ensures var o := RunUrb(stream, length, mps);
            if k == |stream| then o == Outcome(Waiting, [], [])
            else if stream[k].Fault? || |stream[k].data| > mps || k * mps + |stream[k].data| > length then
              o == Outcome(Failure, [], stream[k + 1..])
            else
              && (|stream[k].data| < mps || k * mps + |stream[k].data| == length)
              && o == Outcome(Success, Gathered(stream[..k + 1]), stream[k + 1..])
    decreases |stream|
  {
    if stream != [] && stream[0].Packet? && |stream[0].data| == mps < length {
      var rest := stream[1..];
      var m := UrbEnds(rest, length - mps, mps);
      k := m + 1;
      assert k * mps == m * mps + mps;
      assert forall i :: 0 < i < k ==> stream[i] == rest[i - 1];
      if k < |stream| {
        assert stream[k] == rest[m] && rest[m + 1..] == stream[k + 1..];
        assert stream[..k + 1][1..] == rest[..m + 1] && stream[..k + 1][0] == stream[0];
      }
    } else {
      k := 0;
      if stream != [] && stream[0].Packet? {
        assert stream[..1][1..] == [] && stream[0].data + [] == stream[0].data;
      }
    }
  }

  /** The bytes of some packets, in order. */
  function Gathered(stream: seq<BusEvent>): seq<byte> {
    if stream == [] then []
    else (match stream[0] case Packet(d) => d case Fault => []) + Gathered(stream[1..])
  }

  // ----- the split transfer -----

  /** The test of `transfer_complete` for sending the next chunk. */
  predicate GoesOn(transmitted: nat, remaining: nat, mps: nat, mts: nat)
    requires mps > 0
  {
    transmitted % mps == 0 && transmitted == mts && remaining > 0
  }

  /** What the chunked transfer makes of the endpoint's answers if every completion that passes the test does go on. In
      the driver it also needs the endpoint's flag, which another request or its own submitter may hold, the pending
      sequence and memory; module SplitRuns says when it gets them. After an error `data` still holds the chunks that
      had arrived. */
  function SplitRead(stream: seq<BusEvent>, total: nat, mps: nat, mts: nat): Outcome
    requires mps > 0 && mts > 0
    decreases total
  {
    var chunk := RunUrb(stream, Min(total, mts), mps);
    if chunk.status == Success && GoesOn(|chunk.data|, total - |chunk.data|, mps, mts) then
      Prepend(chunk.data, SplitRead(chunk.rest, total - mts, mps, mts))
    else chunk
  }

  /** The same if only so many completions get what they need to go on; the next one then ends the transfer. */
  function SplitReadFor(stream: seq<BusEvent>, total: nat, mps: nat, mts: nat, turns: nat): Outcome
    requires mps > 0 && mts > 0
    decreases turns
  {
    var chunk := RunUrb(stream, Min(total, mts), mps);
    if chunk.status == Success && GoesOn(|chunk.data|, total - |chunk.data|, mps, mts) && turns > 0 then
      Prepend(chunk.data, SplitReadFor(chunk.rest, total - mts, mps, mts, turns - 1))
    else chunk
  }

  /** How many completions the split transfer needs to go on. */
  function Turns(stream: seq<BusEvent>, total: nat, mps: nat, mts: nat): nat
    requires mps > 0 && mts > 0
    decreases total
  {
    var chunk := RunUrb(stream, Min(total, mts), mps);
    if chunk.status == Success && GoesOn(|chunk.data|, total - |chunk.data|, mps, mts) then
      1 + Turns(chunk.rest, total - mts, mps, mts)
    else 0
  }

  lemma {:induction false} UrbConsumes(stream: seq<BusEvent>, length: nat, mps: nat)
    ensures var o := RunUrb(stream, length, mps);
            |o.rest| <= |stream| && (length > 0 ==> o.status == Waiting || |o.rest| < |stream|)
    decreases |stream|
  {
    if length > 0 && stream != [] && stream[0].Packet? && |stream[0].data| == mps && mps < length {
      UrbConsumes(stream[1..], length - mps, mps);
    }
  }

  lemma {:induction false} SplitConsumes(stream: seq<BusEvent>, total: nat, mps: nat, mts: nat)
    requires mps > 0 && mts > 0
    ensures var o := SplitRead(stream, total, mps, mts);
            |o.rest| <= |stream| && (total > 0 ==> o.status == Waiting || |o.rest| < |stream|)
    decreases total
  {
    var chunk := RunUrb(stream, Min(total, mts), mps);
    UrbConsumes(stream, Min(total, mts), mps);
    if chunk.status == Success && GoesOn(|chunk.data|, total - |chunk.data|, mps, mts) {
      SplitConsumes(chunk.rest, total - mts, mps, mts);
    }
    hide RunUrb;
  }

  /** The transfer is whole if and only if every completion that passes the test goes on. */
  lemma {:induction false} WholeExactly(stream: seq<BusEvent>, total: nat, mps: nat, mts: nat, turns: nat)
    requires mps > 0 && mts > 0
    ensures SplitReadFor(stream, total, mps, mts, turns) == SplitRead(stream, total, mps, mts)
            <==> turns >= Turns(stream, total, mps, mts)
    decreases turns
  {
    var chunk := RunUrb(stream, Min(total, mts), mps);
    hide RunUrb;
    if chunk.status == Success && GoesOn(|chunk.data|, total - |chunk.data|, mps, mts) {
      if turns > 0 {
        WholeExactly(chunk.rest, total - mts, mps, mts, turns - 1);
        PrependSame(chunk.data, SplitReadFor(chunk.rest, total - mts, mps, mts, turns - 1),
                    SplitRead(chunk.rest, total - mts, mps, mts));
      } else {
        SplitConsumes(chunk.rest, total - mts, mps, mts);
      }
    }
  }

  lemma PrependSame(d: seq<byte>, o: Outcome, p: Outcome)
    ensures Prepend(d, o) == Prepend(d, p) <==> o == p
  {
    if Prepend(d, o) == Prepend(d, p) {
      assert (d + o.data)[|d|..] == o.data && (d + p.data)[|d|..] == p.data;
    }
  }

  /** The two transfers end alike, take the same answers from the endpoint and, on success, deliver the same
      bytes. (On an error the single request reports no bytes, the split one those of its earlier chunks.) */
  predicate Agree(split: Outcome, single: Outcome) {
    && split.status == single.status
    && split.rest == single.rest
    && (single.status == Success ==> split.data == single.data)
  }

  // ----- splitting preserves meaning -----

  /** A request of n + m bytes is a request of n bytes, followed by one of m bytes if the first was filled. */
  lemma {:induction false} RunUrbSplits(stream: seq<BusEvent>, n: nat, m: nat, mps: nat)
    requires mps > 0 && m > 0 && n % mps == 0
    ensures var first := RunUrb(stream, n, mps);
            var whole := RunUrb(stream, n + m, mps);
            if first.status == Success && |first.data| == n then
              var second := RunUrb(first.rest, m, mps);
              whole == if second.status == Success then Prepend(first.data, second) else second
            else whole == first
    decreases |stream|
  {
    if n == 0 {
      var second := RunUrb(stream, m, mps);
      assert [] + second.data == second.data;
    } else if stream != [] && stream[0].Packet? {
      var d := stream[0].data;
      AtLeastOne(n, mps);
      if |d| == mps {
        LessOne(n, mps);
        RunUrbSplits(stream[1..], n - mps, m, mps);
        var first := RunUrb(stream[1..], n - mps, mps);
        FullPacketNext(stream, n, mps);
        FullPacketNext(stream, n + m, mps);
        assert n == mps ==> first == Outcome(Success, [], stream[1..]);
        hide RunUrb;
        if first.status == Success && |first.data| == n - mps {
          PrependTwice(d, first.data, RunUrb(first.rest, m, mps));
        }
      }
    }
  }

  lemma PrependTwice(d: seq<byte>, e: seq<byte>, o: Outcome)
    ensures Prepend(d, Prepend(e, o)) == Prepend(d + e, o)
  {
    assert d + (e + o.data) == (d + e) + o.data;
  }

  lemma FullPacketNext(stream: seq<BusEvent>, length: nat, mps: nat)
    requires 0 < mps <= length && stream != [] && stream[0].Packet? && |stream[0].data| == mps
    ensures var o := RunUrb(stream[1..], length - mps, mps);
            RunUrb(stream, length, mps) == if o.status == Success then Prepend(stream[0].data, o) else o
  {
    assert stream[0].data + [] == stream[0].data;
  }

  lemma AtLeastOne(n: nat, mps: nat)
    requires mps > 0 && n > 0 && n % mps == 0
    ensures n >= mps
  {
    assert n == n / mps * mps;
    if n / mps < 1 {
      assert false;
    }
  }

  lemma LessOne(n: nat, mps: nat)
    requires 0 < mps <= n && n % mps == 0
    ensures (n - mps) % mps == 0
  {
    var k := n / mps;
    assert n == k * mps;
    assert n - mps == (k - 1) * mps + 0;
    ModOf(k - 1, 0, mps);
  }

  /** Chunks of a whole number of packets leave no trace, whatever the endpoint answers: short packets,
      zero-length packets, errors and silence included. */
  lemma {:induction false} SplitAgrees(stream: seq<BusEvent>, total: nat, mps: nat, mts: nat)
    requires mps > 0 && mts > 0
    requires total <= mts || mts % mps == 0
    ensures Agree(SplitRead(stream, total, mps, mts), RunUrb(stream, total, mps))
    decreases total
  {
    if total > mts {
      var chunk := RunUrb(stream, mts, mps);
      RunUrbSplits(stream, mts, total - mts, mps);
      if chunk.status == Success && |chunk.data| == mts {
        SplitAgrees(chunk.rest, total - mts, mps, mts);
      }
    }
  }

  /** `k` full packets, then a last one. */
  function FullPackets(k: nat, mps: nat, last: nat): (s: seq<BusEvent>)
    ensures |s| == k + 1
  {
    if k == 0 then [Packet(seq(last, _ => 0))] else [Packet(seq(mps, _ => 0))] + FullPackets(k - 1, mps, last)
  }

  lemma {:induction false} FullPacketsRun(k: nat, mps: nat, last: nat, room: nat)
    requires mps > 0 && 0 < last <= mps && room > 0
    ensures var o := RunUrb(FullPackets(k, mps, last), k * mps + room, mps);
            (last > room ==> o.status == Failure) && (last <= room ==> o.status != Failure)
  {
    var s := FullPackets(k, mps, last);
    if k > 0 {
      assert k * mps + room == mps + ((k - 1) * mps + room);
      assert s[1..] == FullPackets(k - 1, mps, last);
      FullPacketsRun(k - 1, mps, last, room);
      assert (k - 1) * mps + room > 0;
    } else {
      assert s[1..] == [];
    }
  }

  /** With any other chunk size a transfer that needs more than one chunk goes wrong for some endpoint: a packet
      straddles the end of a chunk. */
  lemma SplitDiffers(total: nat, mps: nat, mts: nat) returns (stream: seq<BusEvent>)
    requires mps > 0 && mts > 0
    requires total > mts && mts % mps != 0
    ensures !Agree(SplitRead(stream, total, mps, mts), RunUrb(stream, total, mps))
  {
    var k, r := mts / mps, mts % mps;
    stream := FullPackets(k, mps, r + 1);
    assert mts == k * mps + r;
    FullPacketsRun(k, mps, r + 1, r);
    FullPacketsRun(k, mps, r + 1, total - k * mps);
  }

  /** Chunks that are not a whole number of packets are never continued: the transfer is its first chunk. */
  lemma UnevenChunkEnds(stream: seq<BusEvent>, total: nat, mps: nat, mts: nat)
    requires mps > 0 && mts > 0 && mts % mps != 0
    ensures SplitRead(stream, total, mps, mts) == RunUrb(stream, Min(total, mts), mps)
    ensures Turns(stream, total, mps, mts) == 0
  {
    hide RunUrb;
  }

  /** Any other chunk is continued exactly if it was filled and does not complete the transfer. */
  lemma FullChunkContinues(stream: seq<BusEvent>, total: nat, mps: nat, mts: nat)
    requires mps > 0 && mts > 0 && mts % mps == 0
    ensures var first := RunUrb(stream, Min(total, mts), mps);
            Turns(stream, total, mps, mts) > 0 <==> first.status == Success && |first.data| == mts < total
  {
    hide RunUrb;
  }

  lemma UnevenWriteEnds(data: seq<byte>, mps: nat, mts: nat)
    requires mps > 0 && mts > 0 && mts % mps != 0
    ensures SplitPackets(data, mps, mts) == Packets(data[..Min(|data|, mts)], mps)
  {
    hide Packets;
  }

  /** The exact condition: a split transfer means what the single request means, for every endpoint, if and only
      if it fits one chunk or chunks are a whole number of packets. */
  lemma SplitPreservesMeaning(total: nat, mps: nat, mts: nat)
    requires mps > 0 && mts > 0
    ensures (forall stream: seq<BusEvent> :: Agree(SplitRead(stream, total, mps, mts), RunUrb(stream, total, mps)))
            <==> (total <= mts || mts % mps == 0)
  {
    if total <= mts || mts % mps == 0 {
      forall stream: seq<BusEvent>
        ensures Agree(SplitRead(stream, total, mps, mts), RunUrb(stream, total, mps))
      {
        SplitAgrees(stream, total, mps, mts);
      }
    } else {
      var stream := SplitDiffers(total, mps, mts);
    }
  }

  // ----- the other direction: packets the host sends -----

  /** The packets of one outgoing request; an empty request is one zero-length packet. */
  function Packets(data: seq<byte>, mps: nat): seq<seq<byte>>
    requires mps > 0
    decreases |data|
  {
    if |data| <= mps then [data] else [data[..mps]] + Packets(data[mps..], mps)
  }

  /** The packets of an outgoing transfer whose chunks are all accepted. */
  function SplitPackets(data: seq<byte>, mps: nat, mts: nat): seq<seq<byte>>
    requires mps > 0 && mts > 0
    decreases |data|
  {
    var n := Min(|data|, mts);
    if GoesOn(n, |data| - n, mps, mts) then Packets(data[..n], mps) + SplitPackets(data[n..], mps, mts)
    else Packets(data[..n], mps)
  }

  function Joined(packets: seq<seq<byte>>): seq<byte> {
    if packets == [] then [] else packets[0] + Joined(packets[1..])
  }

  lemma {:induction false} PacketsJoin(data: seq<byte>, mps: nat)
    requires mps > 0
    ensures Joined(Packets(data, mps)) == data
    decreases |data|
  {
    if |data| <= mps {
      assert Joined([data]) == data + Joined([]);
    } else {
      PacketsJoin(data[mps..], mps);
      assert Packets(data, mps)[1..] == Packets(data[mps..], mps);
    }
  }

  lemma {:induction false} PacketsSplit(data: seq<byte>, n: nat, mps: nat)
    requires mps > 0 && 0 < n < |data| && n % mps == 0
    ensures Packets(data, mps) == Packets(data[..n], mps) + Packets(data[n..], mps)
    decreases n
  {
    AtLeastOne(n, mps);
    if n > mps {
      LessOne(n, mps);
      PacketsSplit(data[mps..], n - mps, mps);
      assert data[..n][..mps] == data[..mps];
      assert data[..n][mps..] == data[mps..][..n - mps];
      assert data[mps..][n - mps..] == data[n..];
    }
  }

  lemma {:induction false} WriteAgrees(data: seq<byte>, mps: nat, mts: nat)
    requires mps > 0 && mts > 0
    requires |data| <= mts || mts % mps == 0
    ensures SplitPackets(data, mps, mts) == Packets(data, mps)
    decreases |data|
  {
    if |data| > mts {
      PacketsSplit(data, mts, mps);
      WriteAgrees(data[mts..], mps, mts);
    } else {
      assert data[..|data|] == data;
    }
  }

  /** An outgoing transfer puts the packets of the single request on the wire under the same condition. */
  lemma WritePreservesPackets(data: seq<byte>, mps: nat, mts: nat)
    requires mps > 0 && mts > 0
    ensures SplitPackets(data, mps, mts) == Packets(data, mps) <==> (|data| <= mts || mts % mps == 0)
  {
    if |data| <= mts || mts % mps == 0 {
      WriteAgrees(data, mps, mts);
    } else {
      PacketsJoin(data, mps);
      PacketsJoin(data[..mts], mps);
    }
  }

  // ----- the driver's code: one context, updated by each completion -----

  /** `context_t` with the caller's buffer (its MDL) and the length and place of the chunk in flight. */
  class Context {
    var totalLength: nat
    var information: nat
    var urbLength: nat
    var urbOffset: nat
    const maximumPacketSize: nat
    const maxTransferSize: nat
    const buffer: array<byte>

    ghost predicate Valid()
      reads this
    {
      && maximumPacketSize > 0 && maxTransferSize > 0
      && information + totalLength == buffer.Length
      && urbOffset == information
      && urbLength == Min(totalLength, maxTransferSize)
    }

    /** `transfer`: the context and its first chunk. */
    constructor (buffer: array<byte>, maximumPacketSize: nat, maxTransferSize: nat)
      requires maximumPacketSize > 0 && maxTransferSize > 0
      ensures Valid()
      ensures this.buffer == buffer && information == 0 && totalLength == buffer.Length
      ensures this.maximumPacketSize == maximumPacketSize && this.maxTransferSize == maxTransferSize
    {
      this.buffer, this.maximumPacketSize, this.maxTransferSize := buffer, maximumPacketSize, maxTransferSize;
      totalLength, information := buffer.Length, 0;
      urbOffset := 0;
      urbLength := if buffer.Length > maxTransferSize then maxTransferSize else buffer.Length;
    }

    /** The bus writes the chunk's bytes where its MDL points. */
    method Receive(data: seq<byte>)
      requires Valid() && |data| <= urbLength
      modifies buffer
      ensures buffer[..] == old(buffer[..urbOffset]) + data + old(buffer[urbOffset + |data|..])
    {
      for i := 0 to |data|
        invariant buffer[..] == old(buffer[..urbOffset]) + data[..i] + old(buffer[urbOffset + i..])
      {
        buffer[urbOffset + i] := data[i];
      }
    }

    /** `transfer_complete` up to its decision: account for the chunk, and set up the next one or finish. `free` tells
        whether it finds the endpoint's flag clear, no other sequence pending, and memory for the next chunk. */
    method Complete(ok: bool, length: nat, free: bool) returns (again: bool)
      requires Valid() && length <= urbLength
      modifies this
      ensures information == old(information) + (if ok then length else 0)
      ensures information + totalLength == buffer.Length
      ensures again == (ok && GoesOn(length, totalLength, maximumPacketSize, maxTransferSize) && free)
      ensures again <==> && ok && free && maxTransferSize % maximumPacketSize == 0
                         && length == maxTransferSize < old(totalLength)
      ensures again ==> Valid()
    {
      var transmitted := if ok then length else 0;
      totalLength := if transmitted < totalLength then totalLength - transmitted else 0;
      information := information + transmitted;
      again := ok && transmitted % maximumPacketSize == 0 && transmitted == maxTransferSize && totalLength != 0 && free;
      if again {
        urbOffset := information;
        urbLength := if totalLength > maxTransferSize then maxTransferSize else totalLength;
      }
    }

    /** One chunk: the bus runs the request in flight, then its completion routine runs. */
    method Chunk(stream: seq<BusEvent>, free: bool) returns (o: Outcome, again: bool)
      requires Valid()
      modifies this, buffer
      ensures o == RunUrb(stream, old(urbLength), maximumPacketSize)
      ensures again == (o.status == Success && GoesOn(|o.data|, totalLength, maximumPacketSize, maxTransferSize) && free)
      ensures again ==> Valid()
      ensures information == old(information) + |o.data| && information + totalLength == buffer.Length
      ensures buffer[..] == old(buffer[..information]) + o.data + old(buffer[..])[information..]
    {
      o := RunUrb(stream, urbLength, maximumPacketSize);
      if o.status == Success {
        Receive(o.data);
      }
      again := Complete(o.status == Success, |o.data|, free);
    }

    /** All completions of one read, the bus answering from `stream` and `turns` completions getting what they need to go
        on. The bytes that arrived are in the buffer in order, `information` counts them, and the rest of the buffer is
        untouched. */
    method Read(stream: seq<BusEvent>, turns: nat) returns (status: Status, rest: seq<BusEvent>)
      requires Valid() && information == 0
      modifies this, buffer
      ensures var o := SplitReadFor(stream, old(totalLength), maximumPacketSize, maxTransferSize, turns);
              && status == o.status && rest == o.rest
              && information == |o.data| <= buffer.Length
              && buffer[..] == o.data + old(buffer[..])[|o.data|..]
    {
      ghost var was, arrived: seq<byte> := buffer[..], [];
      ghost var goal := SplitReadFor(stream, totalLength, maximumPacketSize, maxTransferSize, turns);
      status, rest := Success, stream;
      var again, left := true, turns;
      while again
        invariant again ==>
                    Valid() && goal == AfterFor(arrived, rest, totalLength, maximumPacketSize, maxTransferSize, left)
        invariant !again ==> goal == Outcome(status, arrived, rest)
        invariant information == |arrived| <= |was| == buffer.Length
        invariant buffer[..] == arrived + was[|arrived|..]
        decreases again, totalLength
      {
        ghost var before, total := buffer[..], totalLength;
        var o: Outcome;
        o, again := Chunk(rest, left > 0);
        AppendChunk(before, arrived, was, o.data);
        AfterChunkFor(arrived, rest, total, maximumPacketSize, maxTransferSize, left);
        arrived := arrived + o.data;
        status, rest := o.status, o.rest;
        left := if left > 0 then left - 1 else 0;
      }
    }
  }

  ghost function AfterFor(arrived: seq<byte>, stream: seq<BusEvent>, total: nat, mps: nat, mts: nat, turns: nat): Outcome
    requires mps > 0 && mts > 0
  {
    Prepend(arrived, SplitReadFor(stream, total, mps, mts, turns))
  }

  lemma AfterChunkFor(arrived: seq<byte>, stream: seq<BusEvent>, total: nat, mps: nat, mts: nat, turns: nat)
    requires mps > 0 && mts > 0
    ensures var chunk := RunUrb(stream, Min(total, mts), mps);
            AfterFor(arrived, stream, total, mps, mts, turns) ==
            if chunk.status == Success && GoesOn(|chunk.data|, total - |chunk.data|, mps, mts) && turns > 0 then
              AfterFor(arrived + chunk.data, chunk.rest, total - |chunk.data|, mps, mts, turns - 1)
            else Outcome(chunk.status, arrived + chunk.data, chunk.rest)
  {
    var chunk := RunUrb(stream, Min(total, mts), mps);
    if chunk.status == Success && GoesOn(|chunk.data|, total - |chunk.data|, mps, mts) && turns > 0 {
      PrependTwice(arrived, chunk.data, SplitReadFor(chunk.rest, total - mts, mps, mts, turns - 1));
    }
  }

  /** The outcome of a split transfer whose first chunks brought `arrived`. */
  ghost function After(arrived: seq<byte>, stream: seq<BusEvent>, total: nat, mps: nat, mts: nat): Outcome
    requires mps > 0 && mts > 0
  {
    Prepend(arrived, SplitRead(stream, total, mps, mts))
  }

  lemma AfterChunk(arrived: seq<byte>, stream: seq<BusEvent>, total: nat, mps: nat, mts: nat)
    requires mps > 0 && mts > 0
    ensures var chunk := RunUrb(stream, Min(total, mts), mps);
            After(arrived, stream, total, mps, mts) ==
            if chunk.status == Success && GoesOn(|chunk.data|, total - |chunk.data|, mps, mts) then
              After(arrived + chunk.data, chunk.rest, total - |chunk.data|, mps, mts)
            else Outcome(chunk.status, arrived + chunk.data, chunk.rest)
  {
    var chunk := RunUrb(stream, Min(total, mts), mps);
    if chunk.status == Success && GoesOn(|chunk.data|, total - |chunk.data|, mps, mts) {
      var more := SplitRead(chunk.rest, total - mts, mps, mts).data;
      assert arrived + (chunk.data + more) == (arrived + chunk.data) + more;
    }
  }

  lemma AppendChunk(before: seq<byte>, arrived: seq<byte>, was: seq<byte>, d: seq<byte>)
    requires |arrived| + |d| <= |was|
    requires before == arrived + was[|arrived|..]
    ensures before[..|arrived|] + d + before[|arrived| + |d|..] == (arrived + d) + was[|arrived + d|..]
  {}
}
