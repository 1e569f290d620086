/** A device as the driver sees it through the bus: its descriptors, which never change, and how a call can end. */
module DeviceModel {
  import opened Bytes
  import opened InterfaceLookup

  const DEVICE := 1
  const CONFIGURATION := 2
  const RECIPIENT_DEVICE := 0
  const RECIPIENT_INTERFACE := 1
  const RECIPIENT_ENDPOINT := 2
  const DEVICE_LENGTH: nat := 18
  const CONFIGURATION_LENGTH: nat := 9

  /** `others` stands for all descriptors that the driver does not cache. */
  datatype Hardware = Hardware(
    device: seq<byte>, configurations: seq<seq<byte>>, others: (int, int, int, int) -> Option<seq<byte>>)

  function ConfigurationValue(c: seq<byte>): int {
    At(c, 5) as int
  }

  /** The interface descriptors of a whole configuration descriptor. */
  function InterfacesOf(c: seq<byte>): seq<Interface> {
    Interfaces(c, 0, |c|)
  }

  /** A configuration descriptor as long as it says, which can be walked over, with a non-zero value. */
  predicate ProperConfiguration(c: seq<byte>) {
    && CONFIGURATION_LENGTH <= |c| == TotalLength(c)
    && Walkable(c, 0, |c|) && NumbersFit(InterfacesOf(c))
    && ConfigurationValue(c) != 0
  }

  predicate ProperHardware(h: Hardware) {
    && |h.device| == DEVICE_LENGTH && h.device[0] != 0 && h.device[17] as int == |h.configurations|
    && (forall i :: 0 <= i < |h.configurations| ==> ProperConfiguration(h.configurations[i]))
    && (forall i, j :: 0 <= i < j < |h.configurations| ==>
          ConfigurationValue(h.configurations[i]) != ConfigurationValue(h.configurations[j]))
  }

  /** Values name configurations uniquely. */
  lemma SameConfiguration(h: Hardware, i: nat, j: nat)
    requires ProperHardware(h) && i < |h.configurations| && j < |h.configurations|
    ensures ConfigurationValue(h.configurations[i]) == ConfigurationValue(h.configurations[j]) ==> i == j
  {}

  /** A request for a descriptor, with the integers as the caller passes them. */
  datatype DescriptorRequest = DescriptorRequest(size: nat, kind: int, recipient: int, index: int, language: int)

  predicate ToRecipient(q: DescriptorRequest) {
    q.recipient == RECIPIENT_DEVICE || q.recipient == RECIPIENT_INTERFACE || q.recipient == RECIPIENT_ENDPOINT
  }

  predicate ForDevice(q: DescriptorRequest) {
    q.kind == DEVICE && q.recipient == RECIPIENT_DEVICE && q.index == 0 && q.language == 0 && q.size >= DEVICE_LENGTH
  }

  predicate ForConfiguration(q: DescriptorRequest) {
    q.kind == CONFIGURATION && q.recipient == RECIPIENT_DEVICE && q.language == 0 && q.size >= CONFIGURATION_LENGTH
  }

  function Take(d: seq<byte>, n: int): seq<byte>
    requires n >= 0
  {
    d[..Min(n, |d|)]
  }

  /** What the device answers; the request block truncates kind and index to bytes and the language to 16 bits. */
  function DirectRead(h: Hardware, q: DescriptorRequest): Option<seq<byte>> {
    var kind, index, language := q.kind % 256, q.index % 256, q.language % 0x1_0000;
    var answer :=
      if q.recipient == RECIPIENT_DEVICE && kind == DEVICE && index == 0 && language == 0 then Some(h.device)
      else if q.recipient == RECIPIENT_DEVICE && kind == CONFIGURATION && language == 0 then
        if index < |h.configurations| then Some(h.configurations[index]) else None
      else h.others(kind, q.recipient, index, language);
    match answer
    case None => None
    case Some(d) => Some(Take(d, q.size))
  }

  /** How a call to the bus ends: with success, with a failing NTSTATUS, or with a request block that failed although
      the NTSTATUS is not a failure, as after a timeout; then `length` is what the block says was transferred. */
  datatype BusResult = BusOk | BusError | UrbError(length: nat)

  /** What a read gives back. `Nothing` is a successful status with no bytes received. */
  datatype Received = Data(bytes: seq<byte>) | Nothing | Error

  /** A read that goes to the device. */
  function Fetch(h: Hardware, q: DescriptorRequest, bus: BusResult): Received {
    match bus
    case BusError => Error
    case UrbError(_) => Nothing
    case BusOk => match DirectRead(h, q) case None => Error case Some(d) => Data(d)
  }

  /** How the calls to the bus end that one call to the driver may make, by what they are for: the only or last one, the
      device descriptor, the header and the whole of configuration i. The junk is what memory holds that nothing has
      been written to; a header read that times out may have written some bytes into its buffer. */
  datatype Bus = Bus(
    call: BusResult, device: BusResult, header: nat -> BusResult, whole: nat -> BusResult,
    headerFilled: nat -> nat, headerJunk: seq<byte>, wholeJunk: seq<byte>)

  /** A failing request block always comes with a failing NTSTATUS. */
  ghost predicate NoTimeout(bus: Bus) {
    && !bus.call.UrbError? && !bus.device.UrbError?
    && forall i :: !bus.header(i).UrbError? && !bus.whole(i).UrbError?
  }

  ghost predicate AllOk(bus: Bus) {
    bus.call == BusOk && bus.device == BusOk && forall i :: bus.header(i) == BusOk && bus.whole(i) == BusOk
  }

  /** `Timeout` is STATUS_TIMEOUT, which NT_SUCCESS takes for a success. `Fault` stands for an access outside the
      driver's tables, after which nothing is claimed. */
  datatype Status =
    | Success | Timeout | InvalidDeviceState | InvalidParameter | DeviceBusy | NoMoreEntries | Unsuccessful | Fault

  predicate NtSuccess(status: Status) {
    status == Success || status == Timeout
  }

  // ----- prefixes of a configuration descriptor -----

  lemma {:induction false} PrefixWalkable(c: seq<byte>, p: nat, k: nat)
    requires Walkable(c, p, |c|) && k <= |c|
    ensures Walkable(c[..k], p, k)
    decreases k - p
  {
    if p < k && At(c, p) as int <= k - p {
      PrefixWalkable(c, p + At(c, p) as int, k);
    }
  }

  /** A read of a configuration that brought as many bytes as the descriptor announces brought all of it. */
  lemma CompleteRead(c: seq<byte>, bytes: seq<byte>)
    requires ProperConfiguration(c) && CONFIGURATION_LENGTH <= |bytes| <= |c| && bytes == c[..|bytes|]
    requires |bytes| >= TotalLength(bytes)
    ensures bytes == c && TotalLength(bytes) == |bytes|
  {}

  lemma SameHeader(c: seq<byte>, header: seq<byte>)
    requires ProperConfiguration(c) && header == Take(c, CONFIGURATION_LENGTH)
    ensures ConfigurationValue(header) == ConfigurationValue(c) && TotalLength(header) == TotalLength(c) == |c|
  {}
}
