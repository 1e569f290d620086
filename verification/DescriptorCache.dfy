/** The descriptor cache (libusb/src/driver/get_descriptor.c): what the driver's reads give back and remember, for every
    way in which the calls to the bus can end. */
module DescriptorCache {
  import opened Bytes
  import opened DeviceModel
  import opened InterfaceLookup

  /** A FILE_OBJECT; 0 is none. */
  type File = nat
  const NOBODY: File := 0

  /** The driver's state: the cached device descriptor (empty until it has been read), `dev->config`, and of the
      interface table which interfaces are valid and who owns them. */
  datatype Driver = Driver(
    device: seq<byte>, descriptor: Option<seq<byte>>, totalSize: int, value: int, index: int,
    valid: seq<bool>, owner: seq<File>)

  predicate Sized(s: Driver) {
    |s.valid| == |s.owner| == MAX_INTERFACES
  }

  // ----- get_descriptor -----

  /** A configuration index that the cached device descriptor rules out. */
  predicate OutOfRange(s: Driver, q: DescriptorRequest) {
    ForConfiguration(q) && s.device != [] && q.index >= At(s.device, 17) as int
  }

  predicate CachedAt(s: Driver, i: int) {
    s.descriptor.Some? && s.index == i
  }

  /** The answer is in the cache. */
  predicate Cached(s: Driver, q: DescriptorRequest) {
    || (ForDevice(q) && s.device != [])
    || (ForConfiguration(q) && !OutOfRange(s, q) && CachedAt(s, q.index))
  }

  /** The device descriptor is read once and cached for good. */
  function ReadDevice(h: Hardware, s: Driver, q: DescriptorRequest, bus: BusResult): (Received, Driver) {
    if s.device != [] then (Data(s.device), s)
    else match Fetch(h, q, bus)
      case Data(d) =>
        if |d| < DEVICE_LENGTH then (Error, s)
        else (Data(d[..DEVICE_LENGTH]), s.(device := d[..DEVICE_LENGTH]))
      case Nothing => (if bus.length < DEVICE_LENGTH then Error else Nothing, s)
      case Error => (Error, s)
  }

  /** A configuration descriptor comes from the cache if its index is the cached one; the first complete one read while
      none is cached is kept, as that of a device not configured. */
  function ReadConfiguration(h: Hardware, s: Driver, q: DescriptorRequest, bus: BusResult): (Received, Driver) {
    if OutOfRange(s, q) then (Error, s)
    else if CachedAt(s, q.index) then
      var d := s.descriptor.value;
      (Data(Take(d, Min(q.size, TotalLength(d)))), s)
    else match Fetch(h, q, bus)
      case Data(d) =>
        if s.descriptor == None && |d| >= TotalLength(d) then
          var whole := d[..TotalLength(d)];
          (Data(whole), s.(descriptor := Some(whole), value := 0, totalSize := |whole|, index := q.index))
        else (Data(d), s)
      case r => (r, s)
  }

  function GetDescriptor(h: Hardware, s: Driver, q: DescriptorRequest, bus: BusResult): (Received, Driver) {
    if !ToRecipient(q) then (Error, s)
    else if ForDevice(q) then ReadDevice(h, s, q, bus)
    else if ForConfiguration(q) then ReadConfiguration(h, s, q, bus)
    else (Fetch(h, q, bus), s)
  }

  /** The cached descriptors are the device's. */
  predicate CacheGood(h: Hardware, s: Driver) {
    && (s.device != [] ==> s.device == h.device)
    && (s.descriptor.Some? ==>
          && s.index % 256 < |h.configurations|
          && s.descriptor.value == h.configurations[s.index % 256]
          && s.totalSize == |s.descriptor.value|)
    && (s.value != 0 ==> s.descriptor.Some? && 0 <= s.index < 256)
  }

  predicate IsWhole(h: Hardware, q: DescriptorRequest, bytes: seq<byte>) {
    q.index % 256 < |h.configurations| && bytes == h.configurations[q.index % 256]
  }

  /** What a read leaves alone: the value and the tables, a cached descriptor, and a cached device descriptor. */
  predicate OnlyFills(s: Driver, t: Driver) {
    && t.value == s.value && t.valid == s.valid && t.owner == s.owner
    && (s.descriptor.Some? ==> t.descriptor == s.descriptor && t.index == s.index && t.totalSize == s.totalSize)
    && (s.device != [] ==> t.device == s.device)
  }

  lemma ReadDeviceIs(h: Hardware, s: Driver, q: DescriptorRequest, bus: BusResult)
    requires ProperHardware(h) && CacheGood(h, s) && ForDevice(q)
    ensures var (r, t) := ReadDevice(h, s, q, bus);
            && (r.Data? ==> DirectRead(h, q) == Some(r.bytes) && t.device == h.device)
            && CacheGood(h, t) && OnlyFills(s, t) && DirectRead(h, q).Some?
            && (bus == BusOk || s.device != [] ==> r.Data?)
            && (r == Nothing <==> s.device == [] && bus.UrbError? && bus.length >= DEVICE_LENGTH)
  {
    assert h.device[..DEVICE_LENGTH] == h.device;
    hide ProperConfiguration;
  }

  lemma ReadConfigurationIs(h: Hardware, s: Driver, q: DescriptorRequest, bus: BusResult)
    requires ProperHardware(h) && CacheGood(h, s) && ForConfiguration(q)
    ensures var (r, t) := ReadConfiguration(h, s, q, bus);
            && (r.Data? ==> DirectRead(h, q) == Some(r.bytes))
            && CacheGood(h, t) && OnlyFills(s, t)
            && (Cached(s, q) ==> r.Data? && t == s)
            && (OutOfRange(s, q) ==> r == Error)
            && (!OutOfRange(s, q) && bus == BusOk ==> (r.Data? <==> DirectRead(h, q).Some?))
            && (r == Nothing <==> !Cached(s, q) && !OutOfRange(s, q) && bus.UrbError?)
            && (r.Data? && IsWhole(h, q, r.bytes) && s.descriptor == None ==> CachedAt(t, q.index))
  {
    hide Walkable, NumbersFit;
    var i := q.index % 256;
    if i < |h.configurations| {
      var c := h.configurations[i];
      assert ProperConfiguration(c);
      if Fetch(h, q, bus).Data? {
        var d := Fetch(h, q, bus).bytes;
        assert d == Take(c, q.size) && CONFIGURATION_LENGTH <= |d| && c[..|c|] == c;
        if |d| >= TotalLength(d) {
          CompleteRead(c, d);
          assert d[..TotalLength(d)] == c;
        }
      }
    }
  }

  /** Once the device descriptor is known, a configuration is not asked for beyond those that it announces, and is for
      every other that is not cached. */
  lemma RangeIsKept(h: Hardware, s: Driver, q: DescriptorRequest, bus: BusResult)
    requires ProperHardware(h) && CacheGood(h, s) && s.device != [] && ForConfiguration(q)
    ensures q.index >= |h.configurations| ==> GetDescriptor(h, s, q, bus) == (Error, s)
    ensures q.index < |h.configurations| && !CachedAt(s, q.index) ==>
              GetDescriptor(h, s, q, BusError).0 == Error && GetDescriptor(h, s, q, UrbError(0)).0 == Nothing
  {
    hide DirectRead, ProperConfiguration;
  }

  predicate Faithful(h: Hardware, q: DescriptorRequest, r: Received) {
    r == Error || (r.Data? && DirectRead(h, q) == Some(r.bytes))
  }

  /** `get_descriptor`: the answer with data is the device's own, from the cache, from the device or on its way into the
      cache, whatever the bus does; a cached descriptor answers without the bus; and while the bus works a read fails
      only for a bad recipient, a descriptor that the device lacks, or an index out of range. */
  lemma ReadsAreDirect(h: Hardware, s: Driver, q: DescriptorRequest, bus: BusResult)
    requires ProperHardware(h) && CacheGood(h, s)
    ensures var (r, t) := GetDescriptor(h, s, q, bus);
            && (r.Data? ==> DirectRead(h, q) == Some(r.bytes))
            && (ToRecipient(q) && Cached(s, q) ==> r.Data?)
            && (bus == BusOk ==> (r.Data? <==> ToRecipient(q) && DirectRead(h, q).Some? && !OutOfRange(s, q)))
            && CacheGood(h, t) && OnlyFills(s, t)
            && (r.Data? && ForDevice(q) ==> Cached(t, q))
            && (r.Data? && ForConfiguration(q) && IsWhole(h, q, r.bytes) && s.descriptor == None ==>
                  CachedAt(t, q.index))
  {
    hide DirectRead, ReadDevice, ReadConfiguration, ProperHardware, CacheGood;
    if ForDevice(q) {
      ReadDeviceIs(h, s, q, bus);
      DeviceNotEmpty(h);
    } else if ForConfiguration(q) {
      ReadConfigurationIs(h, s, q, bus);
    }
  }

  lemma DeviceNotEmpty(h: Hardware)
    requires ProperHardware(h)
    ensures h.device != []
  {}

  /** Exactly when no bus can make a read report success without the device's own bytes: when the driver does not ask
      the bus. Otherwise a timeout does. */
  lemma ReadIsExact(h: Hardware, s: Driver, q: DescriptorRequest)
    requires ProperHardware(h) && CacheGood(h, s)
    ensures (forall bus :: Faithful(h, q, GetDescriptor(h, s, q, bus).0))
            <==> !ToRecipient(q) || Cached(s, q) || OutOfRange(s, q)
  {
    hide DirectRead, ReadDevice, ReadConfiguration, ProperHardware, CacheGood, Cached, OutOfRange;
    forall bus
      ensures !ToRecipient(q) || Cached(s, q) || OutOfRange(s, q) ==> Faithful(h, q, GetDescriptor(h, s, q, bus).0)
    {
      TimeoutIs(h, s, q, bus);
    }
    var bus := UrbError(DEVICE_LENGTH);
    TimeoutIs(h, s, q, bus);
    assert !(!ToRecipient(q) || Cached(s, q) || OutOfRange(s, q)) ==> !Faithful(h, q, GetDescriptor(h, s, q, bus).0);
  }

  /** A read reports success with no bytes exactly after a timeout of a call that it did make. */
  lemma TimeoutIs(h: Hardware, s: Driver, q: DescriptorRequest, bus: BusResult)
    requires ProperHardware(h) && CacheGood(h, s)
    ensures var r := GetDescriptor(h, s, q, bus).0;
            && Faithful(h, q, r) == (r != Nothing)
            && (r == Nothing <==> ToRecipient(q) && !Cached(s, q) && !OutOfRange(s, q) && bus.UrbError?
                                  && (ForDevice(q) ==> bus.length >= DEVICE_LENGTH))
  {
    hide DirectRead, ReadDevice, ReadConfiguration, ProperHardware, CacheGood;
    if ForDevice(q) {
      ReadDeviceIs(h, s, q, bus);
    } else if ForConfiguration(q) {
      ReadConfigurationIs(h, s, q, bus);
    }
  }
}
