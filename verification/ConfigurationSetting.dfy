/** Setting a configuration (`get_config_descriptor` in libusb/src/driver/get_descriptor.c, and set_configuration.c),
    for every way in which the calls to the bus can end. */
module ConfigurationSetting {
  import opened Bytes
  import opened DescriptorCache
  import opened DeviceModel
  import opened InterfaceLookup
  import opened InterfaceSelection

  const ACTIVE_CONFIGURATION := -258

  // ----- get_config_descriptor -----

  /** What `get_config_descriptor` hands over: the buffer, the number of bytes received, and the index. */
  datatype Found = Found(bytes: seq<byte>, size: nat, at: nat)

  function DeviceRequest(): DescriptorRequest {
    DescriptorRequest(DEVICE_LENGTH, DEVICE, RECIPIENT_DEVICE, 0, 0)
  }

  function ConfigurationRequest(size: nat, i: nat): DescriptorRequest {
    DescriptorRequest(size, CONFIGURATION, RECIPIENT_DEVICE, i, 0)
  }

  /** The test for configuration number `i`: by value if `wanted` is positive, by index -1, -2, ... if negative. */
  predicate Wanted(wanted: int, header: seq<byte>, i: nat) {
    (wanted > 0 && ConfigurationValue(header) == wanted) || (wanted < 0 && -(i + 1) == wanted)
  }

  /** What is in a buffer after a read that did not fail. */
  function Filled(r: Received, junk: seq<byte>): seq<byte> {
    if r.Data? then r.bytes else junk
  }

  /** The second read, of the configuration whose header was wanted; `total` is what the header buffer announces. */
  function ReadWhole(h: Hardware, s: Driver, total: nat, i: nat, bus: Bus): (Option<Found>, Driver) {
    var (r, t) := GetDescriptor(h, s, ConfigurationRequest(total, i), bus.whole(i));
    if r == Error then (None, t)
    else (Some(Found(Filled(r, bus.wholeJunk), if r.Data? then |r.bytes| else 0, i)), t)
  }

  /** The header buffer after a read that timed out: the bytes that came have replaced the first ones. */
  function LeftBehind(h: Hardware, i: nat, buffer: seq<byte>, filled: nat): seq<byte> {
    if i >= |h.configurations| then buffer
    else
      var d := Take(h.configurations[i], Min(filled, CONFIGURATION_LENGTH));
      d + (if |d| <= |buffer| then buffer[|d|..] else [])
  }

  /** The header buffer after the read of configuration `i`; all turns of the loop use the same one. */
  function Header(h: Hardware, r: Received, i: nat, buffer: seq<byte>, bus: Bus): seq<byte> {
    Filled(r, LeftBehind(h, i, buffer, bus.headerFilled(i)))
  }

  /** The loop over the configurations from number `i` on. */
  function Look(h: Hardware, s: Driver, n: nat, wanted: int, i: nat, buffer: seq<byte>, bus: Bus): (Option<Found>, Driver)
    decreases n - i
  {
    if i >= n then (None, s)
    else
      var (r, t) := GetDescriptor(h, s, ConfigurationRequest(CONFIGURATION_LENGTH, i), bus.header(i));
      var header := Header(h, r, i, buffer, bus);
      if r == Error then (None, t)
      else if Wanted(wanted, header, i) then ReadWhole(h, t, TotalLength(header), i, bus)
      else Look(h, t, n, wanted, i + 1, header, bus)
  }

  function GetConfigDescriptor(h: Hardware, s: Driver, wanted: int, bus: Bus): (Option<Found>, Driver) {
    var (r, t) := GetDescriptor(h, s, DeviceRequest(), bus.device);
    if r.Data? && |r.bytes| == DEVICE_LENGTH then Look(h, t, At(r.bytes, 17) as nat, wanted, 0, bus.headerJunk, bus)
    else (None, t)
  }

  // ----- set_configuration -----

  function Effective(configuration: int): int {
    if configuration <= ACTIVE_CONFIGURATION then -1 else configuration
  }

  /** The two early returns. */
  predicate AlreadySet(s: Driver, configuration: int) {
    || (configuration > 0 && s.value == configuration)
    || (configuration < 0 && s.value != 0 && s.index == -configuration - 1)
  }

  function TableOf(numbers: seq<nat>): seq<bool> {
    seq(MAX_INTERFACES, n => n in numbers)
  }

  function Unowned(): seq<File> {
    seq(MAX_INTERFACES, _ => NOBODY)
  }

  function Unconfigured(s: Driver): Driver {
    s.(value := 0, valid := TableOf([]), owner := Unowned())
  }

  function WithDescriptor(s: Driver, f: Found): Driver {
    s.(descriptor := Some(f.bytes), totalSize := f.size, value := ConfigurationValue(f.bytes), index := f.at)
  }

  /** The rest of `set_configuration`, with a descriptor at hand. */
  function Select(s: Driver, f: Found, bus: BusResult): (Status, Driver) {
    if s.value == ConfigurationValue(f.bytes) then (Success, WithDescriptor(s, f))
    else match SelectedIn(f.bytes, f.size)
      case None => (InvalidParameter, s)
      case Some(numbers) =>
        if bus == BusOk then (Success, WithDescriptor(s.(valid := TableOf(numbers), owner := Unowned()), f))
        else (Unsuccessful, s)
  }

  /** 0 leaves the device unconfigured, a positive number names a configuration by value, a negative one by index (-1,
      -2, ...; from -258 down the first). */
  function SetConfiguration(h: Hardware, s: Driver, configuration: int, bus: Bus): (Status, Driver) {
    if AlreadySet(s, configuration) then (Success, s)
    else if configuration == 0 then
      match bus.call
      case BusOk => (Success, Unconfigured(s))
      case UrbError(_) => (Timeout, s)
      case BusError => (Unsuccessful, s)
    else
      var (f, t) := GetConfigDescriptor(h, s, Effective(configuration), bus);
      if f == None then (InvalidParameter, t) else Select(t, f.value, bus.call)
  }

  // ----- the invariant -----

  /** A non-zero value names the cached configuration, all interfaces selected with it are valid, and any valid
      interface is one of its numbers. */
  ghost predicate ConfigurationGood(s: Driver) {
    s.value != 0 ==>
      s.descriptor.Some? && ConfigurationValue(s.descriptor.value) == s.value && Tabled(s.descriptor.value, s.valid)
  }

  /** Owned interfaces are valid. */
  predicate OwnersGood(s: Driver) {
    Sized(s) && forall n :: 0 <= n < MAX_INTERFACES && s.owner[n] != NOBODY ==> s.valid[n]
  }

  ghost predicate Good(h: Hardware, s: Driver) {
    ProperHardware(h) && CacheGood(h, s) && OwnersGood(s) && ConfigurationGood(s)
  }

  lemma FillingKeepsGood(h: Hardware, s: Driver, t: Driver)
    requires Good(h, s) && CacheGood(h, t) && OnlyFills(s, t)
    ensures Good(h, t)
  {
    hide Tabled, ProperHardware;
  }

  // ----- what is found -----

  /** The descriptor handed over is a whole configuration of the device, and the one wanted. */
  predicate Real(h: Hardware, wanted: int, f: Found) {
    && f.at < |h.configurations| && f.at < 256 && f.bytes == h.configurations[f.at] && f.size == |f.bytes|
    && Wanted(wanted, f.bytes, f.at)
  }

  /** Whatever the bus does, what is handed over can at least be walked over. */
  predicate Usable(h: Hardware, f: Found) {
    f.at < |h.configurations| && f.at < 256 && CanBeWalked(f.bytes, f.size)
  }

  lemma HeaderRead(h: Hardware, s: Driver, i: nat, bus: BusResult)
    requires ProperHardware(h) && CacheGood(h, s) && i < |h.configurations|
    ensures var (r, t) := GetDescriptor(h, s, ConfigurationRequest(CONFIGURATION_LENGTH, i), bus);
            && CacheGood(h, t) && OnlyFills(s, t)
            && (r.Data? ==> r.bytes == Take(h.configurations[i], CONFIGURATION_LENGTH))
            && (bus == BusOk || CachedAt(s, i) ==> r.Data?)
            && (bus == BusError && !CachedAt(s, i) ==> r == Error)
            && (bus.UrbError? && !CachedAt(s, i) ==> r == Nothing && t == s)
            && (s.descriptor.Some? ==> t == s)
  {
    var q := ConfigurationRequest(CONFIGURATION_LENGTH, i);
    assert |h.configurations| < 256;
    assert i % 256 == i && DirectRead(h, q) == Some(Take(h.configurations[i], q.size));
    assert CacheGood(h, s) ==> !OutOfRange(s, q);
    hide DirectRead, ProperHardware, Take, ReadConfiguration;
    ReadConfigurationIs(h, s, q, bus);
    if !CachedAt(s, i) {
      BusFails(h, s, q, bus);
    }
  }

  lemma BusFails(h: Hardware, s: Driver, q: DescriptorRequest, bus: BusResult)
    requires !OutOfRange(s, q) && !CachedAt(s, q.index)
    ensures bus == BusError ==> ReadConfiguration(h, s, q, bus) == (Error, s)
    ensures bus.UrbError? ==> ReadConfiguration(h, s, q, bus) == (Nothing, s)
  {}

  /** What a read of `total` bytes of configuration i brings. */
  function Part(h: Hardware, total: nat, i: nat): Found
    requires i < |h.configurations|
  {
    var d := Take(h.configurations[i], total);
    Found(d, |d|, i)
  }

  lemma WholeRead(h: Hardware, s: Driver, total: nat, i: nat, bus: Bus)
    requires ProperHardware(h) && CacheGood(h, s) && i < |h.configurations|
    ensures var (f, t) := ReadWhole(h, s, total, i, bus);
            && CacheGood(h, t) && OnlyFills(s, t)
            && (f.Some? ==> f.value == Found(bus.wholeJunk, 0, i) || f.value == Part(h, total, i))
            && (f.Some? && !bus.whole(i).UrbError? ==> f.value == Part(h, total, i))
            && (CachedAt(s, i) && total >= CONFIGURATION_LENGTH ==> f == Some(Part(h, total, i)))
            && (bus.whole(i) == BusOk ==> f.Some?)
            && (bus.whole(i).UrbError? && !CachedAt(s, i) ==> f == Some(Found(bus.wholeJunk, 0, i)) && t == s)
  {
    var q := ConfigurationRequest(total, i);
    assert |h.configurations| < 256;
    assert i % 256 == i && DirectRead(h, q) == Some(Take(h.configurations[i], q.size));
    assert CacheGood(h, s) ==> !OutOfRange(s, q);
    hide DirectRead, ProperHardware, Take, ReadConfiguration, CacheGood, OutOfRange;
    ReadsAreDirect(h, s, q, bus.whole(i));
    if ForConfiguration(q) {
      ReadConfigurationIs(h, s, q, bus.whole(i));
      if !CachedAt(s, i) {
        BusFails(h, s, q, bus.whole(i));
      }
    }
  }

  lemma FillsTwice(s: Driver, t: Driver, u: Driver)
    requires OnlyFills(s, t) && OnlyFills(t, u)
    ensures OnlyFills(s, u)
  {}

  lemma PartUsable(h: Hardware, total: nat, i: nat)
    requires ProperHardware(h) && i < |h.configurations|
    ensures Usable(h, Part(h, total, i))
  {
    var c := h.configurations[i];
    assert ProperConfiguration(c);
    PrefixWalkable(c, 0, Min(total, |c|));
  }

  lemma JunkUsable(h: Hardware, junk: seq<byte>, i: nat)
    requires ProperHardware(h) && i < |h.configurations|
    ensures Usable(h, Found(junk, 0, i))
  {}

  /** A header read from configuration i is wanted exactly if the configuration is, and announces its size. */
  lemma PartReal(h: Hardware, wanted: int, header: seq<byte>, i: nat)
    requires ProperHardware(h) && i < |h.configurations| && header == Take(h.configurations[i], CONFIGURATION_LENGTH)
    ensures Wanted(wanted, header, i) <==> Wanted(wanted, h.configurations[i], i)
    ensures TotalLength(header) >= CONFIGURATION_LENGTH
    ensures Wanted(wanted, header, i) ==> Real(h, wanted, Part(h, TotalLength(header), i))
  {
    var c := h.configurations[i];
    assert ProperConfiguration(c);
    SameHeader(c, header);
    assert Take(c, |c|) == c;
    hide Walkable, NumbersFit;
  }

  /** One turn of the loop. */
  lemma LookStep(h: Hardware, s: Driver, wanted: int, i: nat, buffer: seq<byte>, bus: Bus)
    requires ProperHardware(h) && CacheGood(h, s) && i < |h.configurations|
    ensures var n := |h.configurations|;
            var (r, t) := GetDescriptor(h, s, ConfigurationRequest(CONFIGURATION_LENGTH, i), bus.header(i));
            var header := Header(h, r, i, buffer, bus);
            Look(h, s, n, wanted, i, buffer, bus)
            == if r == Error then (None, t)
               else if Wanted(wanted, header, i) then ReadWhole(h, t, TotalLength(header), i, bus)
               else Look(h, t, n, wanted, i + 1, header, bus)
  {
    hide GetDescriptor, ReadWhole, Wanted, TotalLength;
  }

  /** Whatever the bus does, the loop only fills the cache, correctly, and what it hands over can be walked over. */
  lemma {:induction false} LookKeepsGood(h: Hardware, s: Driver, wanted: int, i: nat, buffer: seq<byte>, bus: Bus)
    requires ProperHardware(h) && CacheGood(h, s) && i <= |h.configurations|
    ensures var (f, t) := Look(h, s, |h.configurations|, wanted, i, buffer, bus);
            CacheGood(h, t) && OnlyFills(s, t) && (f.Some? ==> Usable(h, f.value))
    decreases |h.configurations| - i
  {
    hide *;
    if i < |h.configurations| {
      LookStep(h, s, wanted, i, buffer, bus);
      HeaderRead(h, s, i, bus.header(i));
      var (r, t) := GetDescriptor(h, s, ConfigurationRequest(CONFIGURATION_LENGTH, i), bus.header(i));
      var header := Header(h, r, i, buffer, bus);
      if r != Error {
        if Wanted(wanted, header, i) {
          var total := TotalLength(header);
          WholeRead(h, t, total, i, bus);
          PartUsable(h, total, i);
          JunkUsable(h, bus.wholeJunk, i);
          FillsTwice(s, t, ReadWhole(h, t, total, i, bus).1);
        } else {
          LookKeepsGood(h, t, wanted, i + 1, header, bus);
          FillsTwice(s, t, Look(h, t, |h.configurations|, wanted, i + 1, header, bus).1);
        }
      }
    } else {
      LookEnds(h, s, wanted, buffer, bus);
      FillsNothing(s);
    }
  }

  lemma FillsNothing(s: Driver)
    ensures OnlyFills(s, s)
  {}

  lemma LookEnds(h: Hardware, s: Driver, wanted: int, buffer: seq<byte>, bus: Bus)
    ensures Look(h, s, |h.configurations|, wanted, |h.configurations|, buffer, bus) == (None, s)
  {}

  lemma CalmHeader(bus: Bus, i: nat)
    requires NoTimeout(bus)
    ensures !bus.header(i).UrbError? && !bus.whole(i).UrbError?
    ensures AllOk(bus) ==> bus.header(i) == BusOk && bus.whole(i) == BusOk
  {}

  /** Without a timeout what is handed over is a whole configuration of the device, the one wanted; and while the bus
      works it is found if there is one. */
  lemma {:induction false} LookIsReal(h: Hardware, s: Driver, wanted: int, i: nat, buffer: seq<byte>, bus: Bus)
    requires ProperHardware(h) && CacheGood(h, s) && i <= |h.configurations| && NoTimeout(bus)
    ensures var f := Look(h, s, |h.configurations|, wanted, i, buffer, bus).0;
            && (f.Some? ==> Real(h, wanted, f.value))
            && (AllOk(bus) && f == None ==>
                  forall j :: i <= j < |h.configurations| ==> !Wanted(wanted, h.configurations[j], j))
    decreases |h.configurations| - i
  {
    hide *;
    if i < |h.configurations| {
      LookStep(h, s, wanted, i, buffer, bus);
      CalmHeader(bus, i);
      HeaderRead(h, s, i, bus.header(i));
      var (r, t) := GetDescriptor(h, s, ConfigurationRequest(CONFIGURATION_LENGTH, i), bus.header(i));
      HeaderCalm(h, s, i, bus.header(i));
      if r.Data? {
        var header := r.bytes;
        HeaderIs(h, r, i, buffer, bus);
        PartReal(h, wanted, header, i);
        if Wanted(wanted, header, i) {
          WholeRead(h, t, TotalLength(header), i, bus);
        } else {
          LookIsReal(h, t, wanted, i + 1, header, bus);
        }
      }
    } else {
      LookEnds(h, s, wanted, buffer, bus);
    }
  }

  lemma HeaderIs(h: Hardware, r: Received, i: nat, buffer: seq<byte>, bus: Bus)
    ensures r.Data? ==> Header(h, r, i, buffer, bus) == r.bytes
    ensures r == Nothing && bus.headerFilled(i) == 0 ==> Header(h, r, i, buffer, bus) == buffer
  {
    if i < |h.configurations| {
      assert Take(h.configurations[i], 0) == [] && [] + buffer[0..] == buffer;
    }
  }

  lemma HeaderCalm(h: Hardware, s: Driver, i: nat, bus: BusResult)
    requires ProperHardware(h) && CacheGood(h, s) && i < |h.configurations| && !bus.UrbError?
    ensures GetDescriptor(h, s, ConfigurationRequest(CONFIGURATION_LENGTH, i), bus).0 != Nothing
  {
    var q := ConfigurationRequest(CONFIGURATION_LENGTH, i);
    hide CacheGood, ProperHardware;
    TimeoutIs(h, s, q, bus);
  }

  // ----- what no timeout can spoil -----

  /** By index: the configuration is in the cache, or not there to take. By value: the first configuration is in the
      cache, so that the header buffer is filled at once, and it is the one looked for, or none is; or no byte can have
      the value, or there is no configuration at all. */
  predicate Sees(h: Hardware, s: Driver, wanted: int) {
    var n := |h.configurations|;
    if wanted < 0 then -wanted - 1 >= n || CachedAt(s, -wanted - 1)
    else
      || wanted > 255 || n == 0
      || (CachedAt(s, 0) && (ConfigurationValue(h.configurations[0]) == wanted || !HasValue(h, wanted)))
  }

  predicate HasValue(h: Hardware, value: int) {
    exists i :: 0 <= i < |h.configurations| && ConfigurationValue(h.configurations[i]) == value
  }

  lemma NotWanted(wanted: int, header: seq<byte>, i: nat)
    requires wanted > 255 || wanted == 0 || (wanted < 0 && i != -wanted - 1)
    ensures !Wanted(wanted, header, i)
  {}

  lemma ByIndexWanted(wanted: int, header: seq<byte>, i: nat)
    requires wanted < 0
    ensures Wanted(wanted, header, i) <==> i == -wanted - 1
  {}

  lemma {:induction false} LookNever(h: Hardware, s: Driver, wanted: int, i: nat, buffer: seq<byte>, bus: Bus)
    requires ProperHardware(h) && CacheGood(h, s) && i <= |h.configurations|
    requires wanted > 255 || wanted == 0 || -wanted - 1 >= |h.configurations|
    ensures Look(h, s, |h.configurations|, wanted, i, buffer, bus).0 == None
    decreases |h.configurations| - i
  {
    hide *;
    if i < |h.configurations| {
      LookStep(h, s, wanted, i, buffer, bus);
      HeaderRead(h, s, i, bus.header(i));
      var (r, t) := GetDescriptor(h, s, ConfigurationRequest(CONFIGURATION_LENGTH, i), bus.header(i));
      var header := Header(h, r, i, buffer, bus);
      NotWanted(wanted, header, i);
      if r != Error {
        LookNever(h, t, wanted, i + 1, header, bus);
      }
    } else {
      LookEnds(h, s, wanted, buffer, bus);
    }
  }

  lemma FillsKeepCached(s: Driver, t: Driver, i: int)
    requires OnlyFills(s, t) && CachedAt(s, i)
    ensures CachedAt(t, i)
  {}

  /** The turn at the cached configuration. */
  lemma CachedTurn(h: Hardware, s: Driver, wanted: int, i: nat, buffer: seq<byte>, bus: Bus)
    requires ProperHardware(h) && CacheGood(h, s) && i < |h.configurations| && CachedAt(s, i)
    ensures var f := Look(h, s, |h.configurations|, wanted, i, buffer, bus).0;
            var header := Take(h.configurations[i], CONFIGURATION_LENGTH);
            if Wanted(wanted, h.configurations[i], i) then f.Some? && Real(h, wanted, f.value)
            else Look(h, s, |h.configurations|, wanted, i, buffer, bus)
                 == Look(h, s, |h.configurations|, wanted, i + 1, header, bus)
  {
    CachedIs(s, i);
    hide *;
    LookStep(h, s, wanted, i, buffer, bus);
    HeaderRead(h, s, i, bus.header(i));
    var (r, t) := GetDescriptor(h, s, ConfigurationRequest(CONFIGURATION_LENGTH, i), bus.header(i));
    HeaderIs(h, r, i, buffer, bus);
    PartReal(h, wanted, r.bytes, i);
    if Wanted(wanted, r.bytes, i) {
      WholeRead(h, t, TotalLength(r.bytes), i, bus);
    }
  }

  lemma CachedIs(s: Driver, i: int)
    requires CachedAt(s, i)
    ensures s.descriptor.Some?
  {}

  lemma {:induction false} LookByIndex(h: Hardware, s: Driver, wanted: int, i: nat, buffer: seq<byte>, bus: Bus)
    requires ProperHardware(h) && CacheGood(h, s) && wanted < 0 && i <= -wanted - 1 < |h.configurations|
    requires CachedAt(s, -wanted - 1)
    ensures var f := Look(h, s, |h.configurations|, wanted, i, buffer, bus).0;
            f.Some? ==> Real(h, wanted, f.value)
    decreases |h.configurations| - i
  {
    hide *;
    if i == -wanted - 1 {
      ByIndexWanted(wanted, h.configurations[i], i);
      CachedTurn(h, s, wanted, i, buffer, bus);
    } else {
      LookStep(h, s, wanted, i, buffer, bus);
      HeaderRead(h, s, i, bus.header(i));
      var (r, t) := GetDescriptor(h, s, ConfigurationRequest(CONFIGURATION_LENGTH, i), bus.header(i));
      var header := Header(h, r, i, buffer, bus);
      NotWanted(wanted, header, i);
      if r != Error {
        FillsKeepCached(s, t, -wanted - 1);
        LookByIndex(h, t, wanted, i + 1, header, bus);
      }
    }
  }

  /** A header buffer with a value in it never gets another than those of the device. */
  lemma LeftBehindValue(h: Hardware, r: Received, i: nat, buffer: seq<byte>, bus: Bus)
    requires ProperHardware(h) && i < |h.configurations|
    requires r.Data? ==> r.bytes == Take(h.configurations[i], CONFIGURATION_LENGTH)
    ensures var header := Header(h, r, i, buffer, bus);
            || ConfigurationValue(header) == ConfigurationValue(buffer)
            || ConfigurationValue(header) == ConfigurationValue(h.configurations[i])
  {
    assert ProperConfiguration(h.configurations[i]);
    hide Walkable, NumbersFit;
  }

  lemma ByValueWanted(h: Hardware, wanted: int, header: seq<byte>, i: nat)
    requires wanted > 0
    ensures Wanted(wanted, header, i) <==> ConfigurationValue(header) == wanted
    ensures !HasValue(h, wanted) && i < |h.configurations| ==> ConfigurationValue(h.configurations[i]) != wanted
  {}

  lemma {:induction false} LookAbsent(h: Hardware, s: Driver, wanted: int, i: nat, buffer: seq<byte>, bus: Bus)
    requires ProperHardware(h) && CacheGood(h, s) && wanted > 0 && i <= |h.configurations|
    requires !HasValue(h, wanted) && ConfigurationValue(buffer) != wanted
    ensures Look(h, s, |h.configurations|, wanted, i, buffer, bus).0 == None
    decreases |h.configurations| - i
  {
    hide *;
    if i < |h.configurations| {
      LookStep(h, s, wanted, i, buffer, bus);
      HeaderRead(h, s, i, bus.header(i));
      var (r, t) := GetDescriptor(h, s, ConfigurationRequest(CONFIGURATION_LENGTH, i), bus.header(i));
      var header := Header(h, r, i, buffer, bus);
      LeftBehindValue(h, r, i, buffer, bus);
      ByValueWanted(h, wanted, header, i);
      if r != Error {
        LookAbsent(h, t, wanted, i + 1, header, bus);
      }
    } else {
      LookEnds(h, s, wanted, buffer, bus);
    }
  }

  /** Then what is handed over is real, whatever the bus does. */
  lemma SeenIsReal(h: Hardware, s: Driver, wanted: int, bus: Bus)
    requires ProperHardware(h) && CacheGood(h, s) && wanted != 0 && Sees(h, s, wanted)
    ensures var f := Look(h, s, |h.configurations|, wanted, 0, bus.headerJunk, bus).0;
            f.Some? ==> Real(h, wanted, f.value)
  {
    var n, buffer := |h.configurations|, bus.headerJunk;
    hide GetDescriptor, CacheGood, ProperHardware, Look, HasValue;
    if wanted > 255 || -wanted - 1 >= n {
      LookNever(h, s, wanted, 0, buffer, bus);
    } else if wanted < 0 {
      LookByIndex(h, s, wanted, 0, buffer, bus);
    } else if n == 0 {
      LookEnds(h, s, wanted, buffer, bus);
    } else {
      CachedTurn(h, s, wanted, 0, buffer, bus);
      var header := Take(h.configurations[0], CONFIGURATION_LENGTH);
      HeaderValue(h, 0);
      ByValueWanted(h, wanted, header, 0);
      if !HasValue(h, wanted) {
        LookAbsent(h, s, wanted, 1, header, bus);
      }
    }
  }

  lemma HeaderValue(h: Hardware, i: nat)
    requires ProperHardware(h) && i < |h.configurations|
    ensures ConfigurationValue(Take(h.configurations[i], CONFIGURATION_LENGTH))
            == ConfigurationValue(h.configurations[i])
  {
    assert ProperConfiguration(h.configurations[i]);
    hide Walkable, NumbersFit;
  }

  // ----- what a timeout spoils otherwise -----

  /** Whole configurations time out, and if `headers` is false all headers do, without having brought a byte. The memory
      happens to hold the value that is wanted and the one that the driver has. */
  function BadBus(wanted: int, value: int, headers: bool): Bus {
    var junk := [9, 2, 9, 0, 0, if 0 < wanted < 256 then wanted as byte else 0, 0, 0, 0];
    var whole := [9, 2, 9, 0, 0, if 0 <= value < 256 then value as byte else 0, 0, 0, 0];
    Bus(UrbError(0), BusOk, _ => if headers then BusOk else UrbError(0), _ => UrbError(0), _ => 0, junk, whole)
  }

  lemma BadBusIs(wanted: int, value: int, headers: bool, i: nat)
    ensures var bus := BadBus(wanted, value, headers);
            && bus.device == BusOk && bus.whole(i) == UrbError(0) && bus.headerFilled(i) == 0
            && bus.header(i) == (if headers then BusOk else UrbError(0))
            && (0 < wanted < 256 ==> Wanted(wanted, bus.headerJunk, i))
            && (0 <= value < 256 ==> ConfigurationValue(bus.wholeJunk) == value) && |bus.wholeJunk| == 9
  {}

  /** A turn at a configuration that is not cached, whose header is not read but whose buffer is wanted. */
  lemma BadTurn(h: Hardware, s: Driver, wanted: int, i: nat, buffer: seq<byte>, value: int)
    requires ProperHardware(h) && CacheGood(h, s) && i < |h.configurations| && !CachedAt(s, i)
    ensures var bus := BadBus(wanted, value, false);
            Look(h, s, |h.configurations|, wanted, i, buffer, bus)
            == if Wanted(wanted, buffer, i) then (Some(Found(bus.wholeJunk, 0, i)), s)
               else Look(h, s, |h.configurations|, wanted, i + 1, buffer, bus)
  {
    var bus := BadBus(wanted, value, false);
    BadBusIs(wanted, value, false, i);
    hide *;
    LookStep(h, s, wanted, i, buffer, bus);
    HeaderRead(h, s, i, bus.header(i));
    HeaderIs(h, Nothing, i, buffer, bus);
    WholeRead(h, s, TotalLength(buffer), i, bus);
  }

  lemma {:induction false} BadByIndex(h: Hardware, s: Driver, wanted: int, i: nat, buffer: seq<byte>, value: int)
    requires ProperHardware(h) && CacheGood(h, s) && wanted < 0 && i <= -wanted - 1 < |h.configurations|
    requires !CachedAt(s, -wanted - 1)
    ensures Look(h, s, |h.configurations|, wanted, i, buffer, BadBus(wanted, value, false))
            == (Some(Found(BadBus(wanted, value, false).wholeJunk, 0, -wanted - 1)), s)
    decreases |h.configurations| - i
  {
    hide *;
    ByIndexWanted(wanted, buffer, i);
    if CachedAt(s, i) {
      ByIndexWanted(wanted, h.configurations[i], i);
      CachedTurn(h, s, wanted, i, buffer, BadBus(wanted, value, false));
      BadByIndex(h, s, wanted, i + 1, Take(h.configurations[i], CONFIGURATION_LENGTH), value);
    } else {
      BadTurn(h, s, wanted, i, buffer, value);
      if i < -wanted - 1 {
        BadByIndex(h, s, wanted, i + 1, buffer, value);
      }
    }
  }

  /** By value with the headers read: the configuration is found, and then its whole is not read. */
  lemma {:induction false} BadByValue(h: Hardware, s: Driver, wanted: int, i: nat, buffer: seq<byte>, value: int, k: nat)
    requires ProperHardware(h) && CacheGood(h, s) && wanted > 0 && s.descriptor.Some?
    requires i <= k < |h.configurations| && ConfigurationValue(h.configurations[k]) == wanted && !CachedAt(s, k)
    ensures Look(h, s, |h.configurations|, wanted, i, buffer, BadBus(wanted, value, true))
            == (Some(Found(BadBus(wanted, value, true).wholeJunk, 0, k)), s)
    decreases k - i
  {
    var bus := BadBus(wanted, value, true);
    BadBusIs(wanted, value, true, i);
    hide *;
    LookStep(h, s, wanted, i, buffer, bus);
    HeaderRead(h, s, i, bus.header(i));
    var (r, _) := GetDescriptor(h, s, ConfigurationRequest(CONFIGURATION_LENGTH, i), bus.header(i));
    HeaderIs(h, r, i, buffer, bus);
    HeaderValue(h, i);
    ByValueWanted(h, wanted, r.bytes, i);
    SameConfiguration(h, i, k);
    if i < k {
      BadByValue(h, s, wanted, i + 1, r.bytes, value, k);
    } else {
      WholeRead(h, s, TotalLength(r.bytes), i, bus);
    }
  }

  /** Then timeouts hand over a buffer that nothing has filled, with 0 as its size. */
  lemma UnseenIsJunk(h: Hardware, s: Driver, wanted: int)
    requires ProperHardware(h) && CacheGood(h, s) && wanted != 0 && !Sees(h, s, wanted)
    ensures var bus := BadBus(wanted, s.value, wanted > 0 && CachedAt(s, 0));
            var (f, t) := Look(h, s, |h.configurations|, wanted, 0, bus.headerJunk, bus);
            && f.Some? && f.value.at < |h.configurations| && f.value == Found(bus.wholeJunk, 0, f.value.at)
            && !CachedAt(s, f.value.at) && t == s
  {
    var bus := BadBus(wanted, s.value, wanted > 0 && CachedAt(s, 0));
    hide GetDescriptor, CacheGood, ProperHardware, Look;
    if wanted < 0 {
      BadByIndex(h, s, wanted, 0, bus.headerJunk, s.value);
    } else if CachedAt(s, 0) {
      var k :| 0 <= k < |h.configurations| && ConfigurationValue(h.configurations[k]) == wanted;
      BadByValue(h, s, wanted, 0, bus.headerJunk, s.value, k);
    } else {
      BadBusIs(wanted, s.value, false, 0);
      BadTurn(h, s, wanted, 0, bus.headerJunk, s.value);
    }
  }

  // ----- set_configuration, whatever the bus does -----

  lemma DeviceRead(h: Hardware, s: Driver, bus: BusResult)
    requires ProperHardware(h) && CacheGood(h, s)
    ensures var (r, t) := GetDescriptor(h, s, DeviceRequest(), bus);
            && CacheGood(h, t) && OnlyFills(s, t) && t.descriptor == s.descriptor && t.index == s.index
            && (r.Data? ==>
                  r.bytes == h.device && |r.bytes| == DEVICE_LENGTH && At(r.bytes, 17) as int == |h.configurations|)
            && (bus == BusOk || s.device != [] ==> r.Data?)
  {
    var q := DeviceRequest();
    assert ForDevice(q) && ToRecipient(q) && h.device[..DEVICE_LENGTH] == h.device;
    assert DirectRead(h, q) == Some(h.device);
    hide DirectRead, ProperConfiguration;
    ReadDeviceIs(h, s, q, bus);
  }

  /** `get_config_descriptor` is the loop, once the device descriptor has been read. */
  lemma FindingIs(h: Hardware, s: Driver, wanted: int, bus: Bus) returns (t: Driver)
    requires ProperHardware(h) && CacheGood(h, s)
    ensures CacheGood(h, t) && OnlyFills(s, t) && t.descriptor == s.descriptor && t.index == s.index && t.value == s.value
    ensures var r := GetConfigDescriptor(h, s, wanted, bus);
            r == (None, t) || r == Look(h, t, |h.configurations|, wanted, 0, bus.headerJunk, bus)
    ensures bus.device == BusOk ==>
              GetConfigDescriptor(h, s, wanted, bus) == Look(h, t, |h.configurations|, wanted, 0, bus.headerJunk, bus)
  {
    DeviceRead(h, s, bus.device);
    t := GetDescriptor(h, s, DeviceRequest(), bus.device).1;
    hide GetDescriptor, Look, CacheGood, ProperHardware;
  }

  /** Whatever the bus does, `get_config_descriptor` only fills the cache, correctly. */
  lemma FindingKeepsGood(h: Hardware, s: Driver, wanted: int, bus: Bus)
    requires Good(h, s)
    ensures var (f, t) := GetConfigDescriptor(h, s, wanted, bus);
            Good(h, t) && OnlyFills(s, t) && (f.Some? ==> Usable(h, f.value))
  {
    var t := FindingIs(h, s, wanted, bus);
    var u := GetConfigDescriptor(h, s, wanted, bus).1;
    LookKeepsGood(h, t, wanted, 0, bus.headerJunk, bus);
    hide GetConfigDescriptor, Look, CacheGood, ProperHardware, ConfigurationGood, OwnersGood, Usable;
    FillsTwice(s, t, Look(h, t, |h.configurations|, wanted, 0, bus.headerJunk, bus).1);
    FillingKeepsGood(h, s, u);
  }

  /** Without timeouts, or when the driver has seen what it needs, what is handed over is the configuration wanted. */
  lemma FindingIsReal(h: Hardware, s: Driver, wanted: int, bus: Bus)
    requires Good(h, s) && wanted != 0 && (NoTimeout(bus) || Sees(h, s, wanted))
    ensures var f := GetConfigDescriptor(h, s, wanted, bus).0;
            && (f.Some? ==> Real(h, wanted, f.value))
            && (NoTimeout(bus) && AllOk(bus) && f == None ==>
                  forall j :: 0 <= j < |h.configurations| ==> !Wanted(wanted, h.configurations[j], j))
  {
    var t := FindingIs(h, s, wanted, bus);
    hide GetConfigDescriptor, Look, CacheGood, ProperHardware, ConfigurationGood, Real;
    if NoTimeout(bus) {
      LookIsReal(h, t, wanted, 0, bus.headerJunk, bus);
    } else {
      SeenIsReal(h, t, wanted, bus);
    }
  }

  /** What a caller can rely on after a selection. */
  ghost predicate SelectedWell(h: Hardware, s: Driver, f: Found, status: Status, t: Driver) {
    && Good(h, t)
    && (status == Success ==>
          CachedAt(t, f.at) && t.descriptor == Some(f.bytes) && t.value == ConfigurationValue(f.bytes))
    && (status == Success && t.value != s.value ==> FreshTable(t))
    && (status != Success ==> t == s)
    && (t.value == s.value ==> t.valid == s.valid && t.owner == s.owner)
  }

  lemma RealDescriptor(h: Hardware, wanted: int, f: Found)
    requires ProperHardware(h) && Real(h, wanted, f)
    ensures ProperConfiguration(f.bytes) && f.at % 256 == f.at && f.bytes == h.configurations[f.at] && f.size == |f.bytes|
    ensures f.at < |h.configurations|
  {}

  lemma ReselectedIsGood(h: Hardware, s: Driver, wanted: int, f: Found)
    requires Good(h, s) && Real(h, wanted, f) && s.value == ConfigurationValue(f.bytes)
    ensures SelectedWell(h, s, f, Success, WithDescriptor(s, f))
  {
    RealDescriptor(h, wanted, f);
    assert s.value != 0;
    ActiveIs(h, s);
    SameConfiguration(h, s.index, f.at);
    hide Tabled, ProperHardware, ProperConfiguration, FreshTable, SelectedOf;
  }

  lemma NewTableIsGood(h: Hardware, s: Driver, wanted: int, f: Found)
    requires Good(h, s) && Real(h, wanted, f) && SelectedOf(f.bytes).Some?
    ensures var numbers := SelectedOf(f.bytes).value;
            SelectedWell(h, s, f, Success, WithDescriptor(s.(valid := TableOf(numbers), owner := Unowned()), f))
            || s.value == ConfigurationValue(f.bytes)
  {
    RealDescriptor(h, wanted, f);
    var numbers := SelectedOf(f.bytes).value;
    SelectionTabled(f.bytes, TableOf(numbers));
    hide Tabled, ProperHardware, SelectedOf;
  }

  /** What is selected for a real descriptor gives a good state. */
  lemma SelectIsGood(h: Hardware, s: Driver, wanted: int, f: Found, bus: BusResult)
    requires Good(h, s) && Real(h, wanted, f)
    ensures var (status, t) := Select(s, f, bus);
            && SelectedWell(h, s, f, status, t)
            && (status == Success <==>
                  s.value == ConfigurationValue(f.bytes) || (bus == BusOk && SelectedOf(f.bytes).Some?))
  {
    hide Good, FreshTable, WithDescriptor, SelectedIn, SelectedOf, ProperConfiguration, ProperHardware, Real;
    assert ProperHardware(h) by {
      GoodHardware(h, s);
    }
    RealDescriptor(h, wanted, f);
    SelectedInWhole(f.bytes);
    if s.value == ConfigurationValue(f.bytes) {
      ReselectedIsGood(h, s, wanted, f);
    } else if SelectedOf(f.bytes).Some? {
      NewTableIsGood(h, s, wanted, f);
    }
  }

  lemma GoodHardware(h: Hardware, s: Driver)
    requires Good(h, s)
    ensures ProperHardware(h)
  {}

  /** The valid interfaces are exactly the selected ones (none for value 0), and nobody owns any. */
  ghost predicate FreshTable(s: Driver) {
    && s.owner == Unowned()
    && s.valid == (if s.value == 0 || s.descriptor == None || SelectedOf(s.descriptor.value) == None then TableOf([])
                   else TableOf(SelectedOf(s.descriptor.value).value))
  }

  /** What a caller can tell before the call: the driver will not ask the bus, or only for what cannot mislead it. */
  predicate Trusted(h: Hardware, s: Driver, configuration: int) {
    configuration == 0 || AlreadySet(s, configuration) || Sees(h, s, Effective(configuration))
  }

  /** The configuration asked for, by value or index, exists, and is the active one or can be selected. */
  ghost predicate CanBeSet(h: Hardware, s: Driver, configuration: int) {
    configuration == 0 || exists i: nat :: i < |h.configurations| && Settable(h, s.value, Effective(configuration), i)
  }

  predicate Settable(h: Hardware, value: int, wanted: int, i: nat)
    requires i < |h.configurations|
  {
    var c := h.configurations[i];
    Wanted(wanted, c, i) && (ConfigurationValue(c) == value || SelectedOf(c).Some?)
  }

  lemma EffectiveIs(configuration: int)
    requires configuration != 0
    ensures Effective(configuration) != 0 && (Effective(configuration) > 0 <==> configuration > 0)
    ensures configuration > ACTIVE_CONFIGURATION ==> Effective(configuration) == configuration
    ensures configuration <= ACTIVE_CONFIGURATION ==> Effective(configuration) == -1
  {}

  /** A good state's configuration is one of the device's. */
  lemma ActiveIs(h: Hardware, s: Driver)
    requires Good(h, s) && s.value != 0
    ensures 0 <= s.index < |h.configurations| && 0 < s.value < 256
    ensures s.descriptor == Some(h.configurations[s.index]) && ConfigurationValue(h.configurations[s.index]) == s.value
  {
    assert s.index % 256 == s.index;
    assert ProperConfiguration(h.configurations[s.index]);
    hide Tabled, ProperConfiguration, SelectedOf;
  }

  /** The outcome on a bus without timeouts, and of a trusted call on any bus. */
  ghost predicate SetWell(h: Hardware, s: Driver, configuration: int, status: Status, t: Driver) {
    && Good(h, t)
    && (status == Success && configuration >= 0 ==> t.value == configuration)
    && (status == Success && configuration < 0 ==>
          && t.index == -Effective(configuration) - 1
          && t.descriptor.Some? && t.value == ConfigurationValue(t.descriptor.value) != 0)
    && (status == Success && (t.value != s.value || t.value == 0) ==> FreshTable(t))
    && (status != Success || t.value == s.value != 0 ==>
          t.value == s.value && t.valid == s.valid && t.owner == s.owner)
  }

  lemma SetConfigurationIs(h: Hardware, s: Driver, configuration: int, bus: Bus)
    requires Good(h, s) && (NoTimeout(bus) || Trusted(h, s, configuration))
    ensures var (status, t) := SetConfiguration(h, s, configuration, bus);
            SetWell(h, s, configuration, status, t)
  {
    hide Tabled, SelectedOf, ProperHardware, GetConfigDescriptor, Select, TotalLength, FreshTable, CacheGood, NoTimeout;
    if AlreadySet(s, configuration) {
      AlreadySetWell(h, s, configuration);
    } else if configuration == 0 {
      UnconfiguredIsGood(h, s);
    } else {
      hide Effective;
      EffectiveIs(configuration);
      var wanted := Effective(configuration);
      FindingKeepsGood(h, s, wanted, bus);
      FindingIsReal(h, s, wanted, bus);
      var (f, t) := GetConfigDescriptor(h, s, wanted, bus);
      if f.Some? {
        SelectIsGood(h, t, wanted, f.value, bus.call);
        RealIs(h, wanted, f.value);
      }
    }
  }

  lemma RealIs(h: Hardware, wanted: int, f: Found)
    requires ProperHardware(h) && Real(h, wanted, f)
    ensures ConfigurationValue(f.bytes) != 0
    ensures if wanted > 0 then ConfigurationValue(f.bytes) == wanted else f.at == -wanted - 1
  {
    assert ProperConfiguration(f.bytes);
  }

  lemma AlreadySetWell(h: Hardware, s: Driver, configuration: int)
    requires Good(h, s) && AlreadySet(s, configuration)
    ensures SetWell(h, s, configuration, Success, s) && CanBeSet(h, s, configuration)
  {
    ActiveIs(h, s);
    EffectiveIs(configuration);
    hide ProperHardware, FreshTable, SelectedOf;
    assert configuration > ACTIVE_CONFIGURATION;
    assert Settable(h, s.value, configuration, s.index);
  }

  lemma UnconfiguredIsGood(h: Hardware, s: Driver)
    requires Good(h, s)
    ensures Good(h, Unconfigured(s)) && FreshTable(Unconfigured(s))
  {
    hide Tabled, ProperHardware, SelectedOf;
  }

  /** What is active already, by value or by index, is left alone without a call to the bus. */
  lemma ActiveIsLeftAlone(h: Hardware, s: Driver, configuration: int, bus: Bus)
    requires s.value != 0 && (configuration == s.value > 0 || (configuration < 0 && s.index + 1 == -configuration))
    ensures SetConfiguration(h, s, configuration, bus) == (Success, s)
  {
    hide GetConfigDescriptor, Select;
  }

  /** Deconfiguring ends as the bus does: done, timed out, which counts as a success, or failed; it changes the driver's
      state in the first case only. */
  lemma DeconfiguringFollowsTheBus(h: Hardware, s: Driver, bus: Bus)
    ensures var (status, t) := SetConfiguration(h, s, 0, bus);
            && (status == Success <==> bus.call == BusOk) && (status == Timeout <==> bus.call.UrbError?)
            && (status == Unsuccessful <==> bus.call == BusError)
            && (bus.call != BusOk ==> t == s)
            && (bus.call == BusOk ==>
                  t == s.(value := 0, valid := seq(32, _ => false), owner := seq(32, _ => NOBODY)))
  {
    hide GetConfigDescriptor, Select;
    assert TableOf([]) == seq(32, _ => false);
  }

  /** From -258 down an index means the first configuration, above that the one it names. */
  lemma IndicesAreNamed(h: Hardware, s: Driver, configuration: int, bus: Bus)
    requires Good(h, s) && NoTimeout(bus) && configuration < 0
    ensures var (status, t) := SetConfiguration(h, s, configuration, bus);
            status == Success ==> t.index == if configuration <= -258 then 0 else -configuration - 1
  {
    hide Good, SetConfiguration, FreshTable, NoTimeout;
    SetConfigurationIs(h, s, configuration, bus);
  }

  /** While the bus works a call succeeds exactly if the configuration exists and is active or can be selected. */
  lemma SucceedsExactly(h: Hardware, s: Driver, configuration: int, bus: Bus)
    requires Good(h, s) && AllOk(bus)
    ensures SetConfiguration(h, s, configuration, bus).0 == Success <==> CanBeSet(h, s, configuration)
  {
    assert NoTimeout(bus) && bus.call == BusOk;
    hide Tabled, SelectedOf, ProperHardware, GetConfigDescriptor, Select, TotalLength, CacheGood, NoTimeout, AllOk;
    if AlreadySet(s, configuration) {
      AlreadySetWell(h, s, configuration);
    } else if configuration != 0 {
      hide Effective;
      EffectiveIs(configuration);
      var wanted := Effective(configuration);
      FindingKeepsGood(h, s, wanted, bus);
      FindingIsReal(h, s, wanted, bus);
      var (f, t) := GetConfigDescriptor(h, s, wanted, bus);
      if f.Some? {
        SelectIsGood(h, t, wanted, f.value, bus.call);
        WantedOnce(h, s.value, wanted, f.value.at);
      }
    }
  }

  lemma WantedOnce(h: Hardware, value: int, wanted: int, i: nat)
    requires ProperHardware(h) && i < |h.configurations| && Wanted(wanted, h.configurations[i], i)
    ensures (exists j: nat :: j < |h.configurations| && Settable(h, value, wanted, j))
            <==> ConfigurationValue(h.configurations[i]) == value || SelectedOf(h.configurations[i]).Some?
  {
    hide SelectedOf;
    assert Settable(h, value, wanted, i)
           <==> ConfigurationValue(h.configurations[i]) == value || SelectedOf(h.configurations[i]).Some?;
    if j: nat :| j < |h.configurations| && Settable(h, value, wanted, j) {
      SameConfiguration(h, i, j);
    }
  }

  function SpoilingBus(s: Driver, configuration: int): Bus {
    var wanted := Effective(configuration);
    BadBus(wanted, s.value, wanted > 0 && CachedAt(s, 0))
  }

  /** One run of timeouts is enough to spoil an untrusted call: the driver takes an unfilled buffer for the descriptor of
      the configuration. */
  lemma UntrustedIsSpoilt(h: Hardware, s: Driver, configuration: int)
    requires Good(h, s) && !Trusted(h, s, configuration)
    ensures !Good(h, SetConfiguration(h, s, configuration, SpoilingBus(s, configuration)).1)
  {
    hide *;
    var wanted, bus := Effective(configuration), SpoilingBus(s, configuration);
    UntrustedIs(h, s, configuration);
    EffectiveIs(configuration);
    SpoilingBusIs(s, configuration);
    GoodValue(h, s);
    var t := FindingIs(h, s, wanted, bus);
    SeesAlike(h, s, t, wanted);
    UnseenIsJunk(h, t, wanted);
    var f := GetConfigDescriptor(h, s, wanted, bus).0;
    Selecting(h, s, configuration, bus);
    NotActive(h, s, t, f.value.at);
    JunkIsTaken(h, t, f.value, bus.call);
  }

  lemma UntrustedIs(h: Hardware, s: Driver, configuration: int)
    requires !Trusted(h, s, configuration)
    ensures configuration != 0 && !AlreadySet(s, configuration) && !Sees(h, s, Effective(configuration))
  {
    hide Sees, Effective;
  }

  lemma SpoilingBusIs(s: Driver, configuration: int)
    ensures var wanted, bus := Effective(configuration), SpoilingBus(s, configuration);
            && bus == BadBus(wanted, s.value, wanted > 0 && CachedAt(s, 0)) && bus.device == BusOk
            && (0 <= s.value < 256 ==> ConfigurationValue(bus.wholeJunk) == s.value)
  {}

  lemma GoodValue(h: Hardware, s: Driver)
    requires Good(h, s)
    ensures ProperHardware(h) && CacheGood(h, s) && 0 <= s.value < 256
  {
    if s.value != 0 {
      ActiveIs(h, s);
    }
  }

  lemma Selecting(h: Hardware, s: Driver, configuration: int, bus: Bus)
    requires configuration != 0 && !AlreadySet(s, configuration)
    ensures SetConfiguration(h, s, configuration, bus)
            == var (f, t) := GetConfigDescriptor(h, s, Effective(configuration), bus);
               if f == None then (InvalidParameter, t) else Select(t, f.value, bus.call)
  {
    hide GetConfigDescriptor, Select, Effective;
  }

  lemma NotActive(h: Hardware, s: Driver, t: Driver, i: nat)
    requires Good(h, s) && t.descriptor == s.descriptor && t.index == s.index && t.value == s.value
    requires i < |h.configurations| && !CachedAt(t, i)
    ensures ConfigurationValue(h.configurations[i]) != t.value && i < 256
  {
    assert ProperConfiguration(h.configurations[i]);
    if s.value != 0 {
      ActiveIs(h, s);
      SameConfiguration(h, i, s.index);
    }
    hide Tabled, ProperConfiguration;
  }

  /** A buffer with the value that the driver has is cached without another look at it. */
  lemma JunkIsTaken(h: Hardware, s: Driver, f: Found, bus: BusResult)
    requires f.at < |h.configurations| && f.at < 256
    requires ConfigurationValue(f.bytes) == s.value != ConfigurationValue(h.configurations[f.at])
    ensures !Good(h, Select(s, f, bus).1)
  {
    hide Tabled, SelectedIn, TableOf, ProperHardware;
  }

  lemma SeesAlike(h: Hardware, s: Driver, t: Driver, wanted: int)
    requires t.descriptor == s.descriptor && t.index == s.index
    ensures Sees(h, t, wanted) <==> Sees(h, s, wanted)
    ensures CachedAt(t, 0) <==> CachedAt(s, 0)
  {
    hide HasValue;
  }

  /** One such call, on a device just added: with configuration 1 asked for by value, both reads of it time out. The call
      reports success, and from then on the driver answers reads of configuration 0 from the unfilled buffer. */
  lemma TimeoutSpoilsCache() returns (h: Hardware, s: Driver, bus: Bus)
    ensures Good(h, s) && s == Driver([], None, 0, 0, -1, TableOf([]), Unowned())
    ensures var (status, t) := SetConfiguration(h, s, 1, bus);
            var q := ConfigurationRequest(CONFIGURATION_LENGTH, 0);
            var (r, _) := GetDescriptor(h, t, q, BusOk);
            status == Success && r.Data? && DirectRead(h, q).Some? && DirectRead(h, q) != Some(r.bytes)
  {
    var c: seq<byte> := [9, 2, 9, 0, 0, 1, 0, 128, 50];
    h := Hardware([18, 1, 0, 2, 0, 0, 0, 64, 0, 0, 0, 0, 0, 0, 0, 0, 0, 1], [c], (_, _, _, _) => None);
    s := Driver([], None, 0, 0, -1, TableOf([]), Unowned());
    bus := BadBus(1, 0, false);
    SmallConfiguration(c);
    assert Good(h, s) by {
      hide Tabled, SelectedOf;
    }
    UnseenAfterDevice(h, s, 1);
    var (status, t) := SetConfiguration(h, s, 1, bus);
    var q := ConfigurationRequest(CONFIGURATION_LENGTH, 0);
    assert t.descriptor == Some(bus.wholeJunk) && t.index == 0 && status == Success && t.device == h.device;
    hide SetConfiguration, Good, Tabled, SelectedOf;
    assert DirectRead(h, q) == Some(c) by {
      assert Take(c, CONFIGURATION_LENGTH) == c && h.configurations[0] == c;
    }
    assert t.descriptor.value[5] == 0 && c[5] == 1;
  }

  lemma SmallConfiguration(c: seq<byte>)
    requires c == [9, 2, 9, 0, 0, 1, 0, 128, 50]
    ensures ProperConfiguration(c)
  {
    assert Interfaces(c, 9, 9) == [] && InterfacesOf(c) == [];
  }

  lemma UnseenAfterDevice(h: Hardware, s: Driver, wanted: int)
    requires Good(h, s) && 0 < wanted < 256 && s.value == 0 && s.descriptor == None && |h.configurations| > 0
    ensures var bus := BadBus(wanted, 0, false);
            var (status, t) := SetConfiguration(h, s, wanted, bus);
            && status == Success && t.descriptor == Some(bus.wholeJunk) && t.index == 0 && t.device == h.device
            && ConfigurationValue(bus.wholeJunk) == 0 && |bus.wholeJunk| == 9
  {
    var bus := BadBus(wanted, 0, false);
    BadBusIs(wanted, 0, false, 0);
    EffectiveIs(wanted);
    DeviceRead(h, s, bus.device);
    var t := GetDescriptor(h, s, DeviceRequest(), bus.device).1;
    assert t.device == h.device by {
      ReadsAreDirect(h, s, DeviceRequest(), bus.device);
    }
    BadTurn(h, t, wanted, 0, bus.headerJunk, 0);
    hide Look, GetDescriptor, BadBus, Tabled, SelectedIn, ProperHardware;
  }

  /** The exact condition: a call of `set_configuration` leaves the driver's state good on every bus if and only if it is
      trusted. */
  lemma SetConfigurationIsExact(h: Hardware, s: Driver, configuration: int)
    requires Good(h, s)
    ensures (forall bus :: Good(h, SetConfiguration(h, s, configuration, bus).1)) <==> Trusted(h, s, configuration)
  {
    hide Good, SetConfiguration, Trusted;
    if Trusted(h, s, configuration) {
      forall bus ensures Good(h, SetConfiguration(h, s, configuration, bus).1) {
        SetConfigurationIs(h, s, configuration, bus);
      }
    } else {
      UntrustedIsSpoilt(h, s, configuration);
    }
  }

  /** Deconfiguring reports success without having done it exactly when it can time out on a configured device. */
  lemma DeconfiguringIsExact(h: Hardware, s: Driver)
    ensures (forall bus :: var (status, t) := SetConfiguration(h, s, 0, bus); NtSuccess(status) ==> t.value == 0)
            <==> s.value == 0
  {
    if s.value != 0 {
      var bus := Bus(UrbError(0), BusOk, _ => BusOk, _ => BusOk, _ => 0, [], []);
      assert SetConfiguration(h, s, 0, bus) == (Timeout, s);
    }
  }
}
