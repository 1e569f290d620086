/** The driver's code for descriptors, configuration and interfaces, as it updates its device extension
    (libusb/src/driver/get_descriptor.c, set_configuration.c, set_interface.c, claim_interface.c, release_interface.c and
    reset_device.c). Each method is proved to compute the function of the same name, about which the other modules are.
    `bus` says how the calls to the bus end. */
module DriverState {
  import opened Bytes
  import opened ConfigurationSetting
  import opened DescriptorCache
  import opened DeviceModel
  import opened DriverRuns
  import opened InterfaceLookup
  import opened InterfaceOwnership
  import opened InterfaceSelection

  class Device {
    const hardware: Hardware
    var deviceDescriptor: seq<byte>             // empty until it has been read
    var descriptor: Option<seq<byte>>           // config.descriptor
    var totalSize: int
    var value: int
    var index: int
    const valid: array<bool>
    const owner: array<File>

    ghost function State(): Driver
      reads this, valid, owner
    {
      Driver(deviceDescriptor, descriptor, totalSize, value, index, valid[..], owner[..])
    }

    ghost predicate Valid()
      reads this, valid, owner
    {
      valid.Length == owner.Length == MAX_INTERFACES && Good(hardware, State())
    }

    /** `add_device`: nothing cached, not configured. */
    constructor (hardware: Hardware)
      requires ProperHardware(hardware)
      ensures Valid() && this.hardware == hardware && fresh(valid) && fresh(owner)
      ensures State() == Driver([], None, 0, 0, -1, TableOf([]), Unowned())
    {
      this.hardware := hardware;
      deviceDescriptor, descriptor, totalSize, value, index := [], None, 0, 0, -1;
      valid := new bool[MAX_INTERFACES](_ => false);
      owner := new File[MAX_INTERFACES](_ => NOBODY);
      new;
      hide ProperHardware;
    }

    // ----- get_descriptor.c -----

    method GetDescriptor(q: DescriptorRequest, bus: BusResult) returns (r: Received)
      requires Valid()
      modifies this`deviceDescriptor, this`descriptor, this`totalSize, this`value, this`index
      ensures (r, State()) == DescriptorCache.GetDescriptor(hardware, old(State()), q, bus)
      ensures Valid()
    {
      ReadKeepsGood(hardware, State(), q, bus);
      ghost var s := State();
      hide Good, DirectRead, TotalLength;
      if q.recipient != RECIPIENT_DEVICE && q.recipient != RECIPIENT_INTERFACE && q.recipient != RECIPIENT_ENDPOINT {
        return Error;
      }
      if q.kind == DEVICE && q.recipient == RECIPIENT_DEVICE && q.index == 0 && q.language == 0
         && q.size >= DEVICE_LENGTH {
        if deviceDescriptor == [] {
          r := Fetch(hardware, q, bus);
          if r == Nothing && bus.length < DEVICE_LENGTH {
            return Error;
          }
          if r.Data? {
            if |r.bytes| < DEVICE_LENGTH {
              return Error;
            }
            deviceDescriptor := r.bytes[..DEVICE_LENGTH];
            r := Data(deviceDescriptor);
          }
        } else {
          r := Data(deviceDescriptor);
        }
      } else if q.kind == CONFIGURATION && q.recipient == RECIPIENT_DEVICE && q.language == 0
                && q.size >= CONFIGURATION_LENGTH {
        if deviceDescriptor != [] && q.index >= At(deviceDescriptor, 17) as int {
          return Error;
        }
        if descriptor == None || index != q.index {
          r := Fetch(hardware, q, bus);
          if r.Data? && descriptor == None && |r.bytes| >= TotalLength(r.bytes) {
            var size := TotalLength(r.bytes);
            r := Data(r.bytes[..size]);
            descriptor, value, totalSize, index := Some(r.bytes), 0, size, q.index;
          }
        } else {
          var size := if q.size > TotalLength(descriptor.value) then TotalLength(descriptor.value) else q.size;
          r := Data(Take(descriptor.value, size));
        }
      } else {
        r := Fetch(hardware, q, bus);
      }
    }

    method GetConfigDescriptor(wanted: int, bus: Bus) returns (f: Option<Found>)
      requires Valid()
      modifies this`deviceDescriptor, this`descriptor, this`totalSize, this`value, this`index
      ensures (f, State()) == ConfigurationSetting.GetConfigDescriptor(hardware, old(State()), wanted, bus)
      ensures Valid()
    {
      hide *;
      var device := GetDescriptor(DeviceRequest(), bus.device);
      FindingStarts(hardware, old(State()), wanted, bus);
      if !device.Data? || |device.bytes| != DEVICE_LENGTH {
        return None;
      }
      ghost var s := State();
      var n: nat := At(device.bytes, 17) as int;
      var desc := bus.headerJunk;
      for i := 0 to n
        invariant Valid()
        invariant Look(hardware, s, n, wanted, 0, bus.headerJunk, bus) == Look(hardware, State(), n, wanted, i, desc, bus)
      {
        LookTurns(hardware, State(), n, wanted, i, desc, bus);
        var header := GetDescriptor(ConfigurationRequest(CONFIGURATION_LENGTH, i), bus.header(i));
        if header == Error {
          return None;
        }
        desc := Header(hardware, header, i, desc, bus);
        if Wanted(wanted, desc, i) {
          ReadWholeIs(hardware, State(), TotalLength(desc), i, bus);
          var whole := GetDescriptor(ConfigurationRequest(TotalLength(desc), i), bus.whole(i));
          if whole == Error {
            return None;
          }
          return Some(Found(Filled(whole, bus.wholeJunk), if whole.Data? then |whole.bytes| else 0, i));
        }
      }
      LookTurns(hardware, State(), n, wanted, n, desc, bus);
      return None;
    }

    // ----- set_configuration.c -----

    /** `update_pipe_info`, as far as the interface table goes. */
    method UpdatePipeInfo(number: nat)
      requires valid.Length == MAX_INTERFACES
      modifies valid
      ensures valid[..] == if number < MAX_INTERFACES then old(valid[..])[number := true] else old(valid[..])
    {
      if number < MAX_INTERFACES {
        valid[number] := true;
      }
    }

    /** `clear_pipe_info`. */
    method ClearPipeInfo()
      requires valid.Length == owner.Length == MAX_INTERFACES
      modifies valid, owner
      ensures valid[..] == TableOf([]) && owner[..] == Unowned()
    {
      for i := 0 to MAX_INTERFACES
        invariant forall n :: 0 <= n < i ==> !valid[n] && owner[n] == NOBODY
      {
        valid[i], owner[i] := false, NOBODY;
      }
    }

    /** The table after a selection. */
    method FillTable(numbers: seq<nat>)
      requires valid.Length == owner.Length == MAX_INTERFACES
      modifies valid, owner
      ensures valid[..] == TableOf(numbers) && owner[..] == Unowned()
    {
      ClearPipeInfo();
      for i := 0 to |numbers|
        invariant forall n :: 0 <= n < MAX_INTERFACES ==> valid[n] == (n in numbers[..i])
        invariant owner[..] == Unowned()
      {
        UpdatePipeInfo(numbers[i]);
      }
      assert numbers[..|numbers|] == numbers;
    }

    /** `set_configuration`. What it leaves is only `Valid` under the conditions of `SetConfigurationIsExact`. */
    method SetConfiguration(configuration: int, bus: Bus) returns (status: Status)
      requires Valid()
      modifies this`deviceDescriptor, this`descriptor, this`totalSize, this`value, this`index, valid, owner
      ensures (status, State()) == ConfigurationSetting.SetConfiguration(hardware, old(State()), configuration, bus)
    {
      hide Good, ConfigurationSetting.GetConfigDescriptor, Select;
      if configuration > 0 && value == configuration {
        return Success;
      }
      if configuration < 0 && value != 0 && index == -configuration - 1 {
        return Success;
      }
      if configuration == 0 {
        match bus.call
        case BusError => return Unsuccessful;
        case UrbError(_) => return Timeout;
        case BusOk =>
          value := 0;
          ClearPipeInfo();
          return Success;
      }
      var wanted := if configuration <= ACTIVE_CONFIGURATION then -1 else configuration;
      FindingKeepsGood(hardware, State(), wanted, bus);
      var f := GetConfigDescriptor(wanted, bus);
      if f == None {
        return InvalidParameter;
      }
      status := SelectConfiguration(f.value, bus.call);
    }

    /** The rest of `set_configuration`, with a descriptor at hand. */
    method SelectConfiguration(f: Found, bus: BusResult) returns (status: Status)
      requires Valid() && CanBeWalked(f.bytes, f.size)
      modifies this`descriptor, this`totalSize, this`value, this`index, valid, owner
      ensures (status, State()) == Select(old(State()), f, bus)
    {
      hide Good, SelectedIn, TableOf, CanBeWalked;
      if value == ConfigurationValue(f.bytes) {
        UpdateContext(Some(f.bytes), f.size, ConfigurationValue(f.bytes), f.at);
        return Success;
      }
      var numbers := SelectInterfaces(f.bytes, f.size);
      if numbers == None {
        return InvalidParameter;
      }
      if bus != BusOk {
        return Unsuccessful;
      }
      FillTable(numbers.value);
      UpdateContext(Some(f.bytes), f.size, ConfigurationValue(f.bytes), f.at);
      return Success;
    }

    /** `UpdateContextConfigDescriptor`. */
    method UpdateContext(descriptor: Option<seq<byte>>, totalSize: int, value: int, index: int)
      modifies this`descriptor, this`totalSize, this`value, this`index
      ensures State() == old(State()).(descriptor := descriptor, totalSize := totalSize, value := value, index := index)
    {
      this.descriptor, this.totalSize, this.value, this.index := descriptor, totalSize, value, index;
    }

    method Reset(anyType: bool, bus: BusResult) returns (status: Status)
      requires Valid()
      modifies this`descriptor, this`totalSize, this`value, this`index
      ensures (status, State()) == InterfaceOwnership.Reset(old(State()), anyType, bus)
      ensures Valid()
    {
      ResetKeepsGood(hardware, State(), anyType, bus);
      hide Good;
      status := InvalidParameter;
      if anyType {
        status := Failed(bus);
      }
      UpdateContext(None, 0, 0, -1);
    }

    // ----- set_interface.c -----

    method SetInterface(number: int, alternate: int, bus: BusResult) returns (status: Status)
      requires Valid()
      modifies valid
      ensures (status, State()) == InterfaceOwnership.SetInterface(old(State()), number, alternate, bus)
      ensures Valid()
    {
      SetInterfaceKeepsGood(hardware, State(), number, alternate, bus);
      CachedIsWhole(hardware, State());
      hide Good, Walkable, Interfaces, First, TotalLength, NumbersFit;
      if value == 0 || descriptor == None {
        return InvalidDeviceState;
      }
      var d := FindInterfaceDesc(descriptor.value, totalSize, number, alternate);
      FirstIs(InterfacesOf(descriptor.value), (number % 256) as byte, (alternate % 256) as byte);
      if d == None {
        return NoMoreEntries;
      }
      if bus != BusOk {
        return Unsuccessful;
      }
      UpdatePipeInfo(d.value.number as int);
      return Success;
    }

    method SetInterfaceEx(q: Request, bus: BusResult) returns (status: Status)
      requires Valid()
      modifies valid
      ensures (status, State()) == InterfaceOwnership.SetInterfaceEx(old(State()), q, bus)
      ensures Valid()
    {
      hide Good, InterfaceOwnership.SetInterface, InterfaceOwnership.Meant;
      var d := Mean(q);
      if d == None {
        return NoMoreEntries;
      }
      status := SetInterface(d.value.number as int, d.value.alternate as int, bus);
    }

    /** The look-up that the `_ex` calls start with. */
    method Mean(q: Request) returns (d: Option<Interface>)
      requires Valid()
      ensures d == Meant(State(), q)
    {
      CachedIsWhole(hardware, State());
      hide Good, Walkable, Interfaces, FirstMatch, TotalLength, NumbersFit;
      if descriptor == None {
        return None;
      }
      var answer, left;
      d, answer, left := FindInterfaceDescEx(descriptor.value, totalSize, q);
    }

    // ----- claim_interface.c, release_interface.c -----

    /** A negative number would address memory before the table; the model stops there. */
    method Claim(file: File, number: int) returns (status: Status)
      requires Valid() && file != NOBODY
      modifies owner
      ensures (status, State()) == InterfaceOwnership.Claim(old(State()), file, number)
      ensures Valid()
    {
      ClaimKeepsGood(hardware, State(), file, number);
      hide Good;
      if value == 0 {
        return InvalidDeviceState;
      }
      if number >= MAX_INTERFACES {
        return InvalidParameter;
      }
      if number < 0 {
        return Fault;
      }
      if !valid[number] {
        return InvalidParameter;
      }
      if owner[number] == file {
        return Success;
      }
      if owner[number] != NOBODY {
        return DeviceBusy;
      }
      owner[number] := file;
      return Success;
    }

    method Release(file: File, number: int) returns (status: Status)
      requires Valid() && file != NOBODY
      modifies owner
      ensures (status, State()) == InterfaceOwnership.Release(old(State()), file, number)
      ensures Valid()
    {
      ClaimKeepsGood(hardware, State(), file, number);
      hide Good;
      if value == 0 {
        return InvalidDeviceState;
      }
      if number >= MAX_INTERFACES {
        return InvalidParameter;
      }
      if number < 0 {
        return Fault;
      }
      if !valid[number] {
        return InvalidParameter;
      }
      if owner[number] == NOBODY {
        return InvalidDeviceState;
      }
      if owner[number] != file {
        return DeviceBusy;
      }
      owner[number] := NOBODY;
      return Success;
    }

    method ClaimEx(file: File, q: Request) returns (status: Status)
      requires Valid() && file != NOBODY
      modifies owner
      ensures (status, State()) == InterfaceOwnership.ClaimEx(old(State()), file, q)
      ensures Valid()
    {
      hide Good, InterfaceOwnership.Claim, Meant;
      if value == 0 || descriptor == None {
        return InvalidDeviceState;
      }
      var d := Mean(AnySetting(q));
      if d == None {
        return NoMoreEntries;
      }
      status := Claim(file, d.value.number as int);
    }

    method ReleaseEx(file: File, q: Request) returns (status: Status)
      requires Valid() && file != NOBODY
      modifies owner
      ensures (status, State()) == InterfaceOwnership.ReleaseEx(old(State()), file, q)
      ensures Valid()
    {
      hide Good, InterfaceOwnership.Release, Meant;
      if value == 0 || descriptor == None {
        return InvalidDeviceState;
      }
      var d := Mean(AnySetting(q));
      if d == None {
        return NoMoreEntries;
      }
      status := Release(file, d.value.number as int);
    }

    method ReleaseAll(file: File)
      requires Valid() && file != NOBODY
      modifies owner
      ensures State() == InterfaceOwnership.ReleaseAll(old(State()), file)
      ensures Valid()
    {
      ClaimKeepsGood(hardware, State(), file, 0);
      hide Good;
      for i := 0 to MAX_INTERFACES
        invariant forall n :: 0 <= n < i ==> owner[n] == if old(owner[n]) == file then NOBODY else old(owner[n])
        invariant forall n :: i <= n < MAX_INTERFACES ==> owner[n] == old(owner[n])
      {
        if owner[i] == file {
          owner[i] := NOBODY;
        }
      }
    }

    // ----- any call, any run -----

    /** The dispatcher, for the calls modelled. */
    method Call(o: Operation, bus: Bus) returns (a: Answer)
      requires Valid() && Proper(o)
      modifies this, valid, owner
      ensures (a, State()) == Perform(hardware, old(State()), o, bus)
    {
      hide Good, DescriptorCache.GetDescriptor, ConfigurationSetting.SetConfiguration;
      hide InterfaceOwnership.SetInterface, InterfaceOwnership.SetInterfaceEx;
      hide InterfaceOwnership.Claim, InterfaceOwnership.ClaimEx;
      hide InterfaceOwnership.Release, InterfaceOwnership.ReleaseEx;
      match o
      case Read(q) => var r := GetDescriptor(q, bus.call); a := Descriptor(r);
      case Configure(c) => var status := SetConfiguration(c, bus); a := Done(status);
      case ResetDevice(anyType) => var status := Reset(anyType, bus.call); a := Done(status);
      case SetSetting(n, alternate) => var status := SetInterface(n, alternate, bus.call); a := Done(status);
      case SetSettingEx(q) => var status := SetInterfaceEx(q, bus.call); a := Done(status);
      case ClaimNumber(f, n) => var status := Claim(f, n); a := Done(status);
      case ClaimMeant(f, q) => var status := ClaimEx(f, q); a := Done(status);
      case ReleaseNumber(f, n) => var status := Release(f, n); a := Done(status);
      case ReleaseMeant(f, q) => var status := ReleaseEx(f, q); a := Done(status);
      case Close(f) => ReleaseAll(f); a := Done(Success);
    }

    /** Any run of calls, each safe when it is made, is a history. */
    method Serve(os: seq<Operation>, buses: seq<Bus>) returns (answers: seq<Answer>, ghost ms: seq<Driver>)
      requires Valid() && |buses| == |os| && AllSafe(hardware, State(), os, buses)
      modifies this, valid, owner
      ensures History(hardware, os, buses, answers, ms) && Valid()
      ensures ms[0] == old(State()) && ms[|os|] == State()
    {
      answers, ms := [], [State()];
      assert os[0..] == os && buses[0..] == buses && os[..0] == [] && buses[..0] == [];
      assert History(hardware, os[..0], buses[..0], answers, ms);
      hide Good, History, AllSafe;
      for i := 0 to |os|
        invariant Valid() && AllSafe(hardware, State(), os[i..], buses[i..])
        invariant History(hardware, os[..i], buses[..i], answers, ms) && |ms| == i + 1
        invariant ms[0] == old(State()) && ms[i] == State()
      {
        ghost var s := State();
        NextSafe(hardware, s, os, buses, i);
        SafeKeepsGood(hardware, s, os[i], buses[i]);
        var a := Call(os[i], buses[i]);
        HistoryGoesOn(hardware, os, buses, answers, ms, i, a, State());
        answers, ms := answers + [a], ms + [State()];
      }
      assert os[..|os|] == os && buses[..|os|] == buses;
    }
  }

  // ----- the loop of get_config_descriptor -----

  lemma FindingStarts(h: Hardware, s: Driver, wanted: int, bus: Bus)
    ensures ConfigurationSetting.GetConfigDescriptor(h, s, wanted, bus)
            == var (r, t) := DescriptorCache.GetDescriptor(h, s, DeviceRequest(), bus.device);
               if r.Data? && |r.bytes| == DEVICE_LENGTH then
                 Look(h, t, At(r.bytes, 17) as nat, wanted, 0, bus.headerJunk, bus)
               else (None, t)
  {}

  lemma LookTurns(h: Hardware, s: Driver, n: nat, wanted: int, i: nat, buffer: seq<byte>, bus: Bus)
    ensures Look(h, s, n, wanted, i, buffer, bus)
            == if i >= n then (None, s)
               else
                 var q := ConfigurationRequest(CONFIGURATION_LENGTH, i);
                 var (r, t) := DescriptorCache.GetDescriptor(h, s, q, bus.header(i));
                 var header := Header(h, r, i, buffer, bus);
                 if r == Error then (None, t)
                 else if Wanted(wanted, header, i) then ReadWhole(h, t, TotalLength(header), i, bus)
                 else Look(h, t, n, wanted, i + 1, header, bus)
  {
    hide DescriptorCache.GetDescriptor, ReadWhole, Wanted, TotalLength, Header;
  }

  lemma ReadWholeIs(h: Hardware, s: Driver, total: nat, i: nat, bus: Bus)
    ensures ReadWhole(h, s, total, i, bus)
            == var (r, t) := DescriptorCache.GetDescriptor(h, s, ConfigurationRequest(total, i), bus.whole(i));
               if r == Error then (None, t)
               else (Some(Found(Filled(r, bus.wholeJunk), if r.Data? then |r.bytes| else 0, i)), t)
  {
    hide DescriptorCache.GetDescriptor;
  }

  lemma CachedIsWhole(h: Hardware, s: Driver)
    requires Good(h, s)
    ensures s.descriptor.Some? ==>
              var c := s.descriptor.value;
              s.totalSize == |c| == TotalLength(c) && Walkable(c, 0, |c|) && NumbersFit(InterfacesOf(c))
  {
    if s.descriptor.Some? {
      assert ProperConfiguration(h.configurations[s.index % 256]);
    }
  }

  // ----- runs -----

  /** Every call is safe in the state that the ones before it lead to. */
  ghost predicate AllSafe(h: Hardware, s: Driver, os: seq<Operation>, buses: seq<Bus>)
    requires |buses| == |os|
    decreases |os|
  {
    os == []
    || (Proper(os[0]) && Sized(s) && Safe(h, s, os[0], buses[0])
        && AllSafe(h, Perform(h, s, os[0], buses[0]).1, os[1..], buses[1..]))
  }

  lemma NextSafe(h: Hardware, s: Driver, os: seq<Operation>, buses: seq<Bus>, i: nat)
    requires i < |os| == |buses| && AllSafe(h, s, os[i..], buses[i..])
    ensures Proper(os[i]) && Sized(s) && Safe(h, s, os[i], buses[i])
    ensures AllSafe(h, Perform(h, s, os[i], buses[i]).1, os[i + 1..], buses[i + 1..])
  {
    assert os[i..][1..] == os[i + 1..] && buses[i..][1..] == buses[i + 1..];
    hide Perform, Safe;
  }

  lemma HistoryGoesOn(h: Hardware, os: seq<Operation>, buses: seq<Bus>, answers: seq<Answer>, ms: seq<Driver>, i: nat,
                      a: Answer, t: Driver)
    requires i < |os| == |buses| && History(h, os[..i], buses[..i], answers, ms) && |ms| == i + 1
    requires Leads(h, ms[i], os[i], buses[i], a, t)
    ensures History(h, os[..i + 1], buses[..i + 1], answers + [a], ms + [t])
  {
    hide Leads, Good;
    var os', buses', answers', ms' := os[..i + 1], buses[..i + 1], answers + [a], ms + [t];
    forall k | 0 <= k < i + 1 ensures Leads(h, ms'[k], os'[k], buses'[k], answers'[k], ms'[k + 1]) {
      if k < i {
        assert Leads(h, ms[k], os[..i][k], buses[..i][k], answers[k], ms[k + 1]);
      }
    }
  }
}
