/** Whole runs of calls on one device, made by any number of file objects: the dispatcher of libusb/src/driver/ioctl.c
    and dispatch.c, as far as descriptors, configuration and interfaces go. Each call is one step here; module ClaimRace
    is about claims that overlap. */
module DriverRuns {
  import opened Bytes
  import opened ConfigurationSetting
  import opened DescriptorCache
  import opened DeviceModel
  import opened InterfaceLookup
  import opened InterfaceOwnership
  import opened InterfaceSelection

  /** A call on the device. Claims and releases are made by the file object that carries the request. */
  datatype Operation =
    | Read(request: DescriptorRequest)
    | Configure(configuration: int)
    | ResetDevice(anyType: bool)
    | SetSetting(number: int, alternate: int)
    | SetSettingEx(query: Request)
    | ClaimNumber(file: File, which: int)
    | ClaimMeant(file: File, query: Request)
    | ReleaseNumber(file: File, which: int)
    | ReleaseMeant(file: File, query: Request)
    | Close(file: File)

  predicate Proper(o: Operation) {
    o.ClaimNumber? || o.ClaimMeant? || o.ReleaseNumber? || o.ReleaseMeant? || o.Close? ==> o.file != NOBODY
  }

  /** What a call gives back. */
  datatype Answer = Descriptor(received: Received) | Done(status: Status)

  function Answered(r: (Status, Driver)): (Answer, Driver) {
    (Done(r.0), r.1)
  }

  function Perform(h: Hardware, s: Driver, o: Operation, bus: Bus): (Answer, Driver)
    requires Sized(s)
  {
    match o
    case Read(q) => var (r, t) := GetDescriptor(h, s, q, bus.call); (Descriptor(r), t)
    case Configure(c) => Answered(SetConfiguration(h, s, c, bus))
    case ResetDevice(anyType) => Answered(Reset(s, anyType, bus.call))
    case SetSetting(n, alternate) => Answered(SetInterface(s, n, alternate, bus.call))
    case SetSettingEx(q) => Answered(SetInterfaceEx(s, q, bus.call))
    case ClaimNumber(f, n) => Answered(Claim(s, f, n))
    case ClaimMeant(f, q) => Answered(ClaimEx(s, f, q))
    case ReleaseNumber(f, n) => Answered(Release(s, f, n))
    case ReleaseMeant(f, q) => Answered(ReleaseEx(s, f, q))
    case Close(f) => (Done(Success), ReleaseAll(s, f))
  }

  // ----- which calls are safe -----

  /** No bus can make the call spoil the driver's state or leave its tables. */
  predicate SafeOnAnyBus(h: Hardware, s: Driver, o: Operation) {
    && (o.Configure? ==> Trusted(h, s, o.configuration))
    && (o.ClaimNumber? || o.ReleaseNumber? ==> s.value == 0 || o.which >= 0)
  }

  /** The call is safe, if not on any bus then because no call to the bus times out. */
  ghost predicate Safe(h: Hardware, s: Driver, o: Operation, bus: Bus) {
    SafeOnAnyBus(h, s, o) || (o.Configure? && NoTimeout(bus))
  }

  ghost predicate KeptWell(h: Hardware, r: (Answer, Driver)) {
    Good(h, r.1) && r.0 != Done(Fault)
  }

  lemma SafeKeepsGood(h: Hardware, s: Driver, o: Operation, bus: Bus)
    requires Good(h, s) && Proper(o) && Safe(h, s, o, bus)
    ensures KeptWell(h, Perform(h, s, o, bus))
  {
    hide Tabled, ProperHardware, CacheGood, SetConfiguration, GetDescriptor, Trusted, NoTimeout, Meant, HasSetting;
    match o
    case Read(q) => ReadKeepsGood(h, s, q, bus.call);
    case Configure(c) => SetConfigurationIs(h, s, c, bus); NeverFaults(h, s, c, bus);
    case ResetDevice(anyType) => ResetKeepsGood(h, s, anyType, bus.call);
    case SetSetting(n, alternate) => SetInterfaceKeepsGood(h, s, n, alternate, bus.call);
    case SetSettingEx(q) =>
      if Meant(s, q).Some? {
        SetInterfaceKeepsGood(h, s, Meant(s, q).value.number as int, Meant(s, q).value.alternate as int, bus.call);
      }
    case ClaimNumber(f, n) => ClaimKeepsGood(h, s, f, n);
    case ClaimMeant(f, q) =>
      if Meant(s, AnySetting(q)).Some? {
        ClaimKeepsGood(h, s, f, Meant(s, AnySetting(q)).value.number as int);
      }
    case ReleaseNumber(f, n) => ClaimKeepsGood(h, s, f, n);
    case ReleaseMeant(f, q) =>
      if Meant(s, AnySetting(q)).Some? {
        ClaimKeepsGood(h, s, f, Meant(s, AnySetting(q)).value.number as int);
      }
    case Close(f) => ClaimKeepsGood(h, s, f, 0);
  }

  lemma ReadKeepsGood(h: Hardware, s: Driver, q: DescriptorRequest, bus: BusResult)
    requires Good(h, s)
    ensures Good(h, GetDescriptor(h, s, q, bus).1)
  {
    ReadsAreDirect(h, s, q, bus);
    hide GetDescriptor, CacheGood, Tabled, ProperHardware;
    FillingKeepsGood(h, s, GetDescriptor(h, s, q, bus).1);
  }

  lemma NeverFaults(h: Hardware, s: Driver, c: int, bus: Bus)
    ensures SetConfiguration(h, s, c, bus).0 != Fault
  {
    hide GetConfigDescriptor, SelectedIn, AlreadySet;
  }

  /** The exact condition for every call: the driver's state stays good and its tables are kept to on every bus if and
      only if the call is a trusted configuration, a claim or release that is not of a negative number on a configured
      device, or any other call. */
  lemma SafetyIsExact(h: Hardware, s: Driver, o: Operation)
    requires Good(h, s) && Proper(o)
    ensures (forall bus :: KeptWell(h, Perform(h, s, o, bus))) <==> SafeOnAnyBus(h, s, o)
  {
    assert Sized(s);
    hide Good, SetConfiguration, Trusted, GetDescriptor;
    if SafeOnAnyBus(h, s, o) {
      forall bus ensures KeptWell(h, Perform(h, s, o, bus)) {
        SafeKeepsGood(h, s, o, bus);
      }
    } else if o.Configure? {
      var bus := SpoilingBus(s, o.configuration);
      UntrustedIsSpoilt(h, s, o.configuration);
      assert !KeptWell(h, Perform(h, s, o, bus));
    } else {
      TableIsKeptTo(s, o.file, o.which);
      assert !KeptWell(h, Perform(h, s, o, BadBus(0, 0, false)));
    }
  }

  // ----- when a call succeeds -----

  /** The file may have interface `number`, or may let it go. */
  predicate MayClaim(s: Driver, f: File, number: int)
    requires Sized(s)
  {
    Holdable(s, number) && s.owner[number] in {NOBODY, f}
  }

  predicate MayRelease(s: Driver, f: File, number: int)
    requires Sized(s)
  {
    Holdable(s, number) && s.owner[number] == f
  }

  predicate Configured(s: Driver) {
    s.value != 0 && s.descriptor.Some?
  }

  /** What each call needs to succeed while the bus works. */
  ghost predicate Succeeds(h: Hardware, s: Driver, o: Operation)
    requires Sized(s)
  {
    match o
    case Read(q) => ToRecipient(q) && DirectRead(h, q).Some? && !OutOfRange(s, q)
    case Configure(c) => CanBeSet(h, s, c)
    case ResetDevice(anyType) => anyType
    case SetSetting(n, alternate) => Configured(s) && HasSetting(s.descriptor.value, n, alternate)
    case SetSettingEx(q) => Configured(s) && Meant(s, q).Some?
    case ClaimNumber(f, n) => MayClaim(s, f, n)
    case ClaimMeant(f, q) =>
      Configured(s) && Meant(s, AnySetting(q)).Some? && MayClaim(s, f, Meant(s, AnySetting(q)).value.number as int)
    case ReleaseNumber(f, n) => MayRelease(s, f, n)
    case ReleaseMeant(f, q) =>
      Configured(s) && Meant(s, AnySetting(q)).Some? && MayRelease(s, f, Meant(s, AnySetting(q)).value.number as int)
    case Close(_) => true
  }

  predicate IsSuccess(a: Answer) {
    a == Done(Success) || (a.Descriptor? && a.received.Data?)
  }

  /** While the bus works every call succeeds exactly when it can. */
  lemma SuccessIsExact(h: Hardware, s: Driver, o: Operation, bus: Bus)
    requires Good(h, s) && Proper(o) && AllOk(bus)
    ensures IsSuccess(Perform(h, s, o, bus).0) <==> Succeeds(h, s, o)
  {
    assert bus.call == BusOk;
    hide Tabled, ProperHardware, CacheGood, SetConfiguration, GetDescriptor, CanBeSet, AllOk, Meant, HasSetting, Holdable;
    hide Claim, Release, SetInterface, DirectRead, ConfigurationGood;
    match o
    case Read(q) => ReadsAreDirect(h, s, q, bus.call);
    case Configure(c) => SucceedsExactly(h, s, c, bus);
    case ResetDevice(anyType) =>
    case SetSetting(n, alternate) => SettingSucceeds(s, n, alternate);
    case SetSettingEx(q) => MeantIsSet(s, q); NothingMeant(s, q);
    case ClaimNumber(f, n) => ClaimIsExact(s, f, n);
    case ClaimMeant(f, q) =>
      if Meant(s, AnySetting(q)).Some? {
        ClaimIsExact(s, f, Meant(s, AnySetting(q)).value.number as int);
      }
    case ReleaseNumber(f, n) => ReleaseIsExact(s, f, n);
    case ReleaseMeant(f, q) =>
      if Meant(s, AnySetting(q)).Some? {
        ReleaseIsExact(s, f, Meant(s, AnySetting(q)).value.number as int);
      }
    case Close(f) =>
  }

  lemma SettingSucceeds(s: Driver, n: int, alternate: int)
    ensures SetInterface(s, n, alternate, BusOk).0 == Success
            <==> Configured(s) && HasSetting(s.descriptor.value, n, alternate)
  {
    hide HasSetting;
  }

  lemma NothingMeant(s: Driver, q: Request)
    ensures Meant(s, q).Some? ==> s.descriptor.Some?
  {
    hide Interfaces;
  }

  // ----- what one call does to one interface -----

  predicate Claims(o: Operation) {
    o.ClaimNumber? || o.ClaimMeant?
  }

  predicate Releases(o: Operation) {
    o.ReleaseNumber? || o.ReleaseMeant?
  }

  /** The claim or release is one of interface n: it gives the number, or its request means a setting of it. */
  predicate Names(s: Driver, o: Operation, n: nat) {
    match o
    case ClaimNumber(_, which) => which == n
    case ReleaseNumber(_, which) => which == n
    case ClaimMeant(_, q) => Meant(s, AnySetting(q)).Some? && Meant(s, AnySetting(q)).value.number as int == n
    case ReleaseMeant(_, q) => Meant(s, AnySetting(q)).Some? && Meant(s, AnySetting(q)).value.number as int == n
    case _ => false
  }

  /** The file asks to let go of interface n. */
  predicate LetsGo(s: Driver, o: Operation, n: nat, f: File) {
    (Releases(o) && o.file == f && Names(s, o, n)) || o == Close(f)
  }

  /** A configuration has been set that was not the active one. */
  predicate Reconfigures(s: Driver, o: Operation, r: (Answer, Driver)) {
    o.Configure? && r.0 == Done(Success) && (r.1.value != s.value || r.1.value == 0)
  }

  /** Who owns interface n after a call. A claim succeeds only on an interface that is free or the file's own, a release
      only on one that is the file's own. */
  ghost predicate OwnerIs(s: Driver, o: Operation, r: (Answer, Driver), n: nat)
    requires Sized(s) && Sized(r.1) && n < MAX_INTERFACES
  {
    var before, after, ok := s.owner[n], r.1.owner[n], r.0 == Done(Success);
    if Reconfigures(s, o, r) then after == NOBODY
    else if Claims(o) && ok && Names(s, o, n) then after == o.file && before in {NOBODY, o.file}
    else if Releases(o) && ok && Names(s, o, n) then after == NOBODY && before == o.file
    else if o.Close? && before == o.file then after == NOBODY
    else after == before
  }

  lemma OwnerAfter(h: Hardware, s: Driver, o: Operation, bus: Bus, n: nat)
    requires Good(h, s) && Proper(o) && Safe(h, s, o, bus) && n < MAX_INTERFACES
    ensures Sized(Perform(h, s, o, bus).1) && OwnerIs(s, o, Perform(h, s, o, bus), n)
  {
    hide Tabled, ProperHardware, CacheGood, SetConfiguration, GetDescriptor, Trusted, NoTimeout, Meant, HasSetting;
    hide FreshTable, ConfigurationGood, Safe;
    match o
    case Read(q) => ReadsAreDirect(h, s, q, bus.call);
    case Configure(c) =>
      SafeKeepsGood(h, s, o, bus);
      SafeConfigures(h, s, c, bus);
      FreshIsUnowned(Perform(h, s, o, bus).1);
    case ClaimNumber(f, which) => ClaimOwns(s, f, which, n);
    case ClaimMeant(f, q) =>
      if Meant(s, AnySetting(q)).Some? {
        ClaimOwns(s, f, Meant(s, AnySetting(q)).value.number as int, n);
      }
    case ReleaseNumber(f, which) => ReleaseFrees(s, f, which, n);
    case ReleaseMeant(f, q) =>
      if Meant(s, AnySetting(q)).Some? {
        ReleaseFrees(s, f, Meant(s, AnySetting(q)).value.number as int, n);
      }
    case _ =>
  }

  lemma SafeConfigures(h: Hardware, s: Driver, c: int, bus: Bus)
    requires Good(h, s) && Safe(h, s, Configure(c), bus)
    ensures var (status, t) := SetConfiguration(h, s, c, bus); SetWell(h, s, c, status, t)
  {
    hide Good, SetConfiguration, Trusted, NoTimeout, SetWell;
    SetConfigurationIs(h, s, c, bus);
  }

  lemma ClaimOwns(s: Driver, f: File, which: int, n: nat)
    requires Sized(s) && n < MAX_INTERFACES && f != NOBODY
    ensures var (status, t) := Claim(s, f, which);
            && Sized(t) && t.value == s.value
            && if status == Success && which == n then t.owner[n] == f && s.owner[n] in {NOBODY, f}
               else t.owner[n] == s.owner[n]
  {}

  lemma ReleaseFrees(s: Driver, f: File, which: int, n: nat)
    requires Sized(s) && n < MAX_INTERFACES && f != NOBODY
    ensures var (status, t) := Release(s, f, which);
            && Sized(t) && t.value == s.value
            && if status == Success && which == n then t.owner[n] == NOBODY && s.owner[n] == f
               else t.owner[n] == s.owner[n]
  {}

  lemma FreshIsUnowned(s: Driver)
    ensures FreshTable(s) ==> s.owner == Unowned()
  {}

  /** The configuration, its descriptor and the tables change by the calls that are for it, when they succeed, and by
      nothing else; a reset forgets the configuration and keeps the tables. */
  lemma UnchangedOtherwise(h: Hardware, s: Driver, o: Operation, bus: Bus)
    requires Good(h, s) && Proper(o) && Safe(h, s, o, bus)
    ensures var (a, t) := Perform(h, s, o, bus);
            && (!o.ResetDevice? && !(o.Configure? && a == Done(Success)) ==> t.value == s.value)
            && (o.ResetDevice? ==> t.value == 0 && t.descriptor == None)
            && (!(o.Configure? && a == Done(Success)) && !o.SetSetting? && !o.SetSettingEx? ==> t.valid == s.valid)
            && (s.value != 0 && !o.Configure? && !o.ResetDevice? ==> t.descriptor == s.descriptor && t.index == s.index)
            && (!Claims(o) && !Releases(o) && !o.Close? && !(o.Configure? && a == Done(Success)) ==> t.owner == s.owner)
  {
    hide Tabled, ProperHardware, SetConfiguration, GetDescriptor, Trusted, NoTimeout, Meant, HasSetting, FreshTable, Safe;
    match o
    case Read(q) => ReadsAreDirect(h, s, q, bus.call);
    case Configure(c) => SafeConfigures(h, s, c, bus);
    case _ =>
  }

  // ----- histories -----

  /** The states that some calls lead through, each call being safe when it is made. */
  ghost predicate History(h: Hardware, os: seq<Operation>, buses: seq<Bus>, answers: seq<Answer>, ms: seq<Driver>) {
    && |buses| == |answers| == |os| && |ms| == |os| + 1
    && Good(h, ms[0])
    && forall k :: 0 <= k < |os| ==> Leads(h, ms[k], os[k], buses[k], answers[k], ms[k + 1])
  }

  ghost predicate Leads(h: Hardware, s: Driver, o: Operation, bus: Bus, a: Answer, t: Driver) {
    Proper(o) && Sized(s) && Safe(h, s, o, bus) && (a, t) == Perform(h, s, o, bus)
  }

  /** In every state of every history the cache agrees with the device, a non-zero value belongs to the descriptor cached
      at the index, owned interfaces are valid, and the table of a regular configuration is exact. */
  lemma {:induction false} HistoryIsGood(h: Hardware, os: seq<Operation>, buses: seq<Bus>, answers: seq<Answer>,
                                         ms: seq<Driver>, k: nat)
    requires History(h, os, buses, answers, ms) && k <= |os|
    ensures Good(h, ms[k])
    ensures ms[k].value != 0 && RegularConfiguration(ms[k].descriptor.value) ==>
              forall n :: 0 <= n < MAX_INTERFACES ==> (ms[k].valid[n] <==> HasSettingZero(ms[k].descriptor.value, n))
  {
    if k > 0 {
      HistoryIsGood(h, os, buses, answers, ms, k - 1);
      assert Leads(h, ms[k - 1], os[k - 1], buses[k - 1], answers[k - 1], ms[k]);
      SafeKeepsGood(h, ms[k - 1], os[k - 1], buses[k - 1]);
    }
    GoodIsExact(h, ms[k]);
  }

  lemma GoodIsExact(h: Hardware, s: Driver)
    requires Good(h, s)
    ensures s.value != 0 && RegularConfiguration(s.descriptor.value) ==>
              forall n :: 0 <= n < MAX_INTERFACES ==> (s.valid[n] <==> HasSettingZero(s.descriptor.value, n))
  {
    hide ProperHardware, CacheGood, SelectedOf, HasSettingZero, RegularConfiguration;
    if s.value != 0 && RegularConfiguration(s.descriptor.value) {
      TableIsExact(s.descriptor.value, s.valid);
    }
  }

  /** While a file object holds an interface it keeps it, until it lets this interface go itself or another configuration
      is set. */
  lemma {:induction false} HeldUntilLetGo(h: Hardware, os: seq<Operation>, buses: seq<Bus>, answers: seq<Answer>,
                                          ms: seq<Driver>, i: nat, j: nat, n: nat, f: File)
    requires History(h, os, buses, answers, ms) && i <= j <= |os| && n < MAX_INTERFACES && f != NOBODY
    requires |ms[i].owner| == MAX_INTERFACES && ms[i].owner[n] == f
    requires forall k :: i <= k < j ==>
               !LetsGo(ms[k], os[k], n, f) && !Reconfigures(ms[k], os[k], (answers[k], ms[k + 1]))
    ensures |ms[j].owner| == MAX_INTERFACES && ms[j].owner[n] == f
    decreases j
  {
    hide Good, Leads, LetsGo, Reconfigures, RegularConfiguration, HasSettingZero;
    if i < j {
      HeldUntilLetGo(h, os, buses, answers, ms, i, j - 1, n, f);
      HistoryIsGood(h, os, buses, answers, ms, j - 1);
      KeptForOneCall(h, ms[j - 1], os[j - 1], buses[j - 1], answers[j - 1], ms[j], n, f);
    }
  }

  lemma KeptForOneCall(h: Hardware, s: Driver, o: Operation, bus: Bus, a: Answer, t: Driver, n: nat, f: File)
    requires Good(h, s) && Leads(h, s, o, bus, a, t) && n < MAX_INTERFACES && f != NOBODY && s.owner[n] == f
    requires !LetsGo(s, o, n, f) && !Reconfigures(s, o, (a, t))
    ensures |t.owner| == MAX_INTERFACES && t.owner[n] == f
  {
    OwnerAfter(h, s, o, bus, n);
    hide Good, Perform, Reconfigures, Safe;
  }

  /** Interface n can be claimed by anybody. */
  predicate Free(s: Driver, n: nat) {
    Sized(s) && n < MAX_INTERFACES && s.value != 0 && s.valid[n] && s.owner[n] == NOBODY
  }

  /** The call is none that could end that. */
  predicate LeavesFree(s: Driver, o: Operation, n: nat) {
    !(Claims(o) && Names(s, o, n)) && !o.Configure? && !o.ResetDevice?
  }

  /** Setting an alternate setting makes interfaces valid only. */
  lemma SettingKeepsValid(h: Hardware, s: Driver, o: Operation, bus: Bus, n: nat)
    requires Sized(s) && n < MAX_INTERFACES && s.valid[n] && (o.SetSetting? || o.SetSettingEx?)
    ensures Sized(Perform(h, s, o, bus).1) && Perform(h, s, o, bus).1.valid[n]
  {
    hide HasSetting, Meant, GetDescriptor, SetConfiguration, Claim, Release, ClaimEx, ReleaseEx, Reset;
  }

  lemma OwnerStaysNobody(s: Driver, o: Operation, r: (Answer, Driver), n: nat)
    requires Sized(s) && Sized(r.1) && n < MAX_INTERFACES && OwnerIs(s, o, r, n) && Proper(o)
    requires s.owner[n] == NOBODY && !(Claims(o) && Names(s, o, n))
    ensures r.1.owner[n] == NOBODY
  {
    hide Names;
  }

  lemma FreeIs(s: Driver, n: nat)
    ensures Free(s, n) <==> Sized(s) && n < MAX_INTERFACES && s.value != 0 && s.valid[n] && s.owner[n] == NOBODY
  {}

  lemma LeavesFreeIs(s: Driver, o: Operation, n: nat)
    ensures LeavesFree(s, o, n) <==> !(Claims(o) && Names(s, o, n)) && !o.Configure? && !o.ResetDevice?
  {
    hide Names;
  }

  lemma StaysFree(h: Hardware, s: Driver, o: Operation, bus: Bus, n: nat)
    requires Good(h, s) && Proper(o) && Safe(h, s, o, bus) && Free(s, n) && LeavesFree(s, o, n)
    ensures Free(Perform(h, s, o, bus).1, n)
  {
    hide *;
    FreeIs(s, n);
    LeavesFreeIs(s, o, n);
    OwnerAfter(h, s, o, bus, n);
    OwnerStaysNobody(s, o, Perform(h, s, o, bus), n);
    UnchangedOtherwise(h, s, o, bus);
    if o.SetSetting? || o.SetSettingEx? {
      SettingKeepsValid(h, s, o, bus, n);
    }
    FreeIs(Perform(h, s, o, bus).1, n);
  }

  lemma {:induction false} FreeUntilClaimed(h: Hardware, os: seq<Operation>, buses: seq<Bus>, answers: seq<Answer>,
                                            ms: seq<Driver>, i: nat, j: nat, n: nat)
    requires History(h, os, buses, answers, ms) && i <= j <= |os| && Free(ms[i], n)
    requires forall k :: i <= k < j ==> LeavesFree(ms[k], os[k], n)
    ensures Free(ms[j], n)
    decreases j
  {
    hide Good, Leads, LeavesFree, RegularConfiguration, HasSettingZero, Free;
    if i < j {
      FreeUntilClaimed(h, os, buses, answers, ms, i, j - 1, n);
      HistoryIsGood(h, os, buses, answers, ms, j - 1);
      LeadsTo(h, ms[j - 1], os[j - 1], buses[j - 1], answers[j - 1], ms[j]);
      StaysFree(h, ms[j - 1], os[j - 1], buses[j - 1], n);
    }
  }

  lemma LeadsTo(h: Hardware, s: Driver, o: Operation, bus: Bus, a: Answer, t: Driver)
    requires Leads(h, s, o, bus, a, t)
    ensures Proper(o) && Sized(s) && Safe(h, s, o, bus) && (a, t) == Perform(h, s, o, bus)
  {
    hide Perform, Safe;
  }

  lemma HeldIsHoldable(h: Hardware, s: Driver, f: File, n: nat)
    requires Good(h, s) && s.value != 0 && n < MAX_INTERFACES && f != NOBODY && s.owner[n] == f
    ensures Holdable(s, n)
  {
    hide ProperHardware, CacheGood, ConfigurationGood;
  }

  /** Handing over: over any history of a configured device, an owner's release succeeds, and from then on, as long as
      nobody claims the interface and the device is neither configured nor reset, a claim by any file does. */
  lemma HandsOver(h: Hardware, os: seq<Operation>, buses: seq<Bus>, answers: seq<Answer>, ms: seq<Driver>,
                  i: nat, j: nat, n: nat, f: File, g: File)
    requires History(h, os, buses, answers, ms) && i < j < |os| && n < MAX_INTERFACES && f != NOBODY
    requires Sized(ms[i]) && ms[i].value != 0 && ms[i].owner[n] == f
    requires os[i] == ReleaseNumber(f, n) && os[j] == ClaimNumber(g, n)
    requires forall k :: i < k < j ==> LeavesFree(ms[k], os[k], n)
    ensures answers[i] == Done(Success) && answers[j] == Done(Success)
    ensures Sized(ms[j + 1]) && ms[j + 1].owner[n] == g
  {
    HistoryIsGood(h, os, buses, answers, ms, i);
    HistoryIsGood(h, os, buses, answers, ms, j);
    assert Leads(h, ms[i], os[i], buses[i], answers[i], ms[i + 1]);
    assert Leads(h, ms[j], os[j], buses[j], answers[j], ms[j + 1]);
    HeldIsHoldable(h, ms[i], f, n);
    ReleaseIsExact(ms[i], f, n);
    FreeUntilClaimed(h, os, buses, answers, ms, i + 1, j, n);
    ClaimIsExact(ms[j], g, n);
    hide Good, Safe, Claim, Release, LeavesFree;
  }

  /** Two files can claim the same interface, by number or by a request that means it, only if the first let it go in
      between, or another configuration was set. */
  lemma ClaimsExclude(h: Hardware, os: seq<Operation>, buses: seq<Bus>, answers: seq<Answer>, ms: seq<Driver>,
                      i: nat, j: nat, n: nat, f: File, g: File)
    requires History(h, os, buses, answers, ms) && i < j < |os| && n < MAX_INTERFACES && f != g
    requires Claims(os[i]) && os[i].file == f && Names(ms[i], os[i], n) && answers[i] == Done(Success)
    requires Claims(os[j]) && os[j].file == g && Names(ms[j], os[j], n) && answers[j] == Done(Success)
    ensures exists k :: i < k < j
              && (LetsGo(ms[k], os[k], n, f) || Reconfigures(ms[k], os[k], (answers[k], ms[k + 1])))
  {
    HistoryIsGood(h, os, buses, answers, ms, i);
    HistoryIsGood(h, os, buses, answers, ms, j);
    assert Leads(h, ms[i], os[i], buses[i], answers[i], ms[i + 1]);
    assert Leads(h, ms[j], os[j], buses[j], answers[j], ms[j + 1]);
    OwnerAfter(h, ms[i], os[i], buses[i], n);
    OwnerAfter(h, ms[j], os[j], buses[j], n);
    hide Good, Perform, Names, LetsGo, Safe, Leads;
    if forall k :: i < k < j ==>
         !LetsGo(ms[k], os[k], n, f) && !Reconfigures(ms[k], os[k], (answers[k], ms[k + 1])) {
      HeldUntilLetGo(h, os, buses, answers, ms, i + 1, j, n, f);
    }
  }

  /** After a close nothing is bound to the file object, unless it claims again. */
  lemma {:induction false} ClosedHoldsNothing(h: Hardware, os: seq<Operation>, buses: seq<Bus>, answers: seq<Answer>,
                                              ms: seq<Driver>, i: nat, j: nat, n: nat, f: File)
    requires History(h, os, buses, answers, ms) && i < j <= |os| && n < MAX_INTERFACES
    requires os[i] == Close(f) && f != NOBODY
    requires forall k :: i < k < j ==> !(Claims(os[k]) && os[k].file == f && Names(ms[k], os[k], n))
    ensures |ms[j].owner| == MAX_INTERFACES && ms[j].owner[n] != f
    decreases j
  {
    HistoryIsGood(h, os, buses, answers, ms, j - 1);
    assert Leads(h, ms[j - 1], os[j - 1], buses[j - 1], answers[j - 1], ms[j]);
    OwnerAfter(h, ms[j - 1], os[j - 1], buses[j - 1], n);
    hide Good, Perform, Names, Safe;
    if i < j - 1 {
      ClosedHoldsNothing(h, os, buses, answers, ms, i, j - 1, n, f);
    }
  }

  /** The same request is answered with the same bytes at any two moments, those of a direct read, whatever was cached,
      configured or reset in between. */
  lemma ReadsAgree(h: Hardware, os: seq<Operation>, buses: seq<Bus>, answers: seq<Answer>, ms: seq<Driver>, i: nat,
                   j: nat)
    requires History(h, os, buses, answers, ms) && i < |os| && j < |os|
    requires os[i].Read? && os[i] == os[j]
    requires answers[i].Descriptor? && answers[i].received.Data? && answers[j].Descriptor? && answers[j].received.Data?
    ensures answers[i] == answers[j] && DirectRead(h, os[i].request) == Some(answers[i].received.bytes)
  {
    HistoryIsGood(h, os, buses, answers, ms, i);
    HistoryIsGood(h, os, buses, answers, ms, j);
    assert Leads(h, ms[i], os[i], buses[i], answers[i], ms[i + 1]);
    assert Leads(h, ms[j], os[j], buses[j], answers[j], ms[j + 1]);
    ReadsAreDirect(h, ms[i], os[i].request, buses[i].call);
    ReadsAreDirect(h, ms[j], os[j].request, buses[j].call);
    hide DirectRead, GetDescriptor, CacheGood, Cached, OutOfRange, ProperHardware;
  }
}
