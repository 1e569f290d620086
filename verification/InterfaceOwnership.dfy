/** Interfaces once a configuration is set: `set_interface`, and who may claim and release what
    (libusb/src/driver/set_interface.c, claim_interface.c, release_interface.c and reset_device.c). */
module InterfaceOwnership {
  import opened Bytes
  import opened ConfigurationSetting
  import opened DescriptorCache
  import opened DeviceModel
  import opened InterfaceLookup
  import opened InterfaceSelection

  // ----- the interface that a request means -----

  /** The interface descriptor that a request by numbers or indices means. */
  function Meant(s: Driver, q: Request): Option<Interface> {
    if s.descriptor == None then None
    else
      var xs := InterfacesOf(s.descriptor.value);
      match FirstMatch(q, xs, 0) case None => None case Some(i) => Some(xs[i])
  }

  function AnySetting(q: Request): Request {
    q.(altsettingIndex := ANY)
  }

  lemma MeantIsThere(s: Driver, q: Request)
    requires Meant(s, q).Some?
    ensures var x := Meant(s, q).value;
            s.descriptor.Some? && HasSetting(s.descriptor.value, x.number as int, x.alternate as int)
            && HasNumber(s.descriptor.value, x.number as int)
  {
    var c := s.descriptor.value;
    InterfaceHasSetting(c, FirstMatch(q, InterfacesOf(c), 0).value);
    hide HasSetting, MatchesAt, Interfaces;
  }

  // ----- reset, set_interface -----

  function Failed(bus: BusResult): Status {
    match bus case BusOk => Success case UrbError(_) => Timeout case BusError => Unsuccessful
  }

  /** `reset_device_ex`: the configuration is forgotten, whether the bus obeys or not; the interface table stays. Without
      a reset type the bus is not asked. */
  function Reset(s: Driver, anyType: bool, bus: BusResult): (Status, Driver) {
    (if anyType then Failed(bus) else InvalidParameter,
     s.(descriptor := None, totalSize := 0, value := 0, index := -1))
  }

  /** `set_interface`; the arguments are truncated to bytes. */
  function SetInterface(s: Driver, number: int, alternate: int, bus: BusResult): (Status, Driver) {
    if s.value == 0 || s.descriptor == None then (InvalidDeviceState, s)
    else if !HasSetting(s.descriptor.value, number, alternate) then (NoMoreEntries, s)
    else if bus != BusOk then (Unsuccessful, s)
    else if number % 256 < MAX_INTERFACES && |s.valid| == MAX_INTERFACES then
      (Success, s.(valid := s.valid[number % 256 := true]))
    else (Success, s)
  }

  /** `set_interface_ex`: after the look-up the setting is looked up again by its numbers. */
  function SetInterfaceEx(s: Driver, q: Request, bus: BusResult): (Status, Driver) {
    match Meant(s, q)
    case None => (NoMoreEntries, s)
    case Some(x) => SetInterface(s, x.number as int, x.alternate as int, bus)
  }

  // ----- claim and release -----

  /** The element of the interface table that a claim or release addresses, if it comes to that. */
  function Slot(s: Driver, number: int): Option<int> {
    if s.value == 0 || number >= MAX_INTERFACES then None else Some(number)
  }

  predicate InTable(s: Driver, number: int) {
    Slot(s, number).Some? ==> 0 <= Slot(s, number).value < MAX_INTERFACES
  }

  function Refused(s: Driver): Status {
    if s.value == 0 then InvalidDeviceState else InvalidParameter
  }

  /** `claim_interface`. */
  function Claim(s: Driver, file: File, number: int): (Status, Driver)
    requires Sized(s)
  {
    match Slot(s, number)
    case None => (Refused(s), s)
    case Some(n) =>
      if n < 0 then (Fault, s)
      else if !s.valid[n] then (InvalidParameter, s)
      else if s.owner[n] == file then (Success, s)
      else if s.owner[n] != NOBODY then (DeviceBusy, s)
      else (Success, s.(owner := s.owner[n := file]))
  }

  /** `release_interface`. */
  function Release(s: Driver, file: File, number: int): (Status, Driver)
    requires Sized(s)
  {
    match Slot(s, number)
    case None => (Refused(s), s)
    case Some(n) =>
      if n < 0 then (Fault, s)
      else if !s.valid[n] then (InvalidParameter, s)
      else if s.owner[n] == NOBODY then (InvalidDeviceState, s)
      else if s.owner[n] != file then (DeviceBusy, s)
      else (Success, s.(owner := s.owner[n := NOBODY]))
  }

  /** `claim_interface_ex`. */
  function ClaimEx(s: Driver, file: File, q: Request): (Status, Driver)
    requires Sized(s)
  {
    if s.value == 0 || s.descriptor == None then (InvalidDeviceState, s)
    else match Meant(s, AnySetting(q))
      case None => (NoMoreEntries, s)
      case Some(x) => Claim(s, file, x.number as int)
  }

  /** `release_interface_ex`. */
  function ReleaseEx(s: Driver, file: File, q: Request): (Status, Driver)
    requires Sized(s)
  {
    if s.value == 0 || s.descriptor == None then (InvalidDeviceState, s)
    else match Meant(s, AnySetting(q))
      case None => (NoMoreEntries, s)
      case Some(x) => Release(s, file, x.number as int)
  }

  function Freed(owner: seq<File>, file: File): seq<File> {
    seq(|owner|, n requires 0 <= n < |owner| => if owner[n] == file then NOBODY else owner[n])
  }

  /** `release_all_interfaces`, on close. */
  function ReleaseAll(s: Driver, file: File): Driver {
    s.(owner := Freed(s.owner, file))
  }

  // ----- when the calls succeed -----

  /** The table entry can be claimed and released. */
  predicate Holdable(s: Driver, number: int)
    requires Sized(s)
  {
    s.value != 0 && 0 <= number < MAX_INTERFACES && s.valid[number]
  }

  /** A claim succeeds exactly on a valid interface that is free or the file's own, which then is the file's; a busy device
      is one where another file owns it. */
  lemma ClaimIsExact(s: Driver, file: File, number: int)
    requires Sized(s) && file != NOBODY
    ensures var (status, t) := Claim(s, file, number);
            && (status == Success <==> Holdable(s, number) && s.owner[number] in {NOBODY, file})
            && (status == DeviceBusy <==> Holdable(s, number) && s.owner[number] !in {NOBODY, file})
            && (status == InvalidDeviceState <==> s.value == 0)
            && (status == InvalidParameter <==> s.value != 0 && number >= 0 && !Holdable(s, number))
            && t == (if status == Success then s.(owner := s.owner[number := file]) else s)
  {
    if Holdable(s, number) && s.owner[number] == file {
      assert s.owner[number := file] == s.owner;
    }
  }

  /** A release succeeds exactly on the file's own interface, which then is free. */
  lemma ReleaseIsExact(s: Driver, file: File, number: int)
    requires Sized(s) && file != NOBODY
    ensures var (status, t) := Release(s, file, number);
            && (status == Success <==> Holdable(s, number) && s.owner[number] == file)
            && (status == DeviceBusy <==> Holdable(s, number) && s.owner[number] !in {NOBODY, file})
            && (status == InvalidDeviceState <==> s.value == 0 || (Holdable(s, number) && s.owner[number] == NOBODY))
            && (status == InvalidParameter <==> s.value != 0 && number >= 0 && !Holdable(s, number))
            && t == (if status == Success then s.(owner := s.owner[number := NOBODY]) else s)
  {}

  /** What one file has released any file can claim, and only what was its own is free then. */
  lemma ReleaseThenClaim(s: Driver, f: File, g: File, number: int)
    requires Sized(s) && f != NOBODY && g != NOBODY && Release(s, f, number).0 == Success
    ensures var t := Release(s, f, number).1;
            && Sized(t) && Claim(t, g, number).0 == Success && Claim(t, g, number).1.owner[number] == g
            && Release(t, f, number).0 == InvalidDeviceState
  {
    ReleaseIsExact(s, f, number);
    var t := Release(s, f, number).1;
    ClaimIsExact(t, g, number);
    ReleaseIsExact(t, f, number);
    hide Claim, Release;
  }

  /** The configuration has a descriptor with both numbers. */
  lemma SettingIsThere(c: seq<byte>, number: int, alternate: int)
    ensures HasSetting(c, number, alternate) <==>
              exists i :: 0 <= i < |InterfacesOf(c)| && InterfacesOf(c)[i].number as int == number % 256
                            && InterfacesOf(c)[i].alternate as int == alternate % 256
  {
    FirstIs(InterfacesOf(c), (number % 256) as byte, (alternate % 256) as byte);
    hide Interfaces, First;
  }

  /** `set_interface` succeeds exactly for a setting of the active configuration that the bus accepts; then the interface
      is valid, if it has an entry in the table, and nothing else has changed. */
  lemma SetInterfaceIsExact(s: Driver, number: int, alternate: int, bus: BusResult)
    requires Sized(s)
    ensures var (status, t) := SetInterface(s, number, alternate, bus);
            var xs := if s.descriptor == None then [] else InterfacesOf(s.descriptor.value);
            var there := exists i :: 0 <= i < |xs| && xs[i].number as int == number % 256
                                     && xs[i].alternate as int == alternate % 256;
            && (status == Success <==> s.value != 0 && there && bus == BusOk)
            && (status == InvalidDeviceState <==> s.value == 0 || s.descriptor == None)
            && (status == NoMoreEntries <==> s.value != 0 && s.descriptor.Some? && !there)
            && (status == Unsuccessful <==> s.value != 0 && there && bus != BusOk)
            && t == (if status == Success && number % 256 < MAX_INTERFACES then s.(valid := s.valid[number % 256 := true])
                     else s)
  {
    if s.descriptor.Some? {
      SettingIsThere(s.descriptor.value, number, alternate);
    }
    hide HasSetting, Interfaces;
  }

  /** A reset forgets the configuration and keeps the table; its status is the bus's, or says that no type was given. */
  lemma ResetIsExact(s: Driver, anyType: bool, bus: BusResult)
    ensures var (status, t) := Reset(s, anyType, bus);
            && t.value == 0 && t.descriptor == None && t.totalSize == 0 && t.index == -1
            && t.device == s.device && t.valid == s.valid && t.owner == s.owner
            && (status == InvalidParameter <==> !anyType)
            && (status == Success <==> anyType && bus == BusOk)
            && (status == Timeout <==> anyType && bus.UrbError?) && (status == Unsuccessful <==> anyType && bus == BusError)
  {}

  // ----- which interface a request means -----

  /** By number: the interface with that number, whatever its alternate setting. */
  lemma MeantByNumber(s: Driver, q: Request)
    requires s.descriptor.Some? && !q.byInterfaceIndex && q.interfaceIndex != ANY
    ensures Meant(s, AnySetting(q)).Some? <==>
              0 <= q.interfaceNumber < 256 && HasNumber(s.descriptor.value, q.interfaceNumber)
    ensures Meant(s, AnySetting(q)).Some? ==> Meant(s, AnySetting(q)).value.number as int == q.interfaceNumber
  {
    var xs := InterfacesOf(s.descriptor.value);
    var r := FirstMatch(AnySetting(q), xs, 0);
    assert forall i :: 0 <= i < |xs| ==> (MatchesAt(AnySetting(q), xs, i) <==> xs[i].number as int == q.interfaceNumber);
    hide Interfaces, MatchesAt, FirstMatch;
  }

  /** By index: the interface whose number is the one in that place, in order of first appearance. */
  lemma MeantByIndex(s: Driver, q: Request)
    requires s.descriptor.Some? && q.byInterfaceIndex && q.interfaceIndex != ANY
    ensures var ns := Numbers(InterfacesOf(s.descriptor.value));
            && (Meant(s, AnySetting(q)).Some? <==> 0 <= q.interfaceIndex < |ns|)
            && (Meant(s, AnySetting(q)).Some? ==> Meant(s, AnySetting(q)).value.number == ns[q.interfaceIndex])
  {
    var xs := InterfacesOf(s.descriptor.value);
    var ns, r := Numbers(xs), FirstMatch(AnySetting(q), xs, 0);
    assert forall i :: 0 <= i < |xs| ==> (MatchesAt(AnySetting(q), xs, i) <==> InterfaceIndex(xs, i) == q.interfaceIndex);
    hide Interfaces, MatchesAt, FirstMatch, InterfaceIndex, Numbers, IndexOf;
    if r.Some? {
      InterfaceIndexIs(xs, r.value);
    } else if 0 <= q.interfaceIndex < |ns| {
      var i := Bearer(xs, q.interfaceIndex);
      InterfaceIndexIs(xs, i);
      NumbersDiffer(xs);
    }
  }

  /** Some interface bears every number. */
  lemma {:induction false} Bearer(xs: seq<Interface>, k: nat) returns (i: nat)
    requires k < |Numbers(xs)|
    ensures i < |xs| && xs[i].number == Numbers(xs)[k]
    decreases |xs|
  {
    var n := |xs| - 1;
    if k < |Numbers(xs[..n])| {
      i := Bearer(xs[..n], k);
    } else {
      i := n;
    }
  }

  /** Without a number or index any interface will do, and the first is taken. */
  lemma MeantByNothing(s: Driver, q: Request)
    requires s.descriptor.Some? && q.interfaceIndex == ANY && InterfacesOf(s.descriptor.value) != []
    ensures Meant(s, AnySetting(q)) == Some(InterfacesOf(s.descriptor.value)[0])
  {
    var xs := InterfacesOf(s.descriptor.value);
    assert MatchesAt(AnySetting(q), xs, 0);
    hide Interfaces, MatchesAt;
  }

  /** So a request by number claims and releases what the calls by number do. */
  lemma ByRequestIsByNumber(s: Driver, file: File, q: Request)
    requires Sized(s) && s.value != 0 && s.descriptor.Some? && !q.byInterfaceIndex && q.interfaceIndex != ANY
    requires 0 <= q.interfaceNumber < 256 && HasNumber(s.descriptor.value, q.interfaceNumber)
    ensures ClaimEx(s, file, q) == Claim(s, file, q.interfaceNumber)
    ensures ReleaseEx(s, file, q) == Release(s, file, q.interfaceNumber)
  {
    MeantByNumber(s, q);
    hide Meant, HasNumber, Claim, Release;
  }

  lemma MeantByBoth(s: Driver, q: Request)
    requires s.descriptor.Some? && !q.byInterfaceIndex && !q.byAltsettingIndex
    requires q.interfaceIndex != ANY && q.altsettingIndex != ANY
    ensures var xs := InterfacesOf(s.descriptor.value);
            Meant(s, q).Some? <==> exists i :: 0 <= i < |xs| && xs[i].number as int == q.interfaceNumber
                                                 && xs[i].alternate as int == q.altsettingNumber
    ensures Meant(s, q).Some? ==> Meant(s, q).value.number as int == q.interfaceNumber
                                  && Meant(s, q).value.alternate as int == q.altsettingNumber
  {
    var xs := InterfacesOf(s.descriptor.value);
    var r := FirstMatch(q, xs, 0);
    assert forall i :: 0 <= i < |xs| ==>
             (MatchesAt(q, xs, i) <==>
                xs[i].number as int == q.interfaceNumber && xs[i].alternate as int == q.altsettingNumber);
    hide Interfaces, MatchesAt, FirstMatch;
  }

  /** And a request by both numbers sets what `set_interface` does. */
  lemma SetByRequestIsByNumber(s: Driver, q: Request, bus: BusResult)
    requires s.value != 0 && s.descriptor.Some? && !q.byInterfaceIndex && !q.byAltsettingIndex
    requires q.interfaceIndex != ANY && q.altsettingIndex != ANY
    requires 0 <= q.interfaceNumber < 256 && 0 <= q.altsettingNumber < 256
    ensures SetInterfaceEx(s, q, bus) == SetInterface(s, q.interfaceNumber, q.altsettingNumber, bus)
  {
    MeantByBoth(s, q);
    SettingIsThere(s.descriptor.value, q.interfaceNumber, q.altsettingNumber);
    hide Interfaces, HasSetting, Meant;
  }

  // ----- the numbers that reach a claim -----

  /** An interface number comes as an unsigned int and is passed on as an int. */
  function AsInt(number: nat): int
    requires number < 0x1_0000_0000
  {
    if number < 0x8000_0000 then number else number - 0x1_0000_0000
  }

  /** Exactly when claims and releases stay inside the interface table: on a device that is not configured, or with a
      number that is not negative. Inside, a call comes to one of the documented outcomes. */
  lemma TableIsKeptTo(s: Driver, file: File, number: int)
    requires Sized(s)
    ensures InTable(s, number) <==> s.value == 0 || number >= 0
    ensures Claim(s, file, number).0 == Fault <==> !InTable(s, number)
    ensures Release(s, file, number).0 == Fault <==> !InTable(s, number)
  {}

  /** The largest number passes the test against 32 as -1 and addresses the memory before the table. */
  lemma LargeNumberFaults(s: Driver, file: File)
    requires Sized(s) && s.value != 0
    ensures Slot(s, AsInt(0xFFFF_FFFF)) == Some(-1)
    ensures Claim(s, file, AsInt(0xFFFF_FFFF)).0 == Fault && Release(s, file, AsInt(0xFFFF_FFFF)).0 == Fault
  {}

  /** A claim or release of an unsigned number stays in the table of a configured device exactly if the number is below
      2 to the 31st. */
  lemma UnsignedNumbersInTable(s: Driver, number: nat)
    requires number < 0x1_0000_0000 && s.value != 0
    ensures InTable(s, AsInt(number)) <==> number < 0x8000_0000
  {}

  // ----- what the calls keep -----

  /** The tables change as said, and nothing else does. */
  lemma TablesKeepGood(h: Hardware, s: Driver, t: Driver)
    requires Good(h, s) && t == s.(valid := t.valid, owner := t.owner) && OwnersGood(t)
    requires s.value != 0 ==> Tabled(s.descriptor.value, t.valid)
    ensures Good(h, t)
  {
    hide Tabled, ProperHardware;
  }

  lemma ClaimKeepsGood(h: Hardware, s: Driver, file: File, number: int)
    requires Good(h, s) && file != NOBODY
    ensures Good(h, Claim(s, file, number).1) && Good(h, Release(s, file, number).1)
    ensures Good(h, ReleaseAll(s, file))
  {
    hide Tabled, ProperHardware, CacheGood;
    TablesKeepGood(h, s, Claim(s, file, number).1);
    TablesKeepGood(h, s, Release(s, file, number).1);
    TablesKeepGood(h, s, ReleaseAll(s, file));
  }

  lemma MoreTabled(c: seq<byte>, valid: seq<bool>, n: nat)
    requires Tabled(c, valid) && n < MAX_INTERFACES && HasNumber(c, n)
    ensures Tabled(c, valid[n := true])
  {
    hide SelectedOf, HasNumber;
  }

  lemma SettingHasNumber(c: seq<byte>, number: int, alternate: int)
    requires HasSetting(c, number, alternate)
    ensures HasNumber(c, number % 256)
  {
    FirstIs(InterfacesOf(c), (number % 256) as byte, (alternate % 256) as byte);
  }

  lemma SetInterfaceKeepsGood(h: Hardware, s: Driver, number: int, alternate: int, bus: BusResult)
    requires Good(h, s)
    ensures Good(h, SetInterface(s, number, alternate, bus).1)
  {
    hide Tabled, ProperHardware, CacheGood, HasSetting;
    var (status, t) := SetInterface(s, number, alternate, bus);
    if status == Success && number % 256 < MAX_INTERFACES {
      SettingHasNumber(s.descriptor.value, number, alternate);
      MoreTabled(s.descriptor.value, s.valid, number % 256);
      TablesKeepGood(h, s, t);
    }
  }

  lemma ResetKeepsGood(h: Hardware, s: Driver, anyType: bool, bus: BusResult)
    requires Good(h, s)
    ensures Good(h, Reset(s, anyType, bus).1)
  {
    hide Tabled, ProperHardware;
  }

  /** While the bus works `set_interface_ex` succeeds exactly for a setting that the active configuration has. */
  lemma MeantIsSet(s: Driver, q: Request)
    ensures SetInterfaceEx(s, q, BusOk).0 == Success <==> s.value != 0 && Meant(s, q).Some?
  {
    hide HasSetting, Meant;
    if Meant(s, q).Some? {
      MeantIsThere(s, q);
    }
  }
}
