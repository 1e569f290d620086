/** The interfaces that `set_configuration` selects (libusb/src/driver/set_configuration.c). */
module InterfaceSelection {
  import opened Bytes
  import opened DeviceModel
  import opened InterfaceLookup

  /** The interface numbers from `from` to 31 that have an alternate setting 0, in ascending order. */
  function Selectable(xs: seq<Interface>, from: nat): seq<nat>
    decreases MAX_INTERFACES - from, |xs|  // with xs in the metric a literal `from` is not unfolded all the way
  {
    if from >= MAX_INTERFACES then []
    else (if First(xs, from as byte, 0).Some? then [from] else []) + Selectable(xs, from + 1)
  }

  /** The first `n` of the numbers, the missing ones being number 31 again. */
  function Pick(numbers: seq<nat>, n: nat): seq<nat> {
    if n <= |numbers| then numbers[..n] else numbers + seq(n - |numbers|, _ => MAX_INTERFACES - 1)
  }

  predicate EndsWith31(numbers: seq<nat>) {
    numbers != [] && numbers[|numbers| - 1] == MAX_INTERFACES - 1
  }

  /** What `set_configuration` selects for `n` interfaces: the lowest `n` numbers. When there are fewer it gives up,
      except that number 31, once found, is selected again for every missing one. */
  function Selected(numbers: seq<nat>, n: nat): Option<seq<nat>> {
    if n <= |numbers| || EndsWith31(numbers) then Some(Pick(numbers, n)) else None
  }

  /** What `find_interface_desc` can find in the first `size` bytes: nothing if they are fewer than announced. */
  function InterfacesIn(c: seq<byte>, size: nat): seq<Interface> {
    if size < TotalLength(c) then [] else Interfaces(c, 0, size)
  }

  function SelectedIn(c: seq<byte>, size: nat): Option<seq<nat>> {
    Selected(Selectable(InterfacesIn(c, size), 0), At(c, 4) as int)
  }

  /** What is selected for a whole configuration descriptor. */
  function SelectedOf(c: seq<byte>): Option<seq<nat>> {
    Selected(Selectable(InterfacesOf(c), 0), At(c, 4) as int)
  }

  lemma SelectedInWhole(c: seq<byte>)
    requires ProperConfiguration(c)
    ensures SelectedIn(c, |c|) == SelectedOf(c)
  {
    hide Interfaces, Selectable, Walkable;
  }

  predicate HasNumber(c: seq<byte>, n: nat) {
    exists i :: 0 <= i < |InterfacesOf(c)| && InterfacesOf(c)[i].number as int == n
  }

  predicate HasSettingZero(c: seq<byte>, n: nat) {
    n < MAX_INTERFACES && First(InterfacesOf(c), n as byte, 0).Some?
  }

  /** The configuration has the alternate setting; the arguments are truncated to bytes. */
  predicate HasSetting(c: seq<byte>, number: int, alternate: int) {
    First(InterfacesOf(c), (number % 256) as byte, (alternate % 256) as byte).Some?
  }

  lemma InterfaceHasSetting(c: seq<byte>, i: nat)
    requires i < |InterfacesOf(c)|
    ensures HasSetting(c, InterfacesOf(c)[i].number as int, InterfacesOf(c)[i].alternate as int)
  {
    FirstIs(InterfacesOf(c), InterfacesOf(c)[i].number, InterfacesOf(c)[i].alternate);
  }

  /** A configuration that announces as many interfaces as it has numbers below 32, each with a setting 0. */
  predicate RegularConfiguration(c: seq<byte>) {
    && |Selectable(InterfacesOf(c), 0)| == At(c, 4) as int
    && forall n :: 0 <= n < MAX_INTERFACES && HasNumber(c, n) ==> HasSettingZero(c, n)
  }

  lemma {:induction false} SelectableAre(xs: seq<Interface>, from: nat)
    ensures forall k :: 0 <= k < |Selectable(xs, from)| ==> from <= Selectable(xs, from)[k] < MAX_INTERFACES
    ensures forall n :: from <= n < MAX_INTERFACES ==>
              (n in Selectable(xs, from) <==> First(xs, n as byte, 0).Some?)
    ensures forall j, k :: 0 <= j < k < |Selectable(xs, from)| ==> Selectable(xs, from)[j] < Selectable(xs, from)[k]
    decreases MAX_INTERFACES - from
  {
    if from < MAX_INTERFACES {
      SelectableAre(xs, from + 1);
    }
  }

  lemma SelectedHaveSettingZero(c: seq<byte>)
    requires SelectedOf(c).Some?
    ensures forall k :: 0 <= k < |SelectedOf(c).value| ==> HasSettingZero(c, SelectedOf(c).value[k])
    ensures RegularConfiguration(c) ==> forall n :: HasSettingZero(c, n) ==> n in SelectedOf(c).value
  {
    var numbers := Selectable(InterfacesOf(c), 0);
    SelectableAre(InterfacesOf(c), 0);
    hide Interfaces, First, Selectable;
    forall k | 0 <= k < |SelectedOf(c).value| ensures HasSettingZero(c, SelectedOf(c).value[k]) {
      assert SelectedOf(c).value[k] in numbers;
    }
    if RegularConfiguration(c) {
      assert SelectedOf(c).value == numbers;
      forall n | HasSettingZero(c, n) ensures n in SelectedOf(c).value {}
    }
  }

  /** A configuration has a setting 0 of interface n. */
  predicate ZeroOf(c: seq<byte>, n: nat) {
    exists i :: 0 <= i < |InterfacesOf(c)| && InterfacesOf(c)[i].number as int == n && InterfacesOf(c)[i].alternate == 0
  }

  lemma ZeroIs(c: seq<byte>, n: nat)
    ensures HasSettingZero(c, n) <==> n < MAX_INTERFACES && ZeroOf(c, n)
  {
    if n < MAX_INTERFACES {
      FirstIs(InterfacesOf(c), n as byte, 0);
    }
    hide Interfaces, First;
  }

  lemma SelectableZero(c: seq<byte>, n: nat)
    requires n < 32
    ensures n in Selectable(InterfacesOf(c), 0) <==> ZeroOf(c, n)
  {
    SelectableAre(InterfacesOf(c), 0);
    ZeroIs(c, n);
    hide Interfaces, First, Selectable, ZeroOf;
  }

  lemma {:induction false} AscendingCounts(s: seq<nat>, t: set<nat>)
    requires forall i, j :: 0 <= i < j < |s| ==> s[i] < s[j]
    requires forall n :: n in t <==> n in s
    ensures |t| == |s|
    decreases |s|
  {
    if s == [] {
      assert t == {};
    } else {
      var last := s[|s| - 1];
      var shorter := s[..|s| - 1];
      forall n ensures n in t - {last} <==> n in shorter {
        if n in t - {last} {
          var i :| 0 <= i < |s| && s[i] == n;
          assert shorter[i] == n;
        }
      }
      AscendingCounts(shorter, t - {last});
    }
  }

  /** Picking from numbers in ascending order. */
  ghost predicate PickedLowest(zeros: set<nat>, numbers: seq<nat>, n: nat) {
    && |numbers| == n
    && (forall k :: 0 <= k < |numbers| ==> numbers[k] in zeros)
    && (forall j, k :: 0 <= j < k < |numbers| ==> numbers[j] < numbers[k] || numbers[j] == numbers[k] == 31)
    && (forall m, k :: m in zeros && 0 <= k < |numbers| && m < numbers[k] ==> m in numbers)
  }

  lemma SelectedLowest(all: seq<nat>, zeros: set<nat>, n: nat)
    requires forall i, j :: 0 <= i < j < |all| ==> all[i] < all[j]
    requires forall k :: 0 <= k < |all| ==> all[k] < 32
    requires forall m :: m in zeros <==> m in all
    ensures Selected(all, n) == None <==> |zeros| < n && 31 !in zeros
    ensures Selected(all, n).Some? ==> PickedLowest(zeros, Selected(all, n).value, n)
  {
    AscendingCounts(all, zeros);
    if 31 in all {
      var k :| 0 <= k < |all| && all[k] == 31;
      assert all[k] <= all[|all| - 1];
    }
    var numbers := Pick(all, n);
    forall m, k | m in zeros && 0 <= k < |numbers| && m < numbers[k] ensures m in numbers {
      var i :| 0 <= i < |all| && all[i] == m;
      if n <= |all| {
        assert numbers[k] == all[k];
        assert numbers[i] == m;
      } else {
        assert numbers[i] == m;
      }
    }
  }

  /** What is selected: as many interfaces as the configuration announces, the lowest numbers below 32 that have a setting
      0, in ascending order, where only number 31 is repeated; and nothing exactly if there are fewer and 31 is not one. */
  lemma SelectionIs(c: seq<byte>)
    ensures var zeros := set n: nat | n < 32 && ZeroOf(c, n);
            && (SelectedOf(c) == None <==> |zeros| < At(c, 4) as int && 31 !in zeros)
            && (SelectedOf(c).Some? ==> PickedLowest(zeros, SelectedOf(c).value, At(c, 4) as nat))
  {
    var zeros := set n: nat | n < 32 && ZeroOf(c, n);
    var all := Selectable(InterfacesOf(c), 0);
    SelectableAre(InterfacesOf(c), 0);
    hide Interfaces, First, Selectable, ZeroOf, Selected, PickedLowest;
    forall m: nat ensures m in zeros <==> m in all {
      if m < 32 {
        SelectableZero(c, m);
      }
    }
    SelectedLowest(all, zeros, At(c, 4) as nat);
  }

  lemma SettingZeroHasNumber(c: seq<byte>, n: nat)
    requires HasSettingZero(c, n)
    ensures HasNumber(c, n)
  {
    FirstIs(InterfacesOf(c), n as byte, 0);
  }

  predicate CanBeWalked(c: seq<byte>, size: nat) {
    size < TotalLength(c) || Walkable(c, 0, size)
  }

  /** The inner loop: the next number from `from` on. A search that does not start keeps the descriptor found last. */
  method SearchFrom(c: seq<byte>, size: nat, from: nat, last: Option<Interface>)
    returns (descriptor: Option<Interface>, next: nat)
    requires CanBeWalked(c, size) && from <= MAX_INTERFACES
    ensures Searched(InterfacesIn(c, size), from, last, descriptor, next)
  {
    ghost var xs := InterfacesIn(c, size);
    hide First, InterfacesIn, Selectable, CanBeWalked, SettingZeroIn;
    descriptor, next := last, from;
    var j := from;
    SelectableNext(xs, j);
    while j < MAX_INTERFACES
      invariant from <= j <= MAX_INTERFACES
      invariant j == from ==> descriptor == last
      invariant j > from ==> descriptor == None
      invariant Selectable(xs, from) == Selectable(xs, j)
      invariant j == MAX_INTERFACES ==> Selectable(xs, j) == []
    {
      SelectableNext(xs, j);
      descriptor := FindSettingZero(c, size, j);
      if descriptor.Some? {
        next := j + 1;
        return;
      }
      j := j + 1;
      SelectableNext(xs, j);
    }
  }

  /** How a search for the next number ends. */
  predicate Searched(xs: seq<Interface>, from: nat, last: Option<Interface>, descriptor: Option<Interface>, next: nat) {
    if from >= MAX_INTERFACES then descriptor == last && next == from && Selectable(xs, from) == []
    else if Selectable(xs, from) == [] then descriptor == None
    else
      && descriptor.Some? && next == descriptor.value.number as int + 1 <= MAX_INTERFACES
      && Selectable(xs, from) == [next - 1] + Selectable(xs, next)
  }

  predicate SettingZeroIn(xs: seq<Interface>, n: nat) {
    n < MAX_INTERFACES && First(xs, n as byte, 0).Some?
  }

  method FindSettingZero(c: seq<byte>, size: nat, n: nat) returns (d: Option<Interface>)
    requires CanBeWalked(c, size) && n < MAX_INTERFACES
    ensures d.Some? <==> SettingZeroIn(InterfacesIn(c, size), n)
    ensures d.Some? ==> d.value.number as int == n
  {
    hide Walkable, Interfaces, TotalLength;
    FirstIs(InterfacesIn(c, size), n as byte, 0);
    d := FindInterfaceDesc(c, size, n, 0);
  }

  lemma SelectableNext(xs: seq<Interface>, from: nat)
    ensures Selectable(xs, from) ==
            if from >= MAX_INTERFACES then []
            else if SettingZeroIn(xs, from) then [from] + Selectable(xs, from + 1) else Selectable(xs, from + 1)
  {
    hide First;
  }

  /** The state of the outer loop after `i` turns: `from` is where the next search starts, `last` the number found
      last (-1 for none). */
  ghost predicate Choosing(xs: seq<Interface>, i: nat, from: nat, last: int, chosen: seq<nat>) {
    var all := Selectable(xs, 0);
    && from <= MAX_INTERFACES && chosen == Pick(all, i) && last == from - 1
    && (i == 0 ==> from == 0)
    && (if i <= |all| then Selectable(xs, from) == all[i..] && (i > 0 ==> last == all[i - 1])
        else from == MAX_INTERFACES && EndsWith31(all))
  }

  lemma PickNext(all: seq<nat>, i: nat)
    ensures Pick(all, i + 1) == Pick(all, i) + [if i < |all| then all[i] else MAX_INTERFACES - 1]
  {}

  /** The descriptor found last is that of the number before `from`. */
  predicate Latest(descriptor: Option<Interface>, from: nat) {
    (descriptor == None <==> from == 0) && (descriptor.Some? ==> descriptor.value.number as int == from - 1)
  }

  lemma ChoosingNext(xs: seq<Interface>, i: nat, from: nat, chosen: seq<nat>,
                     last: Option<Interface>, found: Option<Interface>, next: nat)
    requires Choosing(xs, i, from, from - 1, chosen) && Latest(last, from)
    requires Searched(xs, from, last, found, next) && found.Some?
    ensures Latest(found, next) && Choosing(xs, i + 1, next, next - 1, chosen + [found.value.number as int])
  {
    hide First, Selectable, Pick;
    var all := Selectable(xs, 0);
    PickNext(all, i);
    if from < MAX_INTERFACES {
      assert all[i..] == [next - 1] + Selectable(xs, next);
      assert all[i] == next - 1 && all[i + 1..] == all[i..][1..];
    }
  }

  lemma ChoosingStuck(xs: seq<Interface>, i: nat, from: nat, chosen: seq<nat>, last: Option<Interface>, next: nat, n: nat)
    requires i < n && Choosing(xs, i, from, from - 1, chosen) && Latest(last, from)
    requires Searched(xs, from, last, None, next)
    ensures Selected(Selectable(xs, 0), n) == None
  {
    hide First, Selectable;
  }

  /** The loops of `set_configuration` that choose the interfaces. */
  method SelectInterfaces(c: seq<byte>, size: nat) returns (r: Option<seq<nat>>)
    requires CanBeWalked(c, size)
    ensures r == SelectedIn(c, size)
  {
    hide *;
    ghost var xs := InterfacesIn(c, size);
    var interfaceNumber: nat, descriptor: Option<Interface>, interfaces: seq<nat> := 0, None, [];
    var n: nat := At(c, 4) as int;
    ChoosingStarts(xs);
    SelectedInIs(c, size);
    for i := 0 to n
      invariant Choosing(xs, i, interfaceNumber, interfaceNumber - 1, interfaces) && Latest(descriptor, interfaceNumber)
    {
      ChoosingBelow(xs, i, interfaceNumber, interfaces);
      var found, next := SearchFrom(c, size, interfaceNumber, descriptor);
      if found == None {
        ChoosingStuck(xs, i, interfaceNumber, interfaces, descriptor, next, n);
        return None;
      }
      ChoosingNext(xs, i, interfaceNumber, interfaces, descriptor, found, next);
      descriptor, interfaceNumber := found, next;
      interfaces := interfaces + [found.value.number as int];
    }
    ChoosingEnds(xs, n, interfaceNumber, interfaces);
    return Some(interfaces);
  }

  lemma ChoosingBelow(xs: seq<Interface>, i: nat, from: nat, chosen: seq<nat>)
    requires Choosing(xs, i, from, from - 1, chosen)
    ensures from <= MAX_INTERFACES
  {}

  lemma ChoosingStarts(xs: seq<Interface>)
    ensures Choosing(xs, 0, 0, -1, []) && Latest(None, 0)
  {}

  lemma SelectedInIs(c: seq<byte>, size: nat)
    ensures SelectedIn(c, size) == Selected(Selectable(InterfacesIn(c, size), 0), At(c, 4) as int)
  {}

  lemma ChoosingEnds(xs: seq<Interface>, n: nat, from: nat, chosen: seq<nat>)
    requires Choosing(xs, n, from, from - 1, chosen)
    ensures Selected(Selectable(xs, 0), n) == Some(chosen)
  {}

  /** The interface table that goes with a configuration. */
  ghost predicate Tabled(c: seq<byte>, valid: seq<bool>) {
    && |valid| == MAX_INTERFACES && SelectedOf(c).Some?
    && (forall n: nat :: n in SelectedOf(c).value ==> n < MAX_INTERFACES && valid[n])
    && (forall n: nat :: n < MAX_INTERFACES && valid[n] ==> HasNumber(c, n))
  }

  lemma SelectionTabled(c: seq<byte>, valid: seq<bool>)
    requires ProperConfiguration(c) && |valid| == MAX_INTERFACES && SelectedOf(c).Some?
    requires forall n :: 0 <= n < MAX_INTERFACES ==> valid[n] == (n in SelectedOf(c).value)
    ensures Tabled(c, valid)
  {
    SelectedHaveSettingZero(c);
    forall n: nat | n < MAX_INTERFACES && valid[n] ensures HasNumber(c, n) {
      SettingZeroHasNumber(c, n);
    }
  }

  /** For a regular configuration the valid interfaces are exactly its numbers with an alternate setting 0, whatever
      interfaces were set meanwhile. */
  lemma TableIsExact(c: seq<byte>, valid: seq<bool>)
    requires |valid| == MAX_INTERFACES && Tabled(c, valid) && RegularConfiguration(c)
    ensures forall n :: 0 <= n < MAX_INTERFACES ==> (valid[n] <==> HasSettingZero(c, n))
  {
    SelectedHaveSettingZero(c);
  }
}
