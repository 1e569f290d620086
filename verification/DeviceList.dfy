/** The doubly linked list of a bus's devices, its reconciliation with the devices that are there now
    (`usb_find_devices`, libusb/src/usb.c, with the macros of usbi.h) and the array of children made from it
    (libusb/src/windows.c). */
module DeviceList {
  import opened Bytes

  const MAX_DEVICES := 256

  /** A device's file name is printed from its number, vendor and product, and determines them. */
  datatype Name = Name(number: nat, vendor: nat, product: nat)

  class Node {
    const name: Name
    var hasConfig: bool
    var next: Node?
    var prev: Node?

    constructor (name: Name)
      ensures this.name == name && !hasConfig && next == null && prev == null
    {
      this.name, hasConfig, next, prev := name, false, null, null;
    }
  }

  predicate Distinct(s: seq<Node>) {
    forall i, j :: 0 <= i < j < |s| ==> s[i] != s[j]
  }

  function Reverse(s: seq<Node>): (r: seq<Node>)
    ensures (forall n :: n in r ==> n in s) && (forall n :: n in s ==> n in r)
  {
    if s == [] then [] else Reverse(s[1..]) + [s[0]]
  }

  function Without(s: seq<Node>, k: nat): seq<Node>
    requires k < |s|
  {
    s[..k] + s[k + 1..]
  }

  ghost predicate Linked(s: seq<Node>, k: nat)
    requires k < |s|
    reads s[k]
  {
    && s[k].prev == (if k == 0 then null else s[k - 1])
    && s[k].next == (if k + 1 == |s| then null else s[k + 1])
  }

  class List {
    var begin: Node?
    ghost var nodes: seq<Node>

    ghost predicate Valid()
      reads this, nodes
    {
      && Distinct(nodes)
      && begin == (if nodes == [] then null else nodes[0])
      && forall k :: 0 <= k < |nodes| ==> Linked(nodes, k)
    }

    ghost function Nodes(): set<Node>
      reads this
    {
      set n | n in nodes
    }

    constructor ()
      ensures Valid() && nodes == []
    {
      begin, nodes := null, [];
    }

    /** `LIST_ADD`. */
    method Add(ent: Node)
      requires Valid() && ent !in nodes
      modifies this, Nodes()`prev, ent`prev, ent`next
      ensures Valid() && nodes == [ent] + old(nodes) && Nodes() == {ent} + old(Nodes())
    {
      ghost var s := nodes;
      assert s != [] ==> Linked(s, 0) && s[0] in s;
      if begin != null {
        ent.next := begin;
        ent.next.prev := ent;
      } else {
        ent.next := null;
      }
      ent.prev := null;
      begin := ent;
      nodes := [ent] + nodes;
      assert forall k :: 0 < k < |nodes| ==> nodes[k] == s[k - 1] && nodes[k] != ent;
      forall k | 0 <= k < |nodes| ensures Linked(nodes, k) {
        assert k > 0 ==> old(Linked(s, k - 1));
      }
    }

    /** `LIST_DEL`. */
    method Delete(ent: Node, ghost k: nat)
      requires Valid() && k < |nodes| && nodes[k] == ent
      modifies this, Nodes()`prev, Nodes()`next
      ensures Valid() && nodes == Without(old(nodes), k)
      ensures ent.prev == null && ent.next == null
    {
      ghost var s := nodes;
      assert Linked(s, k);
      assert k > 0 ==> s[k - 1] in s;
      assert k + 1 < |s| ==> s[k + 1] in s;
      if ent.prev != null {
        ent.prev.next := ent.next;
      } else {
        begin := ent.next;
      }
      if ent.next != null {
        ent.next.prev := ent.prev;
      }
      ent.prev := null;
      ent.next := null;
      nodes := Without(nodes, k);
      forall i | 0 <= i < |nodes| ensures Linked(nodes, i) {
        ghost var j := if i < k then i else i + 1;
        assert nodes[i] == s[j] && old(Linked(s, j));
      }
    }
  }

  // ----- which devices stay, which are new -----

  /** The first device with the name, or else the length. */
  function IndexOf(name: Name, s: seq<Node>): (k: nat)
    ensures k <= |s| && (k < |s| ==> s[k].name == name)
    ensures forall i :: 0 <= i < k ==> s[i].name != name
  {
    if s == [] || s[0].name == name then 0 else 1 + IndexOf(name, s[1..])
  }

  function Strike(name: Name, s: seq<Node>): seq<Node> {
    var k := IndexOf(name, s);
    if k < |s| then Without(s, k) else s
  }

  /** Of the known devices those for which a device was found, each found device being used once. */
  function Kept(known: seq<Node>, found: seq<Node>): seq<Node> {
    if known == [] then []
    else
      var rest := Kept(known[1..], Strike(known[0].name, found));
      if IndexOf(known[0].name, found) < |found| then [known[0]] + rest else rest
  }

  /** The found devices that were used for no known one. */
  function Unmatched(known: seq<Node>, found: seq<Node>): seq<Node> {
    if known == [] then found else Unmatched(known[1..], Strike(known[0].name, found))
  }

  function Elements(s: seq<Node>): set<Node> {
    set n | n in s
  }

  /** The devices that could be opened and their configuration parsed. */
  function WithConfig(s: seq<Node>): (r: seq<Node>)
    reads Elements(s)`hasConfig
    ensures forall n :: n in r ==> n in s
  {
    if s == [] then [] else if s[0].hasConfig then [s[0]] + WithConfig(s[1..]) else WithConfig(s[1..])
  }

  lemma {:induction false} WithConfigAppend(s: seq<Node>, n: Node)
    ensures WithConfig(s + [n]) == WithConfig(s) + (if n.hasConfig then [n] else [])
  {
    if s != [] {
      WithConfigAppend(s[1..], n);
      assert (s + [n])[1..] == s[1..] + [n];
    }
  }

  lemma {:induction false} ReverseAppend(s: seq<Node>, n: Node)
    ensures Reverse(s + [n]) == [n] + Reverse(s)
  {
    if s != [] {
      ReverseAppend(s[1..], n);
      assert (s + [n])[1..] == s[1..] + [n];
    }
  }

  lemma {:induction false} KeptIn(known: seq<Node>, found: seq<Node>)
    ensures forall n :: n in Kept(known, found) ==> n in known
    ensures forall n :: n in Unmatched(known, found) ==> n in found
    decreases |known|
  {
    if known != [] {
      KeptIn(known[1..], Strike(known[0].name, found));
    }
  }

  /** Opens the device, fetches its descriptors and parses them; `parses` says for which devices all of it works. */
  method FetchAndParse(dev: Node, parses: Name -> bool)
    modifies dev`hasConfig
    ensures dev.hasConfig == parses(dev.name)
  {
    dev.hasConfig := parses(dev.name);
  }

  /** Looks a name up. */
  method FindByName(devices: List, name: Name) returns (ndev: Node?, ghost k: nat)
    requires devices.Valid()
    ensures k == IndexOf(name, devices.nodes)
    ensures ndev == if k < |devices.nodes| then devices.nodes[k] else null
  {
    ndev, k := devices.begin, 0;
    ghost var s := devices.nodes;
    while ndev != null
      invariant k <= |s| && ndev == if k < |s| then s[k] else null
      invariant IndexOf(name, s) == k + IndexOf(name, s[k..])
      decreases |s| - k
    {
      if name == ndev.name {
        break;
      }
      assert Linked(s, k);
      assert s[k..][1..] == s[k + 1..];
      ndev, k := ndev.next, k + 1;
    }
  }

  lemma WithoutIn(s: seq<Node>, k: nat)
    requires k < |s|
    ensures forall n :: n in Without(s, k) ==> n in s
  {}

  /** One turn of the first loop: a device found again is struck from the new list, otherwise the known one is dropped. */
  method StrikeOrDrop(known: List, found: List, dev: Node, ghost i: nat) returns (gone: bool)
    requires known != found && known.Valid() && found.Valid() && known.Nodes() !! found.Nodes()
    requires i < |known.nodes| && dev == known.nodes[i]
    modifies known, found, known.Nodes()`next, known.Nodes()`prev, found.Nodes()`next, found.Nodes()`prev
    ensures known.Valid() && found.Valid() && known.Nodes() !! found.Nodes()
    ensures found.nodes == Strike(dev.name, old(found.nodes))
    ensures gone == (IndexOf(dev.name, old(found.nodes)) == |old(found.nodes)|)
    ensures known.nodes == if gone then Without(old(known.nodes), i) else old(known.nodes)
    ensures known.Nodes() <= old(known.Nodes()) && found.Nodes() <= old(found.Nodes())
  {
    var ndev, k := FindByName(found, dev.name);
    if ndev != null {
      WithoutIn(found.nodes, k);
      assert forall j :: 0 <= j < |known.nodes| ==> known.nodes[j] in known.Nodes();
      found.Delete(ndev, k);
      assert forall j :: 0 <= j < |known.nodes| ==> old(Linked(known.nodes, j)) ==> Linked(known.nodes, j);
      return false;
    } else {
      WithoutIn(known.nodes, i);
      assert forall j :: 0 <= j < |found.nodes| ==> found.nodes[j] in found.Nodes();
      known.Delete(dev, i);
      assert forall j :: 0 <= j < |found.nodes| ==> old(Linked(found.nodes, j)) ==> Linked(found.nodes, j);
      return true;
    }
  }

  lemma BeginIs(l: List)
    requires l.Valid()
    ensures l.begin == if l.nodes == [] then null else l.nodes[0]
  {}

  lemma NextIs(l: List, a: seq<Node>, b: seq<Node>)
    requires l.Valid() && b != [] && l.nodes == a + b
    ensures l.nodes[|a|] == b[0] && b[0].next == if b[1..] == [] then null else b[1..][0]
  {
    assert Linked(l.nodes, |a|);
  }

  /** The first loop: strikes every known device that is found again, and drops the others. */
  method DropGone(known: List, found: List) returns (changes: nat)
    requires known != found && known.Valid() && found.Valid() && known.Nodes() !! found.Nodes()
    modifies known, found, known.Nodes()`next, known.Nodes()`prev, found.Nodes()`next, found.Nodes()`prev
    ensures known.Valid() && found.Valid()
    ensures known.nodes == Kept(old(known.nodes), old(found.nodes))
    ensures found.nodes == Unmatched(old(known.nodes), old(found.nodes))
    ensures changes == |old(known.nodes)| - |known.nodes|
    ensures known.Nodes() <= old(known.Nodes()) && found.Nodes() <= old(found.Nodes()) && known.Nodes() !! found.Nodes()
  {
    ghost var known0, found0 := known.nodes, found.nodes;
    DropStarts(known, found);
    BeginIs(known);
    hide *;
    changes := 0;
    ghost var s, kept: seq<Node> := known.nodes, [];
    var dev := known.begin;
    while dev != null
      invariant Dropping(known, found, known0, found0, kept, s)
      invariant known.Nodes() <= old(known.Nodes()) && found.Nodes() <= old(found.Nodes())
      invariant dev == if s == [] then null else s[0]
      invariant changes + |kept| + |s| == |known0|
      decreases |s|
    {
      var gone, tdev := DropStep(known, found, dev, known0, found0, kept, s);
      if gone {
        changes := changes + 1;
      } else {
        kept := kept + [dev];
      }
      s, dev := s[1..], tdev;
    }
    DropEnds(known, found, known0, found0, kept);
  }

  /** Where the first loop stands: it has kept `kept` and has `s` to go. */
  ghost predicate Dropping(known: List, found: List, known0: seq<Node>, found0: seq<Node>, kept: seq<Node>, s: seq<Node>)
    reads known, found, known.nodes, found.nodes
  {
    && known != found && known.Valid() && found.Valid() && known.Nodes() !! found.Nodes()
    && known.nodes == kept + s && Matching(known0, found0, kept, s, found.nodes)
  }

  lemma DropStarts(known: List, found: List)
    requires known != found && known.Valid() && found.Valid() && known.Nodes() !! found.Nodes()
    ensures Dropping(known, found, known.nodes, found.nodes, [], known.nodes)
  {
    MatchingStarts(known.nodes, found.nodes);
    hide Matching;
  }

  lemma DropEnds(known: List, found: List, known0: seq<Node>, found0: seq<Node>, kept: seq<Node>)
    requires Dropping(known, found, known0, found0, kept, [])
    ensures known.Valid() && found.Valid() && known.Nodes() !! found.Nodes()
    ensures known.nodes == Kept(known0, found0) == kept && found.nodes == Unmatched(known0, found0)
  {
    MatchingDone(known0, found0, kept, found.nodes);
  }

  /** One turn of the first loop. */
  method DropStep(known: List, found: List, dev: Node, ghost known0: seq<Node>, ghost found0: seq<Node>,
                  ghost kept: seq<Node>, ghost s: seq<Node>)
    returns (gone: bool, tdev: Node?)
    requires Dropping(known, found, known0, found0, kept, s) && s != [] && dev == s[0]
    modifies known, found, known.Nodes()`next, known.Nodes()`prev, found.Nodes()`next, found.Nodes()`prev
    ensures Dropping(known, found, known0, found0, if gone then kept else kept + [dev], s[1..])
    ensures known.Nodes() <= old(known.Nodes()) && found.Nodes() <= old(found.Nodes())
    ensures tdev == if s[1..] == [] then null else s[1..][0]
  {
    hide List.Valid, List.Nodes, Linked, Matching, Strike, IndexOf, Without;
    NextIs(known, kept, s);
    MatchingNext(known0, found0, kept, s, found.nodes);
    DropMiddle(kept, s);
    tdev := dev.next;
    gone := StrikeOrDrop(known, found, dev, |kept|);
  }

  /** The first loop has kept `kept` so far, has `known` to go, and `found` left to match with. */
  ghost predicate Matching(known0: seq<Node>, found0: seq<Node>, kept: seq<Node>, known: seq<Node>, found: seq<Node>) {
    Kept(known0, found0) == kept + Kept(known, found) && Unmatched(known0, found0) == Unmatched(known, found)
  }

  lemma MatchingStarts(known: seq<Node>, found: seq<Node>)
    ensures Matching(known, found, [], known, found)
  {}

  lemma MatchingNext(known0: seq<Node>, found0: seq<Node>, kept: seq<Node>, known: seq<Node>, found: seq<Node>)
    requires known != [] && Matching(known0, found0, kept, known, found)
    ensures var gone := IndexOf(known[0].name, found) == |found|;
            Matching(known0, found0, if gone then kept else kept + [known[0]], known[1..], Strike(known[0].name, found))
  {
    hide *;
    MatchingStep(known, found);
    MatchingIs(known0, found0, kept, known, found);
    var next := Strike(known[0].name, found);
    var later := Kept(known[1..], next);
    assert kept + ([known[0]] + later) == kept + [known[0]] + later;
    MatchingIs(known0, found0, kept, known[1..], next);
    MatchingIs(known0, found0, kept + [known[0]], known[1..], next);
  }

  lemma MatchingIs(known0: seq<Node>, found0: seq<Node>, kept: seq<Node>, known: seq<Node>, found: seq<Node>)
    ensures Matching(known0, found0, kept, known, found) <==>
              Kept(known0, found0) == kept + Kept(known, found) && Unmatched(known0, found0) == Unmatched(known, found)
  {
    hide Kept, Unmatched;
  }

  lemma MatchingStep(known: seq<Node>, found: seq<Node>)
    requires known != []
    ensures var later := Kept(known[1..], Strike(known[0].name, found));
            Kept(known, found) == if IndexOf(known[0].name, found) < |found| then [known[0]] + later else later
    ensures Unmatched(known, found) == Unmatched(known[1..], Strike(known[0].name, found))
  {
    hide Strike, IndexOf;
  }

  lemma MatchingDone(known0: seq<Node>, found0: seq<Node>, kept: seq<Node>, found: seq<Node>)
    requires Matching(known0, found0, kept, [], found)
    ensures Kept(known0, found0) == kept && Unmatched(known0, found0) == found
  {}

  lemma DropMiddle(a: seq<Node>, b: seq<Node>)
    requires b != []
    ensures Without(a + b, |a|) == a + b[1..]
    ensures a + b == a + [b[0]] + b[1..]
  {}

  /** One turn of the second loop: a new device goes to the front of the bus's list if it has, or gets, a
      configuration. */
  method AddOne(known: List, found: List, dev: Node, parses: Name -> bool) returns (added: bool)
    requires known != found && known.Valid() && found.Valid() && known.Nodes() !! found.Nodes()
    requires found.nodes != [] && dev == found.nodes[0]
    modifies known, found, known.Nodes()`prev, found.Nodes()`next, found.Nodes()`prev, dev`hasConfig
    ensures known.Valid() && found.Valid() && known.Nodes() !! found.Nodes()
    ensures found.nodes == old(found.nodes)[1..]
    ensures added == dev.hasConfig == (old(dev.hasConfig) || parses(dev.name))
    ensures known.nodes == (if added then [dev] else []) + old(known.nodes)
    ensures found.Nodes() <= old(found.Nodes()) && known.Nodes() <= old(known.Nodes()) + {dev}
  {
    HeadApart(found);
    hide List.Valid, Linked, Distinct, Without;
    found.Delete(dev, 0);
    StaysValid(known);
    if !dev.hasConfig {
      FetchAndParse(dev, parses);
    }
    added := dev.hasConfig;
    label BeforeAdd:
    if added {
      known.Add(dev);
      StaysValid@BeforeAdd(found);
    }
  }

  lemma HeadApart(l: List)
    requires l.Valid() && l.nodes != []
    ensures l.nodes[0] !in l.nodes[1..] && Without(l.nodes, 0) == l.nodes[1..]
  {}

  /** A list stays well formed when only nodes of other lists are rewired. */
  twostate lemma StaysValid(l: List)
    requires old(l.Valid()) && unchanged(l) && forall n :: n in l.Nodes() ==> unchanged(n`next, n`prev)
    ensures l.Valid()
  {
    forall k | 0 <= k < |l.nodes| ensures Linked(l.nodes, k) {
      assert old(Linked(l.nodes, k)) && l.nodes[k] in l.Nodes();
    }
  }

  lemma SplitApart(all: seq<Node>, a: seq<Node>, b: seq<Node>)
    requires Distinct(all) && a + b == all && b != []
    ensures b[0] !in Elements(a) && a + [b[0]] + b[1..] == all && [] + b[1..] == b[1..]
  {
    forall i | 0 <= i < |a| ensures a[i] != b[0] {
      assert all[i] == a[i] && all[|a|] == b[0];
    }
  }

  ghost predicate Collected(s: seq<Node>, ready: seq<Node>)
    reads Elements(s)`hasConfig
  {
    ready == Reverse(WithConfig(s)) && |ready| == |WithConfig(s)|
  }

  lemma CollectedNext(s: seq<Node>, ready: seq<Node>, n: Node)
    requires Collected(s, ready)
    ensures Collected(s + [n], if n.hasConfig then [n] + ready else ready)
  {
    hide WithConfig, Reverse;
    WithConfigAppend(s, n);
    ReverseAppend(WithConfig(s), n);
    assert WithConfig(s) + [] == WithConfig(s);
  }

  lemma MoveToFront(x: Node, ready: seq<Node>, base: seq<Node>)
    ensures [x] + (ready + base) == ([x] + ready) + base && [] + (ready + base) == ready + base
  {}

  /** The second loop: moves the new devices that have a configuration, in the order in which they come. */
  method AddNew(known: List, found: List, parses: Name -> bool) returns (changes: nat)
    requires known != found && known.Valid() && found.Valid() && known.Nodes() !! found.Nodes()
    requires forall n :: n in found.Nodes() ==> !n.hasConfig
    modifies known, found, known.Nodes()`prev, found.Nodes()`next, found.Nodes()`prev, found.Nodes()`hasConfig
    ensures known.Valid() && found.nodes == []
    ensures known.nodes == Reverse(WithConfig(old(found.nodes))) + old(known.nodes)
    ensures changes == |WithConfig(old(found.nodes))|
    ensures forall n :: n in old(found.Nodes()) ==> n.hasConfig == parses(n.name)
  {
    ghost var known0, found0 := known.nodes, found.nodes;
    AddStarts(known, found, parses);
    BeginIs(found);
    NodesAre(found);
    hide *;
    changes := 0;
    ghost var s: seq<Node>, rest, ready: seq<Node> := [], found.nodes, [];
    var dev := found.begin;
    while dev != null
      invariant Adding(known, found, known0, found0, s, rest, ready, parses)
      invariant known.Nodes() <= old(known.Nodes() + found.Nodes()) && found.Nodes() <= old(found.Nodes())
      invariant dev == if rest == [] then null else rest[0]
      invariant changes == |ready|
      decreases |rest|
    {
      var added, tdev := AddStep(known, found, dev, known0, found0, s, rest, ready, parses);
      if added {
        changes, ready := changes + 1, [dev] + ready;
      }
      s, rest, dev := s + [dev], rest[1..], tdev;
    }
    AddEnds(known, found, known0, found0, s, ready, parses);
  }

  /** Where the second loop stands: past `s`, with `rest` to go and `ready` added. */
  ghost predicate Adding(known: List, found: List, known0: seq<Node>, found0: seq<Node>, s: seq<Node>, rest: seq<Node>,
                         ready: seq<Node>, parses: Name -> bool)
    reads known, found, known.nodes, found.nodes, Elements(found0)`hasConfig, Elements(s)`hasConfig
  {
    && known != found && known.Valid() && found.Valid() && known.Nodes() !! found.Nodes()
    && found.nodes == rest && s + rest == found0 && Distinct(found0)
    && known.nodes == ready + known0 && Collected(s, ready)
    && Parsed(found0, rest, parses)
  }

  /** Of the new devices those before `rest` have been opened and parsed, as far as that is possible. */
  ghost predicate Parsed(found: seq<Node>, rest: seq<Node>, parses: Name -> bool)
    reads Elements(found)`hasConfig
  {
    forall n :: n in found ==> n.hasConfig == (n !in rest && parses(n.name))
  }

  ghost predicate ParsedExcept(found: seq<Node>, rest: seq<Node>, dev: Node, parses: Name -> bool)
    reads (Elements(found) - {dev})`hasConfig
  {
    forall n :: n in found && n != dev ==> n.hasConfig == (n !in rest && parses(n.name))
  }

  lemma ParsedBefore(found: seq<Node>, rest: seq<Node>, dev: Node, parses: Name -> bool)
    requires Parsed(found, rest, parses) && dev in found && dev in rest
    ensures ParsedExcept(found, rest, dev, parses) && !dev.hasConfig && dev !in Elements(found) - {dev}
  {}

  lemma ParsedAfter(found: seq<Node>, rest: seq<Node>, dev: Node, parses: Name -> bool)
    requires ParsedExcept(found, rest, dev, parses) && rest != [] && rest[0] == dev && dev !in rest[1..]
    requires dev.hasConfig == parses(dev.name)
    ensures Parsed(found, rest[1..], parses)
  {
    assert rest == [dev] + rest[1..];
  }

  lemma AddStarts(known: List, found: List, parses: Name -> bool)
    requires known != found && known.Valid() && found.Valid() && known.Nodes() !! found.Nodes()
    requires forall n :: n in found.Nodes() ==> !n.hasConfig
    ensures Adding(known, found, known.nodes, found.nodes, [], found.nodes, [], parses)
  {
    assert [] + found.nodes == found.nodes && [] + known.nodes == known.nodes;
  }

  lemma AddEnds(known: List, found: List, known0: seq<Node>, found0: seq<Node>, s: seq<Node>, ready: seq<Node>,
                parses: Name -> bool)
    requires Adding(known, found, known0, found0, s, [], ready, parses)
    ensures known.Valid() && found.nodes == [] && known.nodes == Reverse(WithConfig(found0)) + known0
    ensures |ready| == |WithConfig(found0)| && forall n :: n in found0 ==> n.hasConfig == parses(n.name)
  {
    CollectedAll(s, ready, found0);
  }

  /** One turn of the second loop. */
  method AddStep(known: List, found: List, dev: Node, ghost known0: seq<Node>, ghost found0: seq<Node>,
                 ghost s: seq<Node>, ghost rest: seq<Node>, ghost ready: seq<Node>, parses: Name -> bool)
    returns (added: bool, tdev: Node?)
    requires Adding(known, found, known0, found0, s, rest, ready, parses) && rest != [] && dev == rest[0]
    modifies known, found, known.Nodes()`prev, found.Nodes()`next, found.Nodes()`prev, dev`hasConfig
    ensures Adding(known, found, known0, found0, s + [dev], rest[1..], if added then [dev] + ready else ready, parses)
    ensures known.Nodes() <= old(known.Nodes() + found.Nodes()) && found.Nodes() <= old(found.Nodes())
    ensures tdev == if rest[1..] == [] then null else rest[1..][0]
  {
    assert [] + rest == rest && dev in found0 && dev !in rest[1..];
    NextIs(found, [], rest);
    SplitApart(found0, s, rest);
    NodesAre(found);
    ParsedBefore(found0, rest, dev, parses);
    hide List.Valid, List.Nodes, Linked, Collected, Distinct, Parsed, ParsedExcept;
    tdev := dev.next;
    added := AddOne(known, found, dev, parses);
    ParsedAfter(found0, rest, dev, parses);
    CollectedNext(s, ready, dev);
    MoveToFront(dev, ready, known0);
  }

  lemma CollectedAll(s: seq<Node>, ready: seq<Node>, all: seq<Node>)
    requires Collected(s, ready) && s + [] == all
    ensures ready == Reverse(WithConfig(all)) && |ready| == |WithConfig(all)|
  {
    assert s == all;
  }

  // ----- what the matching comes to -----

  predicate Named(name: Name, s: seq<Node>) {
    exists i :: 0 <= i < |s| && s[i].name == name
  }

  predicate DistinctNames(s: seq<Node>) {
    forall i, j :: 0 <= i < j < |s| ==> s[i].name != s[j].name
  }

  /** The devices whose name is, or is not, among those of `others`. */
  function Among(s: seq<Node>, others: seq<Node>, present: bool): (r: seq<Node>)
    ensures forall n :: n in r ==> n in s
  {
    if s == [] then []
    else if Named(s[0].name, others) == present then [s[0]] + Among(s[1..], others, present)
    else Among(s[1..], others, present)
  }

  lemma IndexOfNamed(name: Name, s: seq<Node>)
    ensures IndexOf(name, s) < |s| <==> Named(name, s)
  {}

  /** Striking one name out leaves all other names, and leaves out this one if names are distinct. */
  lemma StrikeNames(name: Name, s: seq<Node>, other: Name)
    ensures name != other ==> (Named(other, Strike(name, s)) <==> Named(other, s))
    ensures DistinctNames(s) ==> DistinctNames(Strike(name, s)) && !Named(name, Strike(name, s))
    ensures |Strike(name, s)| == |s| - (if Named(name, s) then 1 else 0)
  {
    var k, t := IndexOf(name, s), Strike(name, s);
    IndexOfNamed(name, s);
    if k < |s| {
      assert forall i :: 0 <= i < |t| ==> t[i] == s[if i < k then i else i + 1];
      if i :| 0 <= i < |s| && s[i].name == other && name != other {
        assert t[if i < k then i else i - 1] == s[i];
      }
    }
  }

  /** Which of `others` have no name of `s` plays no part in what is among them. */
  lemma {:induction false} AmongSame(s: seq<Node>, a: seq<Node>, b: seq<Node>, present: bool)
    requires forall i :: 0 <= i < |s| ==> (Named(s[i].name, a) <==> Named(s[i].name, b))
    ensures Among(s, a, present) == Among(s, b, present)
  {
    if s != [] {
      assert forall i :: 0 <= i < |s[1..]| ==> s[1..][i] == s[i + 1];
      AmongSame(s[1..], a, b, present);
    }
  }

  lemma {:induction false} AmongAppend(a: seq<Node>, b: seq<Node>, others: seq<Node>, present: bool)
    ensures Among(a + b, others, present) == Among(a, others, present) + Among(b, others, present)
  {
    hide Named;
    if a == [] {
      assert a + b == b;
    } else {
      AmongAppend(a[1..], b, others, present);
      assert (a + b)[1..] == a[1..] + b && (a + b)[0] == a[0];
      var x, y := Among(a[1..], others, present), Among(b, others, present);
      assert [a[0]] + (x + y) == [a[0]] + x + y;
    }
  }

  lemma {:induction false} AmongNone(s: seq<Node>)
    ensures Among(s, [], false) == s
  {
    if s != [] {
      AmongNone(s[1..]);
    }
  }

  /** With distinct names the known devices that stay are exactly those whose name was found again, and the others
      found are exactly those that were not known, both in their old order. */
  lemma {:induction false} MatchingIsByName(known: seq<Node>, found: seq<Node>)
    requires DistinctNames(known) && DistinctNames(found)
    ensures Kept(known, found) == Among(known, found, true)
    ensures Unmatched(known, found) == Among(found, known, false)
    decreases |known|
  {
    if known == [] {
      AmongNone(found);
    } else {
      var name, rest, left := known[0].name, known[1..], Strike(known[0].name, found);
      StrikeNames(name, found, name);
      IndexOfNamed(name, found);
      MatchingIsByName(rest, left);
      forall i | 0 <= i < |rest| ensures Named(rest[i].name, left) <==> Named(rest[i].name, found) {
        assert rest[i] == known[i + 1];
        StrikeNames(name, found, rest[i].name);
      }
      AmongSame(rest, left, found, true);
      StrikeAmong(known, found);
    }
  }

  lemma StrikeAmong(known: seq<Node>, found: seq<Node>)
    requires known != [] && DistinctNames(known) && DistinctNames(found)
    ensures Among(Strike(known[0].name, found), known[1..], false) == Among(found, known, false)
  {
    var name, rest := known[0].name, known[1..];
    var k, left := IndexOf(name, found), Strike(name, found);
    NamedInRest(known);
    StrikeNames(name, found, name);
    forall i | 0 <= i < |left| ensures left[i].name != name {}
    hide DistinctNames, Named, IndexOf;
    AmongSame(left, rest, known, false);
    hide Among;
    if k < |found| {
      AmongSkips(found, k, known);
    }
  }

  lemma AmongSkips(s: seq<Node>, k: nat, others: seq<Node>)
    requires k < |s| && Named(s[k].name, others)
    ensures Among(Without(s, k), others, false) == Among(s, others, false)
  {
    hide Named;
    var a, b := s[..k], s[k + 1..];
    assert s == a + ([s[k]] + b) && ([s[k]] + b)[1..] == b;
    assert Among([s[k]] + b, others, false) == Among(b, others, false);
    hide Among;
    AmongAppend(a, [s[k]] + b, others, false);
    AmongAppend(a, b, others, false);
  }

  lemma NamedInRest(known: seq<Node>)
    requires known != []
    ensures forall other :: Named(other, known) <==> other == known[0].name || Named(other, known[1..])
  {
    forall other ensures Named(other, known) <==> other == known[0].name || Named(other, known[1..]) {
      if i :| 0 <= i < |known| && known[i].name == other && i > 0 {
        assert known[1..][i - 1] == known[i];
      }
      if i :| 0 <= i < |known[1..]| && known[1..][i].name == other {
        assert known[i + 1] == known[1..][i];
      }
    }
  }

  /** Every device that stays uses up one that was found. */
  lemma {:induction false} MatchingCounts(known: seq<Node>, found: seq<Node>)
    ensures |Kept(known, found)| + |Unmatched(known, found)| == |found|
    decreases |known|
  {
    if known != [] {
      IndexOfNamed(known[0].name, found);
      StrikeNames(known[0].name, found, known[0].name);
      MatchingCounts(known[1..], Strike(known[0].name, found));
    }
  }

  // ----- the devices that are there -----

  /** What the system answers for each device number: vendor and product, or that the device cannot be read. */
  type World = nat -> Option<(nat, nat)>

  /** The names that can be read among the numbers up to `n`, the highest first. */
  function Present(world: World, n: nat): seq<Name> {
    if n == 0 then []
    else match world(n)
      case None => Present(world, n - 1)
      case Some(ids) => [Name(n, ids.0, ids.1)] + Present(world, n - 1)
  }

  predicate NamesAre(s: seq<Node>, names: seq<Name>) {
    |s| == |names| && forall i :: 0 <= i < |s| ==> s[i].name == names[i]
  }

  lemma {:induction false} PresentBounds(world: World, n: nat)
    ensures |Present(world, n)| <= n
    ensures forall i :: 0 <= i < |Present(world, n)| ==> Present(world, n)[i].number <= n
    ensures forall i, j :: 0 <= i < j < |Present(world, n)| ==> Present(world, n)[i] != Present(world, n)[j]
  {
    if n > 0 {
      PresentBounds(world, n - 1);
    }
  }

  /** The names found are those of the numbers that answer, with what they answer. */
  lemma {:induction false} PresentIs(world: World, n: nat, name: Name)
    ensures name in Present(world, n) <==>
              0 < name.number <= n && world(name.number) == Some((name.vendor, name.product))
  {
    hide Present;
    if n > 0 {
      PresentIs(world, n - 1, name);
      PresentNext(world, n);
    } else {
      NothingPresent(world);
    }
  }

  lemma NothingPresent(world: World)
    ensures Present(world, 0) == []
  {}

  /** The highest number first. */
  lemma {:induction false} PresentDescends(world: World, n: nat, i: nat, j: nat)
    requires i < j < |Present(world, n)|
    ensures Present(world, n)[i].number > Present(world, n)[j].number
  {
    hide Present;
    NothingPresent(world);
    PresentNext(world, n);
    PresentBounds(world, n - 1);
    if world(n) == None {
      PresentDescends(world, n - 1, i, j);
    } else if i > 0 {
      PresentDescends(world, n - 1, i - 1, j - 1);
    }
  }

  lemma NamesNone(world: World)
    ensures NamesAre([], Present(world, 0))
  {}

  lemma PresentNext(world: World, n: nat)
    requires n > 0
    ensures Present(world, n) ==
            match world(n)
            case None => Present(world, n - 1)
            case Some(ids) => [Name(n, ids.0, ids.1)] + Present(world, n - 1)
  {}

  lemma NamesAreNext(s: seq<Node>, names: seq<Name>, n: Node)
    requires NamesAre(s, names)
    ensures NamesAre([n] + s, [n.name] + names)
  {}

  /** `usb_os_find_devices`. */
  method OsFindDevices(world: World) returns (devices: List)
    ensures devices.Valid() && fresh(devices) && fresh(devices.Nodes())
    ensures NamesAre(devices.nodes, Present(world, MAX_DEVICES - 1))
    ensures forall n :: n in devices.nodes ==> !n.hasConfig
  {
    hide Present, NamesAre, List.Valid;
    devices := new List();
    NamesNone(world);
    for i := 1 to MAX_DEVICES
      invariant devices.Valid() && fresh(devices) && fresh(devices.Nodes())
      invariant NamesAre(devices.nodes, Present(world, i - 1))
      invariant forall n :: n in devices.nodes ==> !n.hasConfig
    {
      PresentNext(world, i);
      match world(i)
      case None =>
      case Some(ids) =>
        var dev := new Node(Name(i, ids.0, ids.1));
        NamesAreNext(devices.nodes, Present(world, i - 1), dev);
        devices.Add(dev);
    }
  }

  /** `usb_os_determine_children`: the counter `num_children` is an unsigned char. */
  method DetermineChildren(devices: List) returns (numChildren: byte, children: array<Node?>)
    requires devices.Valid() && |devices.nodes| < MAX_DEVICES
    ensures numChildren as int == |devices.nodes| && children[..] == devices.nodes
  {
    ghost var s := devices.nodes;
    numChildren := 0;
    var dev := devices.begin;
    while dev != null
      invariant numChildren as int <= |s| && dev == if numChildren as int < |s| then s[numChildren as int] else null
      decreases |s| - numChildren as int
    {
      assert Linked(s, numChildren as int);
      numChildren, dev := ((numChildren as int + 1) % 256) as byte, dev.next;
    }
    children := new Node?[numChildren as int];
    var i := 0;
    dev := devices.begin;
    while dev != null
      invariant 0 <= i <= |s| == children.Length && dev == if i < |s| then s[i] else null
      invariant children[..i] == s[..i]
      decreases |s| - i
    {
      assert Linked(s, i);
      children[i] := dev;
      i, dev := i + 1, dev.next;
    }
  }

  // ----- one scan -----

  lemma {:induction false} AmongIs(s: seq<Node>, others: seq<Node>, present: bool)
    requires DistinctNames(s)
    ensures forall n :: n in Among(s, others, present) <==> n in s && Named(n.name, others) == present
    ensures DistinctNames(Among(s, others, present))
  {
    if s != [] {
      var t := s[1..];
      assert s == [s[0]] + t;
      AmongIs(t, others, present);
      FirstDiffers(s);
      DistinctCons(s[0], Among(t, others, present));
    }
  }

  lemma {:induction false} WithConfigIs(s: seq<Node>)
    requires DistinctNames(s)
    ensures forall n :: n in WithConfig(s) <==> n in s && n.hasConfig
    ensures |WithConfig(s)| <= |s| && DistinctNames(WithConfig(s))
  {
    if s != [] {
      var t := s[1..];
      assert s == [s[0]] + t;
      WithConfigIs(t);
      FirstDiffers(s);
      DistinctCons(s[0], WithConfig(t));
    }
  }

  lemma {:induction false} ReverseIs(s: seq<Node>)
    requires DistinctNames(s)
    ensures forall n :: n in Reverse(s) <==> n in s
    ensures |Reverse(s)| == |s| && DistinctNames(Reverse(s))
  {
    if s != [] {
      var t := s[1..];
      assert s == [s[0]] + t;
      ReverseIs(t);
      FirstDiffers(s);
      DistinctCons(s[0], Reverse(t));
    }
  }

  lemma FirstDiffers(s: seq<Node>)
    requires s != [] && DistinctNames(s)
    ensures DistinctNames(s[1..]) && forall n :: n in s[1..] ==> n.name != s[0].name
  {
    forall i | 0 <= i < |s[1..]| ensures s[1..][i].name != s[0].name {
      assert s[1..][i] == s[i + 1];
    }
  }

  lemma DistinctCons(x: Node, t: seq<Node>)
    requires DistinctNames(t) && forall n :: n in t ==> n.name != x.name
    ensures DistinctNames([x] + t) && DistinctNames(t + [x])
  {}

  lemma DistinctAppend(a: seq<Node>, b: seq<Node>)
    requires DistinctNames(a) && DistinctNames(b) && forall m, n :: m in a && n in b ==> m.name != n.name
    ensures DistinctNames(a + b)
  {
    forall i, j | 0 <= i < j < |a + b| ensures (a + b)[i].name != (a + b)[j].name {
      if i < |a| <= j {
        assert a[i] in a && b[j - |a|] in b;
      }
    }
  }

  /** The bus's list after a scan that found `found` when `known` was known: the new devices that have a configuration
      in front, the last found first, then those that are still there. */
  ghost function Settled(known: seq<Node>, found: seq<Node>): seq<Node>
    reads Elements(found)`hasConfig
  {
    Reverse(WithConfig(Among(found, known, false))) + Among(known, found, true)
  }

  /** Names stay distinct, every device on the list is there now, no device known and still there is lost, and the
      list is no longer than what was found. */
  lemma SettledIs(known: seq<Node>, found: seq<Node>)
    requires DistinctNames(known) && DistinctNames(found)
    ensures DistinctNames(Settled(known, found)) && |Settled(known, found)| <= |found|
    ensures forall n :: n in Settled(known, found) <==>
              || (n in known && Named(n.name, found))
              || (n in found && !Named(n.name, known) && n.hasConfig)
  {
    var unknown, there := Among(found, known, false), Among(known, found, true);
    var ready := WithConfig(unknown);
    assert |there| + |unknown| == |found| by {
      MatchingIsByName(known, found);
      MatchingCounts(known, found);
    }
    AmongIs(known, found, true);
    AmongIs(found, known, false);
    WithConfigIs(unknown);
    ReverseIs(ready);
    hide Among, WithConfig, Reverse, DistinctNames;
    forall m, n | m in Reverse(ready) && n in there ensures m.name != n.name {
      KnownIsNamed(known, n);
      assert m in unknown;
    }
    hide Named;
    DistinctAppend(Reverse(ready), there);
  }

  lemma KnownIsNamed(s: seq<Node>, n: Node)
    requires n in s
    ensures Named(n.name, s)
  {}

  /** The reconciliation of `usb_find_devices`: what is counted as a change is every device added or removed. */
  method Reconcile(known: List, devices: List, parses: Name -> bool) returns (changes: nat)
    requires known != devices && known.Valid() && devices.Valid() && known.Nodes() !! devices.Nodes()
    requires DistinctNames(known.nodes) && DistinctNames(devices.nodes)
    requires forall n :: n in devices.Nodes() ==> !n.hasConfig
    modifies known, known.Nodes()`next, known.Nodes()`prev
    modifies devices, devices.Nodes()
    ensures known.Valid() && known.nodes == Settled(old(known.nodes), old(devices.nodes))
    ensures changes == Changes(old(known.nodes), old(devices.nodes))
    ensures forall n :: n in old(devices.nodes) ==> n.hasConfig == (!Named(n.name, old(known.nodes)) && parses(n.name))
  {
    ghost var known0, found := known.nodes, devices.nodes;
    UnmatchedIs(known0, found);
    NodesAre(devices);
    hide *;
    MatchingIsByName(known0, found);
    var removed := DropGone(known, devices);
    NodesAre(devices);
    var added := AddNew(known, devices, parses);
    changes := removed + added;
    SettledAs(known0, found);
  }

  lemma NodesAre(l: List)
    ensures forall n :: n in l.Nodes() <==> n in l.nodes
  {}

  lemma UnmatchedIs(known: seq<Node>, found: seq<Node>)
    requires DistinctNames(known) && DistinctNames(found)
    ensures forall n :: n in Unmatched(known, found) <==> n in found && !Named(n.name, known)
  {
    MatchingIsByName(known, found);
    AmongIs(found, known, false);
  }

  ghost function Changes(known: seq<Node>, found: seq<Node>): int
    reads Elements(found)`hasConfig
  {
    |WithConfig(Among(found, known, false))| + (|known| - |Among(known, found, true)|)
  }

  lemma {:induction false} ElementsCount(s: seq<Node>)
    requires DistinctNames(s)
    ensures |Elements(s)| == |s|
    decreases |s|
  {
    if s != [] {
      var rest := s[1..];
      ElementsCount(rest);
      assert s[0] !in rest && Elements(s) == Elements(rest) + {s[0]};
    }
  }

  lemma {:induction false} AmongBoth(s: seq<Node>, others: seq<Node>)
    ensures |Among(s, others, true)| + |Among(s, others, false)| == |s|
    decreases |s|
  {
    hide Named;
    if s != [] {
      AmongBoth(s[1..], others);
    }
  }

  /** What counts as a change: every device on the list after the scan that was not there before, and every one that was
      and is not any more. */
  lemma ChangesAre(known: seq<Node>, found: seq<Node>)
    requires DistinctNames(known) && DistinctNames(found) && Elements(known) !! Elements(found)
    ensures Changes(known, found) == |Elements(Settled(known, found)) - Elements(known)|
                                     + |Elements(known) - Elements(Settled(known, found))|
  {
    var unknown, there, gone := Among(found, known, false), Among(known, found, true), Among(known, found, false);
    var ready := WithConfig(unknown);
    AmongIs(known, found, true);
    AmongIs(known, found, false);
    AmongIs(found, known, false);
    WithConfigIs(unknown);
    ReverseIs(ready);
    AmongBoth(known, found);
    SettledAs(known, found);
    hide Among, WithConfig, Reverse, DistinctNames, Settled, Changes;
    ElementsCount(ready);
    ElementsCount(gone);
    hide Named;
    assert Elements(Settled(known, found)) - Elements(known) == Elements(ready);
    assert Elements(known) - Elements(Settled(known, found)) == Elements(gone);
  }

  lemma SettledAs(known: seq<Node>, found: seq<Node>)
    ensures Settled(known, found) == Reverse(WithConfig(Among(found, known, false))) + Among(known, found, true)
    ensures Changes(known, found) == |WithConfig(Among(found, known, false))| + (|known| - |Among(known, found, true)|)
  {}

  /** `usb_find_devices` for one bus, over and over: `found` is the temporary list, as it came from the system. */
  method Scan(known: List, world: World, parses: Name -> bool)
    returns (changes: nat, numChildren: byte, children: array<Node?>, ghost found: seq<Node>)
    requires known.Valid() && DistinctNames(known.nodes)
    modifies known, known.Nodes()`next, known.Nodes()`prev
    ensures known.Valid() && DistinctNames(known.nodes)
    ensures NamesAre(found, Present(world, MAX_DEVICES - 1)) && fresh(Elements(found))
    ensures known.nodes == Settled(old(known.nodes), found) && changes == Changes(old(known.nodes), found)
    ensures forall n :: n in found ==> n.hasConfig == (!Named(n.name, old(known.nodes)) && parses(n.name))
    ensures numChildren as int == |known.nodes| < MAX_DEVICES && children[..] == known.nodes
  {
    var devices := OsFindDevices(world);
    found := devices.nodes;
    PresentBounds(world, MAX_DEVICES - 1);
    assert DistinctNames(found) && Elements(found) == devices.Nodes();
    ghost var known0 := known.nodes;
    hide *;
    changes := Reconcile(known, devices, parses);
    SettledIs(known0, found);
    numChildren, children := DetermineChildren(known);
  }

  /** A scan that finds exactly the devices known keeps the list as it is. */
  lemma NothingNew(known: seq<Node>, found: seq<Node>)
    requires DistinctNames(known) && DistinctNames(found)
    requires forall name :: Named(name, known) <==> Named(name, found)
    ensures Settled(known, found) == known
  {
    AmongAll(known, found, true);
    AmongAll(found, known, false);
  }

  lemma {:induction false} AmongAll(s: seq<Node>, others: seq<Node>, present: bool)
    requires forall i :: 0 <= i < |s| ==> Named(s[i].name, others)
    ensures Among(s, others, present) == if present then s else []
  {
    if s != [] {
      assert forall i :: 0 <= i < |s[1..]| ==> s[1..][i] == s[i + 1];
      AmongAll(s[1..], others, present);
    }
  }
}
