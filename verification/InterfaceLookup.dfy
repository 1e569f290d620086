/** Finding interface descriptors in a configuration descriptor (`find_interface_desc` and `find_interface_desc_ex`,
    libusb/src/driver/libusb_driver.c), by number or by index. */
module InterfaceLookup {
  import opened Bytes

  const ANY := -1

  /** An interface descriptor and where it starts. */
  datatype Interface = Interface(offset: nat, number: byte, alternate: byte)

  /** From `p` on a walk meets no descriptor of length 0, on which it would stand still. A walk stops where the next
      descriptor does not fit. */
  predicate Walkable(b: seq<byte>, p: nat, end: nat)
    decreases end - p
  {
    p >= end || At(b, p) as int > end - p || (At(b, p) > 0 && Walkable(b, p + At(b, p) as int, end))
  }

  function InterfaceAt(b: seq<byte>, p: nat): Interface {
    Interface(p, At(b, p + 2), At(b, p + 3))
  }

  /** The interface descriptors from `p` to `end`, in order, up to one that does not fit. */
  function Interfaces(b: seq<byte>, p: nat, end: nat): seq<Interface>
    decreases end - p
  {
    if p >= end || At(b, p) as int > end - p || At(b, p) == 0 then []
    else (if At(b, p + 1) == INTERFACE then [InterfaceAt(b, p)] else []) + Interfaces(b, p + At(b, p) as int, end)
  }

  lemma NextDescriptor(b: seq<byte>, p: nat, end: nat)
    requires Walkable(b, p, end) && p < end && At(b, p) as int <= end - p
    ensures var q := p + At(b, p) as int;
            && p < q <= end && Walkable(b, q, end)
            && (if At(b, p + 1) == INTERFACE then
                  Interfaces(b, p, end) != [] && Interfaces(b, p, end)[0] == InterfaceAt(b, p)
                  && Interfaces(b, p, end)[1..] == Interfaces(b, q, end)
                else Interfaces(b, p, end) == Interfaces(b, q, end))
  {}

  lemma WalkStops(b: seq<byte>, p: nat, end: nat)
    ensures p >= end || At(b, p) as int > end - p ==> Interfaces(b, p, end) == []
  {}

  /** A walk from `p` on meets a descriptor at `q`. */
  predicate Meets(b: seq<byte>, p: nat, q: nat, end: nat)
    decreases end - p
  {
    p < end && 0 < At(b, p) as int <= end - p && (p == q || Meets(b, p + At(b, p) as int, q, end))
  }

  lemma InterfacesNext(b: seq<byte>, p: nat, end: nat)
    ensures if p < end && 0 < At(b, p) as int <= end - p then
              Interfaces(b, p, end) == (if At(b, p + 1) == 4 then [InterfaceAt(b, p)] else [])
                                       + Interfaces(b, p + At(b, p) as int, end)
            else Interfaces(b, p, end) == []
  {}

  /** Every interface is a descriptor of type 4 that a walk meets, with the number and alternate setting of bytes 2 and 3
      (section 9.6.5 of the USB 2.0 specification). */
  lemma {:induction false} InterfaceIsMet(b: seq<byte>, p: nat, end: nat, i: nat)
    requires i < |Interfaces(b, p, end)|
    ensures var x := Interfaces(b, p, end)[i];
            && Meets(b, p, x.offset, end) && p <= x.offset && At(b, x.offset + 1) == 4
            && x.number == At(b, x.offset + 2) && x.alternate == At(b, x.offset + 3)
    decreases end - p
  {
    hide Interfaces, At;
    InterfacesNext(b, p, end);
    var k := if At(b, p + 1) == 4 then 1 else 0;
    if i >= k {
      InterfaceIsMet(b, p + At(b, p) as int, end, i - k);
    }
  }

  /** And every such descriptor is listed. */
  lemma {:induction false} MetIsListed(b: seq<byte>, p: nat, end: nat, q: nat) returns (i: nat)
    requires Meets(b, p, q, end) && At(b, q + 1) == 4
    ensures i < |Interfaces(b, p, end)| && Interfaces(b, p, end)[i].offset == q
    decreases end - p
  {
    hide Interfaces, At;
    InterfacesNext(b, p, end);
    if p == q {
      i := 0;
    } else {
      i := MetIsListed(b, p + At(b, p) as int, end, q);
      i := i + if At(b, p + 1) == 4 then 1 else 0;
    }
  }

  /** In the order of their places. */
  lemma {:induction false} InterfacesAscend(b: seq<byte>, p: nat, end: nat, i: nat, j: nat)
    requires i < j < |Interfaces(b, p, end)|
    ensures Interfaces(b, p, end)[i].offset < Interfaces(b, p, end)[j].offset
    decreases end - p
  {
    hide Interfaces, At, Meets;
    InterfacesNext(b, p, end);
    var q := p + At(b, p) as int;
    var k := if At(b, p + 1) == 4 then 1 else 0;
    if i >= k {
      InterfacesAscend(b, q, end, i - k, j - k);
    } else {
      InterfaceIsMet(b, q, end, j - k);
    }
  }

  function TotalLength(b: seq<byte>): nat {
    Word(b, 2)
  }

  // ----- lookup by number and alternate setting -----

  /** The first interface with this number and alternate setting. */
  function First(xs: seq<Interface>, number: byte, alternate: byte): Option<Interface> {
    if xs == [] then None
    else if xs[0].number == number && xs[0].alternate == alternate then Some(xs[0])
    else First(xs[1..], number, alternate)
  }

  lemma {:induction false} FirstIs(xs: seq<Interface>, number: byte, alternate: byte)
    ensures match First(xs, number, alternate)
            case None => forall i :: 0 <= i < |xs| ==> !(xs[i].number == number && xs[i].alternate == alternate)
            case Some(x) =>
              exists i :: 0 <= i < |xs| && xs[i] == x && x.number == number && x.alternate == alternate
                && forall j :: 0 <= j < i ==> !(xs[j].number == number && xs[j].alternate == alternate)
    decreases |xs|
  {
    if xs != [] {
      if xs[0].number == number && xs[0].alternate == alternate {
        assert xs[0] == First(xs, number, alternate).value;
      } else {
        FirstIs(xs[1..], number, alternate);
        forall i | 0 <= i < |xs| ensures i == 0 || xs[i] == xs[1..][i - 1] {}
        if First(xs[1..], number, alternate).Some? {
          var x := First(xs, number, alternate).value;
          var i :| 0 <= i < |xs[1..]| && xs[1..][i] == x
            && forall j :: 0 <= j < i ==> !(xs[1..][j].number == number && xs[1..][j].alternate == alternate);
          assert xs[i + 1] == x;
        }
      }
    }
  }

  /** `find_interface_desc`: NULL when the buffer is shorter than the descriptor says; the arguments are truncated to
      bytes. */
  method FindInterfaceDesc(b: seq<byte>, length: nat, interfaceNumber: int, altsetting: int)
    returns (r: Option<Interface>)
    requires length < TotalLength(b) || Walkable(b, 0, length)
    ensures r == if length < TotalLength(b) then None
                 else First(Interfaces(b, 0, length), (interfaceNumber % 256) as byte, (altsetting % 256) as byte)
  {
    if length < TotalLength(b) {
      return None;
    }
    var p: nat, size := 0, length;
    var number, alternate := (interfaceNumber % 256) as byte, (altsetting % 256) as byte;
    while size > 0 && At(b, p) as int <= size
      invariant 0 <= size && p + size == length && Walkable(b, p, length)
      invariant First(Interfaces(b, 0, length), number, alternate) == First(Interfaces(b, p, length), number, alternate)
      decreases size
    {
      if At(b, p + 1) == INTERFACE {
        var d := InterfaceAt(b, p);
        if d.number == number && d.alternate == alternate {
          return Some(d);
        }
      }
      NextDescriptor(b, p, length);
      size, p := size - At(b, p) as int, p + At(b, p) as int;
    }
    return None;
  }

  // ----- ranks -----

  /** The interface numbers in the order in which they first appear. */
  function Numbers(xs: seq<Interface>): seq<byte> {
    if xs == [] then []
    else
      var before, n := Numbers(xs[..|xs| - 1]), xs[|xs| - 1].number;
      if n in before then before else before + [n]
  }

  function Count(xs: seq<Interface>, number: byte): nat {
    if xs == [] then 0
    else Count(xs[..|xs| - 1], number) + (if xs[|xs| - 1].number == number then 1 else 0)
  }

  function IndexOf(ns: seq<byte>, n: byte): (k: nat)
    ensures k <= |ns| && (k < |ns| ==> ns[k] == n) && (n in ns <==> k < |ns|)
    ensures forall j :: 0 <= j < k ==> ns[j] != n
  {
    if ns == [] then 0 else if ns[0] == n then 0 else 1 + IndexOf(ns[1..], n)
  }

  /** The interface index: how many other numbers appear before this one does. */
  function InterfaceIndex(xs: seq<Interface>, i: nat): nat
    requires i < |xs|
  {
    IndexOf(Numbers(xs[..i + 1]), xs[i].number)
  }

  /** The alternate setting index: how many earlier descriptors have the same number. */
  function AltsettingIndex(xs: seq<Interface>, i: nat): nat
    requires i < |xs|
  {
    Count(xs[..i], xs[i].number)
  }

  // ----- lookup by number or index -----

  /** `interface_request_t`. The index fields double as wildcards, whichever way the lookup goes. */
  datatype Request = Request(
    interfaceNumber: int, altsettingNumber: int, byInterfaceIndex: bool, byAltsettingIndex: bool,
    interfaceIndex: int, altsettingIndex: int)

  predicate Matches(q: Request, x: Interface, interfaceIndex: int, altsettingIndex: int) {
    && (q.interfaceIndex != ANY ==>
          if q.byInterfaceIndex then q.interfaceIndex == interfaceIndex else q.interfaceNumber == x.number as int)
    && (q.altsettingIndex != ANY ==>
          if q.byAltsettingIndex then q.altsettingIndex == altsettingIndex else q.altsettingNumber == x.alternate as int)
  }

  predicate MatchesAt(q: Request, xs: seq<Interface>, i: nat)
    requires i < |xs|
  {
    Matches(q, xs[i], InterfaceIndex(xs, i), AltsettingIndex(xs, i))
  }

  /** The request after the interface at `i` was found: both descriptions of it, the indices as bytes. */
  function Answer(q: Request, xs: seq<Interface>, i: nat): Request
    requires i < |xs|
  {
    q.(interfaceIndex := InterfaceIndex(xs, i) % 256, altsettingIndex := AltsettingIndex(xs, i) % 256,
       interfaceNumber := xs[i].number as int, altsettingNumber := xs[i].alternate as int)
  }

  lemma {:induction false} CountBounds(xs: seq<Interface>, n: byte)
    ensures Count(xs, n) <= |xs|
    ensures n in Numbers(xs) <==> Count(xs, n) > 0
    decreases |xs|
  {
    if xs != [] {
      CountBounds(xs[..|xs| - 1], n);
    }
  }

  lemma {:induction false} NumbersDiffer(xs: seq<Interface>)
    ensures forall j, k :: 0 <= j < k < |Numbers(xs)| ==> Numbers(xs)[j] != Numbers(xs)[k]
    decreases |xs|
  {
    if xs != [] {
      NumbersDiffer(xs[..|xs| - 1]);
    }
  }

  lemma CountOneMore(xs: seq<Interface>, x: Interface, n: byte)
    ensures Count(xs + [x], n) == Count(xs, n) + (if x.number == n then 1 else 0)
  {
    assert (xs + [x])[..|xs|] == xs;
  }

  /** The numbers found so far stay where they are when more follow. */
  lemma {:induction false} NumbersGrow(xs: seq<Interface>, i: nat)
    requires i <= |xs|
    ensures Numbers(xs[..i]) <= Numbers(xs)
    decreases |xs|
  {
    if i < |xs| {
      NumbersGrow(xs[..|xs| - 1], i);
      assert xs[..|xs| - 1][..i] == xs[..i];
    } else {
      assert xs[..i] == xs;
    }
  }

  lemma IndexInPrefix(ns: seq<byte>, ms: seq<byte>, n: byte)
    requires ns <= ms && n in ns
    ensures IndexOf(ns, n) == IndexOf(ms, n)
  {
    assert forall k :: 0 <= k < |ns| ==> ns[k] == ms[k];
  }

  /** An interface's index can be read off the whole list of numbers. */
  lemma InterfaceIndexIs(xs: seq<Interface>, i: nat)
    requires i < |xs|
    ensures xs[i].number in Numbers(xs)
    ensures InterfaceIndex(xs, i) == IndexOf(Numbers(xs), xs[i].number)
  {
    NumbersGrow(xs, i + 1);
    assert xs[..i + 1][..i] == xs[..i];
    assert xs[i].number in Numbers(xs[..i + 1]);
    IndexInPrefix(Numbers(xs[..i + 1]), Numbers(xs), xs[i].number);
  }

  lemma {:induction false} CountGrows(xs: seq<Interface>, i: nat, j: nat)
    requires i < j < |xs| && xs[i].number == xs[j].number
    ensures AltsettingIndex(xs, i) < AltsettingIndex(xs, j)
    decreases j
  {
    var n := xs[i].number;
    assert xs[..i + 1][..i] == xs[..i];
    if i + 1 < j {
      CountUpTo(xs, i + 1, j, n);
    }
  }

  lemma {:induction false} CountUpTo(xs: seq<Interface>, i: nat, j: nat, n: byte)
    requires i <= j <= |xs|
    ensures Count(xs[..i], n) <= Count(xs[..j], n)
    decreases j
  {
    if i < j {
      CountUpTo(xs, i, j - 1, n);
      assert xs[..j][..j - 1] == xs[..j - 1];
    }
  }

  /** Both indices together identify an interface descriptor, and equal indices mean equal numbers. */
  lemma IndicesIdentify(xs: seq<Interface>, i: nat, j: nat)
    requires i < |xs| && j < |xs|
    ensures InterfaceIndex(xs, i) == InterfaceIndex(xs, j) <==> xs[i].number == xs[j].number
    ensures InterfaceIndex(xs, i) == InterfaceIndex(xs, j) && AltsettingIndex(xs, i) == AltsettingIndex(xs, j) ==> i == j
  {
    InterfaceIndexIs(xs, i);
    InterfaceIndexIs(xs, j);
    if i < j && xs[i].number == xs[j].number {
      CountGrows(xs, i, j);
    } else if j < i && xs[i].number == xs[j].number {
      CountGrows(xs, j, i);
    }
  }

  // ----- asking again -----

  predicate UniquePairs(xs: seq<Interface>) {
    forall i, j :: 0 <= i < j < |xs| ==> !(xs[i].number == xs[j].number && xs[i].alternate == xs[j].alternate)
  }

  /** At most 32 interface numbers, as many as the driver's tables hold. */
  predicate NumbersFit(xs: seq<Interface>) {
    |Numbers(xs)| <= MAX_INTERFACES
  }

  /** The request that a lookup has rewritten, sent again by number or by index. */
  function Again(q: Request, xs: seq<Interface>, i: nat, byInterfaceIndex: bool, byAltsettingIndex: bool): Request
    requires i < |xs|
  {
    Answer(q, xs, i).(byInterfaceIndex := byInterfaceIndex, byAltsettingIndex := byAltsettingIndex)
  }

  /** No other descriptor has both numbers of the one at `i`. */
  predicate OnlyPair(xs: seq<Interface>, i: nat)
    requires i < |xs|
  {
    forall j :: 0 <= j < |xs| && xs[j].number == xs[i].number && xs[j].alternate == xs[i].alternate ==> j == i
  }

  /** Asking again with what a lookup answered, by numbers, by indices or mixed, matches that interface and no other: by
      the alternate setting's number exactly if its pair of numbers is unique; by its index exactly if the index fits
      the byte in which it is answered. */
  lemma AskingAgain(q: Request, xs: seq<Interface>, i: nat, byInterfaceIndex: bool, byAltsettingIndex: bool)
    requires i < |xs| && NumbersFit(xs)
    ensures (forall j :: 0 <= j < |xs| ==>
              (MatchesAt(Again(q, xs, i, byInterfaceIndex, byAltsettingIndex), xs, j) <==> i == j))
            <==> (if byAltsettingIndex then AltsettingIndex(xs, i) < 256 else OnlyPair(xs, i))
  {
    var exact := if byAltsettingIndex then AltsettingIndex(xs, i) < 256 else OnlyPair(xs, i);
    if exact {
      forall j | 0 <= j < |xs|
        ensures MatchesAt(Again(q, xs, i, byInterfaceIndex, byAltsettingIndex), xs, j) <==> i == j
      {
        AskedOnce(q, xs, i, j, byInterfaceIndex, byAltsettingIndex);
      }
    } else if byAltsettingIndex {
      assert !MatchesAt(Again(q, xs, i, byInterfaceIndex, byAltsettingIndex), xs, i);
    } else {
      var j :| 0 <= j < |xs| && xs[j].number == xs[i].number && xs[j].alternate == xs[i].alternate && j != i;
      SamePairMatches(q, xs, i, j, byInterfaceIndex);
    }
  }

  lemma SamePairMatches(q: Request, xs: seq<Interface>, i: nat, j: nat, byInterfaceIndex: bool)
    requires i < |xs| && j < |xs| && NumbersFit(xs)
    requires xs[j].number == xs[i].number && xs[j].alternate == xs[i].alternate
    ensures MatchesAt(Again(q, xs, i, byInterfaceIndex, false), xs, j)
  {
    IndicesIdentify(xs, i, j);
    IndexBelow(xs, i);
    hide InterfaceIndex, AltsettingIndex, Numbers;
  }

  lemma AskedOnce(q: Request, xs: seq<Interface>, i: nat, j: nat, byInterfaceIndex: bool, byAltsettingIndex: bool)
    requires i < |xs| && j < |xs| && NumbersFit(xs)
    requires if byAltsettingIndex then AltsettingIndex(xs, i) < 256 else OnlyPair(xs, i)
    ensures MatchesAt(Again(q, xs, i, byInterfaceIndex, byAltsettingIndex), xs, j) <==> i == j
  {
    IndicesIdentify(xs, i, j);
    IndexBelow(xs, i);
    IndexBelow(xs, j);
    hide InterfaceIndex, AltsettingIndex, Numbers;
  }

  function AlternatesOf(xs: seq<Interface>, n: byte): set<byte> {
    if xs == [] then {}
    else
      var x := xs[|xs| - 1];
      AlternatesOf(xs[..|xs| - 1], n) + (if x.number == n then {x.alternate} else {})
  }

  lemma {:induction false} UniqueAlternates(xs: seq<Interface>, n: byte)
    requires UniquePairs(xs)
    ensures |AlternatesOf(xs, n)| == Count(xs, n)
    ensures forall a :: a in AlternatesOf(xs, n) ==>
                          exists k :: 0 <= k < |xs| && xs[k].number == n && xs[k].alternate == a
    decreases |xs|
  {
    if xs != [] {
      var before := xs[..|xs| - 1];
      UniqueAlternates(before, n);
      forall a | a in AlternatesOf(before, n)
        ensures exists k :: 0 <= k < |xs| - 1 && xs[k].number == n && xs[k].alternate == a
      {
        var k :| 0 <= k < |before| && before[k].number == n && before[k].alternate == a;
        assert xs[k] == before[k];
      }
    }
  }

  lemma {:induction false} BytesBelow(s: set<byte>, k: nat)
    requires k <= 256 && forall a :: a in s ==> a as int < k
    ensures |s| <= k
  {
    if k == 0 {
      assert s == {};
    } else {
      var top := (k - 1) as byte;
      BytesBelow(s - {top}, k - 1);
    }
  }

  /** With unique pairs every alternate setting index fits a byte. */
  lemma UniquePairsFit(xs: seq<Interface>, i: nat)
    requires UniquePairs(xs) && i < |xs|
    ensures AltsettingIndex(xs, i) < 256
  {
    var n, before, after := xs[i].number, xs[..i], xs[..i + 1];
    UniqueAlternates(after, n);
    assert after[..i] == before;
    BytesBelow(AlternatesOf(after, n), 256);
  }

  lemma IndexBelow(xs: seq<Interface>, i: nat)
    requires i < |xs|
    ensures InterfaceIndex(xs, i) < |Numbers(xs)|
  {
    InterfaceIndexIs(xs, i);
  }

  /** With unique pairs `find_interface_desc` reaches every interface by its two numbers. */
  lemma {:induction false} FoundByNumbers(xs: seq<Interface>, i: nat)
    requires i < |xs| && UniquePairs(xs)
    ensures First(xs, xs[i].number, xs[i].alternate) == Some(xs[i])
    decreases |xs|
  {
    if i > 0 {
      assert forall k :: 0 <= k < |xs[1..]| ==> xs[1..][k] == xs[k + 1];
      FoundByNumbers(xs[1..], i - 1);
    }
  }

  // ----- find_interface_desc_ex -----

  /** The first match from position `i` on. */
  function FirstMatch(q: Request, xs: seq<Interface>, i: nat): (r: Option<nat>)
    requires i <= |xs|
    ensures r.Some? ==> i <= r.value < |xs| && MatchesAt(q, xs, r.value)
    ensures forall j :: i <= j < (if r.Some? then r.value else |xs|) ==> !MatchesAt(q, xs, j)
    decreases |xs| - i
  {
    if i == |xs| then None else if MatchesAt(q, xs, i) then Some(i) else FirstMatch(q, xs, i + 1)
  }

  /** `InterfacesByIndex`: for every interface number met, in order, the index of its latest alternate setting. */
  class RankTable {
    const entries: array2<int>

    /** The table after the interfaces `xs`. */
    ghost predicate Describes(xs: seq<Interface>)
      reads this, entries
    {
      && entries.Length0 == MAX_INTERFACES && entries.Length1 == 2
      && var ns := Numbers(xs);
         && |ns| <= MAX_INTERFACES
         && (forall k :: 0 <= k < |ns| ==> entries[k, 0] == ns[k] as int && entries[k, 1] == Count(xs, ns[k]) - 1)
         && (forall k :: |ns| <= k < MAX_INTERFACES ==> entries[k, 0] == -1)
    }

    constructor ()
      ensures Describes([]) && fresh(entries)
    {
      entries := new int[MAX_INTERFACES, 2]((_, _) => -1);
    }

    /** Enters the next interface descriptor. */
    method Enter(ghost xs: seq<Interface>, x: Interface) returns (index: nat, altsetting: int)
      requires Describes(xs) && |Numbers(xs + [x])| <= MAX_INTERFACES
      modifies entries
      ensures Describes(xs + [x])
      ensures index == IndexOf(Numbers(xs + [x]), x.number) < MAX_INTERFACES
      ensures altsetting == Count(xs, x.number)
    {
      ghost var ns := Numbers(xs);
      var n := x.number;
      assert (xs + [x])[..|xs|] == xs;
      CountBounds(xs, n);
      NumbersDiffer(xs);
      forall m: byte ensures Count(xs + [x], m) == Count(xs, m) + (if n == m then 1 else 0) {
        CountOneMore(xs, x, m);
      }
      assert Numbers(xs + [x]) == if n in ns then ns else ns + [n];
      hide Count, Numbers;
      index := 0;
      while index < MAX_INTERFACES
        invariant index <= |ns|
        invariant forall k :: 0 <= k < index ==> ns[k] != n
        invariant Describes(xs)
      {
        if entries[index, 0] == -1 {
          entries[index, 0], entries[index, 1] := n as int, 0;
          break;
        } else if entries[index, 0] == n as int {
          entries[index, 1] := entries[index, 1] + 1;
          break;
        }
        index := index + 1;
      }
      altsetting := entries[index, 1];
    }
  }

  /** `find_interface_desc_ex`: the first match, with the request rewritten to both descriptions of it and the number
      of bytes from the descriptor on. */
  method FindInterfaceDescEx(b: seq<byte>, length: nat, q: Request)
    returns (r: Option<Interface>, answer: Request, sizeLeft: nat)
    requires Walkable(b, 0, Min(length, TotalLength(b)))
    requires NumbersFit(Interfaces(b, 0, Min(length, TotalLength(b))))
    ensures var end := Min(length, TotalLength(b));
            var xs := Interfaces(b, 0, end);
            match FirstMatch(q, xs, 0)
            case None => r == None && answer == q
            case Some(i) => r == Some(xs[i]) && answer == Answer(q, xs, i) && sizeLeft == end - xs[i].offset
  {
    var end := if length > TotalLength(b) then TotalLength(b) else length;
    hide Interfaces, Walkable, Numbers, Count, Matches, IndexOf, TotalLength;
    ghost var xs := Interfaces(b, 0, end);
    ghost var i := 0;
    var table := new RankTable();
    var p: nat, size := 0, end;
    answer, sizeLeft := q, 0;
    while size > 0 && At(b, p) as int <= size
      invariant 0 <= size && p + size == end && Walkable(b, p, end)
      invariant i <= |xs| && xs[i..] == Interfaces(b, p, end)
      invariant fresh(table.entries) && table.Describes(xs[..i])
      invariant FirstMatch(q, xs, 0) == FirstMatch(q, xs, i)
      decreases size
    {
      NextDescriptor(b, p, end);
      if At(b, p + 1) == INTERFACE {
        var d := InterfaceAt(b, p);
        assert xs[i] == d && xs[..i] + [d] == xs[..i + 1];
        NumbersGrow(xs, i + 1);
        assert xs[..i + 1][..i] == xs[..i];
        var index, altsetting := table.Enter(xs[..i], d);
        assert index == InterfaceIndex(xs, i) && altsetting == AltsettingIndex(xs, i);
        if Matches(q, d, index, altsetting) {
          answer := q.(interfaceIndex := index % 256, altsettingIndex := altsetting % 256,
                       interfaceNumber := d.number as int, altsettingNumber := d.alternate as int);
          return Some(d), answer, size;
        }
        i := i + 1;
      }
      size, p := size - At(b, p) as int, p + At(b, p) as int;
    }
    WalkStops(b, p, end);
    r := None;
  }
}
