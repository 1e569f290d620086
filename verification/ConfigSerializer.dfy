/** The layout of a configuration (sections 9.6.3, 9.6.5 and 9.6.6 of the USB 2.0 specification), and what the parser
    of libusb/src/descriptors.c makes of it. */
module ConfigSerializer {
  import opened Bytes
  import opened ConfigParser

  // ----- well-formed trees -----

  /** A run of complete descriptors of other kinds. */
  predicate OtherDescriptors(x: seq<byte>)
    decreases |x|
  {
    x == [] || (2 <= |x| && 2 <= x[0] as int <= |x| && !IsProper(x[1]) && OtherDescriptors(x[x[0] as int..]))
  }

  predicate EndpointFits(e: Endpoint) {
    && e.kind == ENDPOINT && (e.length == 9 || (e.length == 7 && e.refresh == 0 && e.synchAddress == 0))
    && 0 <= e.maxPacketSize < 0x1_0000
    && OtherDescriptors(e.extra)
  }

  predicate AltFits(a: AltSetting) {
    && a.length == 9 && a.kind == INTERFACE && |a.endpoints| == a.numEndpoints as int <= MAX_ENDPOINTS
    && (forall i :: 0 <= i < |a.endpoints| ==> EndpointFits(a.endpoints[i]))
    && OtherDescriptors(a.extra)
  }

  /** The settings of one interface: all but the first have a non-zero alternate number. */
  predicate GroupFits(g: seq<AltSetting>) {
    && g != []
    && (forall i :: 0 <= i < |g| ==> AltFits(g[i]))
    && (forall i :: 0 < i < |g| ==> g[i].alternate != 0)
  }

  /** Interfaces after the first start with their setting 0; descriptors of other kinds before the first interface
      belong to the configuration. */
  predicate Fits(c: Configuration) {
    && c.length == 9 && c.kind == CONFIG && |c.interfaces| == c.numInterfaces as int <= MAX_INTERFACES
    && (forall i :: 0 <= i < |c.interfaces| ==> GroupFits(c.interfaces[i]))
    && (forall i :: 0 < i < |c.interfaces| ==> c.interfaces[i][0].alternate == 0)
    && OtherDescriptors(c.extra) && (c.interfaces == [] ==> c.extra == [])
    && c.totalLength == |Serialize(c)| < 0x1_0000
  }

  // ----- layout -----

  function EndpointHeader(e: Endpoint): seq<byte> {
    [e.length, e.kind, e.address, e.attributes] + WordBytes(e.maxPacketSize % 0x1_0000) + [e.interval]
    + (if e.length == 9 then [e.refresh, e.synchAddress] else [])
  }

  function EndpointBytes(e: Endpoint): seq<byte> {
    EndpointHeader(e) + e.extra
  }

  function EndpointsBytes(es: seq<Endpoint>): seq<byte> {
    if es == [] then [] else EndpointBytes(es[0]) + EndpointsBytes(es[1..])
  }

  function AltHeader(a: AltSetting): seq<byte> {
    [a.length, a.kind, a.number, a.alternate, a.numEndpoints, a.interfaceClass, a.subClass, a.protocol, a.name]
  }

  function AltBytes(a: AltSetting): seq<byte> {
    AltHeader(a) + a.extra + EndpointsBytes(a.endpoints)
  }

  function GroupBytes(g: seq<AltSetting>): seq<byte> {
    if g == [] then [] else AltBytes(g[0]) + GroupBytes(g[1..])
  }

  function GroupsBytes(gs: seq<seq<AltSetting>>): seq<byte> {
    if gs == [] then [] else GroupBytes(gs[0]) + GroupsBytes(gs[1..])
  }

  function ConfigHeader(c: Configuration): seq<byte> {
    [c.length, c.kind] + WordBytes(c.totalLength % 0x1_0000)
    + [c.numInterfaces, c.value, c.name, c.attributes, c.maxPower]
  }

  function Serialize(c: Configuration): seq<byte> {
    ConfigHeader(c) + c.extra + GroupsBytes(c.interfaces)
  }

  /** An example: one interface with one audio endpoint, and the bytes it is laid out as. */
  const EXAMPLE_ENDPOINT := Endpoint(9, 5, 0x81, 2, 0x0240, 12, 13, 14, [2, 48])
  const EXAMPLE_SETTING := AltSetting(9, 4, 7, 3, 1, 255, 8, 10, 11, [EXAMPLE_ENDPOINT], [])
  const EXAMPLE := Configuration(9, 2, 29, 1, 5, 6, 128, 50, [[EXAMPLE_SETTING]], [])

  const EXAMPLE_BYTES: seq<byte> :=
    [9, 2, 29, 0, 1, 5, 6, 128, 50] + [9, 4, 7, 3, 1, 255, 8, 10, 11] + [9, 5, 0x81, 2, 0x40, 2, 12, 13, 14] + [2, 48]

  lemma ExampleEndpoint()
    ensures EndpointsBytes([EXAMPLE_ENDPOINT]) == [9, 5, 0x81, 2, 0x40, 2, 12, 13, 14] + [2, 48]
    ensures EndpointFits(EXAMPLE_ENDPOINT)
  {
    assert EndpointHeader(EXAMPLE_ENDPOINT) == [9, 5, 0x81, 2, 0x40, 2, 12, 13, 14];
    assert EndpointsBytes([EXAMPLE_ENDPOINT]) == EndpointBytes(EXAMPLE_ENDPOINT) + EndpointsBytes([]);
    var x: seq<byte> := [2, 48];
    assert x[x[0] as int..] == [] && OtherDescriptors([]);
  }

  lemma ExampleSetting()
    ensures GroupsBytes([[EXAMPLE_SETTING]])
            == [9, 4, 7, 3, 1, 255, 8, 10, 11] + ([9, 5, 0x81, 2, 0x40, 2, 12, 13, 14] + [2, 48])
    ensures AltFits(EXAMPLE_SETTING)
  {
    ExampleEndpoint();
    hide EndpointsBytes, EndpointFits;
    var g := [EXAMPLE_SETTING];
    assert AltBytes(EXAMPLE_SETTING) == AltHeader(EXAMPLE_SETTING) + EndpointsBytes([EXAMPLE_ENDPOINT]);
    assert GroupBytes(g) == AltBytes(EXAMPLE_SETTING) + GroupBytes([]);
    assert GroupsBytes([g]) == GroupBytes(g) + GroupsBytes([]);
  }

  lemma ExampleIsLaidOut()
    ensures Serialize(EXAMPLE) == EXAMPLE_BYTES && Fits(EXAMPLE)
  {
    ExampleSetting();
    hide GroupsBytes, AltFits;
    assert ConfigHeader(EXAMPLE) == [9, 2, 29, 0, 1, 5, 6, 128, 50];
    assert GroupFits([EXAMPLE_SETTING]);
  }

  // ----- parsing undoes the layout, part by part -----

  /** `x` lies at `p` in the first `end` bytes of the buffer. */
  predicate Here(b: seq<byte>, p: nat, end: nat, x: seq<byte>) {
    p + |x| <= end <= |b| && b[p..p + |x|] == x
  }

  lemma HereSplit(b: seq<byte>, p: nat, end: nat, x: seq<byte>, y: seq<byte>)
    requires Here(b, p, end, x + y)
    ensures Here(b, p, end, x) && Here(b, p + |x|, end, y)
  {
    var z := b[p..p + |x + y|];
    assert z[..|x|] == x && z[|x|..] == y;
  }

  lemma HereFits(b: seq<byte>, p: nat, end: nat, x: seq<byte>)
    requires Here(b, p, end, x)
    ensures p + |x| <= end
  {}

  lemma HereAt(b: seq<byte>, p: nat, end: nat, x: seq<byte>, i: nat)
    requires Here(b, p, end, x) && i < |x|
    ensures At(b, p + i) == x[i]
  {
    assert b[p..p + |x|][i] == x[i];
  }

  lemma SliceHere(b: seq<byte>, p: nat, end: nat, x: seq<byte>)
    requires Here(b, p, end, x)
    ensures Slice(b, p, p + |x|) == x
  {
    forall i | 0 <= i < |x| ensures Slice(b, p, p + |x|)[i] == x[i] {
      HereAt(b, p, end, x, i);
    }
  }

  /** Either the bytes end here, or a configuration, interface or endpoint descriptor starts. */
  predicate StopsAt(b: seq<byte>, p: nat, end: nat) {
    p == end || (p + 2 <= end && 2 <= At(b, p) as int <= end - p && IsProper(At(b, p + 1)))
  }

  lemma SkipOne(b: seq<byte>, p: nat, end: nat, strict: bool)
    requires p + 2 <= end && 2 <= At(b, p) as int <= end - p && !IsProper(At(b, p + 1))
    ensures Skip(b, p, end - p, strict) == Skip(b, p + At(b, p) as int, end - (p + At(b, p) as int), strict)
  {
    assert end - p - At(b, p) as int == end - (p + At(b, p) as int);
  }

  lemma SkipNothing(b: seq<byte>, p: nat, end: nat, strict: bool)
    requires StopsAt(b, p, end)
    ensures Skip(b, p, end - p, strict) == Some(p)
  {}

  lemma {:induction false} SkipFinds(b: seq<byte>, p: nat, end: nat, x: seq<byte>, strict: bool)
    requires Here(b, p, end, x) && OtherDescriptors(x) && StopsAt(b, p + |x|, end)
    ensures Skip(b, p, end - p, strict) == Some(p + |x|)
    decreases |x|
  {
    hide Here, At, StopsAt, Skip;
    if x == [] {
      SkipNothing(b, p, end, strict);
    } else {
      HereFits(b, p, end, x);
      HereAt(b, p, end, x, 0);
      HereAt(b, p, end, x, 1);
      var n := x[0] as int;
      assert OtherDescriptors(x[n..]);
      hide OtherDescriptors;
      SkipOne(b, p, end, strict);
      assert x == x[..n] + x[n..];
      HereSplit(b, p, end, x[..n], x[n..]);
      assert p + n + |x[n..]| == p + |x|;
      SkipFinds(b, p + n, end, x[n..], strict);
    }
  }

  /** The header, byte by byte. */
  lemma HeaderOfEndpoint(e: Endpoint)
    requires EndpointFits(e)
    ensures var h := EndpointHeader(e);
            && |h| == e.length as int >= 7 && h[0] == e.length && h[1] == e.kind == ENDPOINT && h[2] == e.address
            && h[3] == e.attributes && h[4] as int + 256 * h[5] as int == e.maxPacketSize && h[6] == e.interval
            && (if e.length == 9 then h[7] == e.refresh && h[8] == e.synchAddress
                else e.length == 7 && e.refresh == 0 && e.synchAddress == 0)
  {
    hide OtherDescriptors;
    var w := WordBytes(e.maxPacketSize);
    assert EndpointHeader(e)[4] == w[0] && EndpointHeader(e)[5] == w[1];
  }

  lemma FieldsOfEndpoint(b: seq<byte>, p: nat, end: nat, e: Endpoint)
    requires EndpointFits(e) && Here(b, p, end, EndpointHeader(e))
    ensures EndpointFields(b, p).(extra := e.extra) == e
    ensures At(b, p) == e.length && At(b, p + 1) == ENDPOINT && |EndpointHeader(e)| == e.length as int
  {
    hide At, Here, EndpointFits, EndpointHeader;
    var h := EndpointHeader(e);
    HeaderOfEndpoint(e);
    forall i | 0 <= i < |h| ensures At(b, p + i) == h[i] {
      HereAt(b, p, end, h, i);
    }
    assert At(b, p + 0) == h[0] && At(b, p + 4 + 1) == At(b, p + 5);
  }

  lemma EndpointParsed(b: seq<byte>, p: nat, end: nat, e: Endpoint)
    requires EndpointFits(e) && Here(b, p, end, EndpointBytes(e)) && StopsAt(b, p + |EndpointBytes(e)|, end)
    ensures ParseEndpoint(b, p, end - p) == Good(e, |EndpointBytes(e)|)
  {
    hide Skip, EndpointFields, EndpointHeader, OtherDescriptors, At, Slice, StopsAt;
    var h := EndpointHeader(e);
    HereSplit(b, p, end, h, e.extra);
    FieldsOfEndpoint(b, p, end, e);
    SkipFinds(b, p + |h|, end, e.extra, false);
    SliceHere(b, p + |h|, end, e.extra);
  }

  /** What follows an endpoint in a list of endpoints. */
  lemma EndpointsStop(b: seq<byte>, p: nat, end: nat, es: seq<Endpoint>)
    requires forall i :: 0 <= i < |es| ==> EndpointFits(es[i])
    requires Here(b, p, end, EndpointsBytes(es)) && StopsAt(b, p + |EndpointsBytes(es)|, end)
    ensures StopsAt(b, p, end)
    ensures if es == [] then EndpointsBytes(es) == [] else p < end && At(b, p + 1) == ENDPOINT
  {
    if es != [] {
      assert EndpointFits(es[0]);
      HereAt(b, p, end, EndpointsBytes(es), 0);
      HereAt(b, p, end, EndpointsBytes(es), 1);
    }
  }

  lemma FirstEndpoint(b: seq<byte>, p: nat, end: nat, e: Endpoint, k: nat, es: seq<Endpoint>, m: nat)
    requires ParseEndpoint(b, p, end - p) == Good(e, k)
    requires ParseEndpoints(b, p + k, end - (p + k), |es|) == Good(es, m)
    ensures ParseEndpoints(b, p, end - p, |[e] + es|) == Good([e] + es, k + m)
  {
    assert end - p - k == end - (p + k);
  }

  lemma {:induction false} EndpointsParsed(b: seq<byte>, p: nat, end: nat, es: seq<Endpoint>)
    requires forall i :: 0 <= i < |es| ==> EndpointFits(es[i])
    requires Here(b, p, end, EndpointsBytes(es)) && StopsAt(b, p + |EndpointsBytes(es)|, end)
    ensures ParseEndpoints(b, p, end - p, |es|) == Good(es, |EndpointsBytes(es)|)
    decreases |es|
  {
    hide EndpointBytes, ParseEndpoint, EndpointFits, StopsAt, Here, At;
    if es != [] {
      var e, rest := es[0], es[1..];
      var x, y := EndpointBytes(e), EndpointsBytes(rest);
      assert EndpointsBytes(es) == x + y;
      HereSplit(b, p, end, x, y);
      EndpointsStop(b, p + |x|, end, rest);
      EndpointParsed(b, p, end, e);
      EndpointsParsed(b, p + |x|, end, rest);
      hide ParseEndpoints, EndpointsBytes;
      FirstEndpoint(b, p, end, e, |x|, rest, |y|);
      assert [e] + rest == es;
    }
  }

  lemma FieldsOfAlt(b: seq<byte>, p: nat, end: nat, a: AltSetting)
    requires Here(b, p, end, AltHeader(a))
    ensures AltFields(b, p) == a.(endpoints := [], extra := []) && |AltHeader(a)| == 9
  {
    var h := AltHeader(a);
    forall i | 0 <= i < |h| ensures At(b, p + i) == h[i] {
      HereAt(b, p, end, h, i);
    }
    assert At(b, p + 0) == h[0];
  }

  /** The bytes end here, or an interface descriptor starts. */
  predicate InterfaceOrEnd(b: seq<byte>, p: nat, end: nat) {
    StopsAt(b, p, end) && (p < end ==> At(b, p + 1) == INTERFACE)
  }

  lemma AltParsed(b: seq<byte>, p: nat, end: nat, a: AltSetting)
    requires AltFits(a) && Here(b, p, end, AltBytes(a)) && InterfaceOrEnd(b, p + |AltBytes(a)|, end)
    ensures ParseAlt(b, p, end - p) == Good((a, false), |AltBytes(a)|)
  {
    hide Skip, AltFields, ParseEndpoints, EndpointFits, OtherDescriptors, Here, At, Slice, AltHeader, EndpointsBytes;
    var h, es := AltHeader(a), EndpointsBytes(a.endpoints);
    assert AltBytes(a) == h + (a.extra + es);
    HereSplit(b, p, end, h, a.extra + es);
    HereSplit(b, p + |h|, end, a.extra, es);
    var q := p + |h| + |a.extra|;
    FieldsOfAlt(b, p, end, a);
    EndpointsStop(b, q, end, a.endpoints);
    SkipFinds(b, p + |h|, end, a.extra, false);
    SliceHere(b, p + |h|, end, a.extra);
    EndpointsParsed(b, q, end, a.endpoints);
  }

  /** The bytes end here, or a new interface starts with its setting 0. */
  predicate GroupEnds(b: seq<byte>, p: nat, end: nat) {
    InterfaceOrEnd(b, p, end) && !AlternateFollows(b, p, end - p)
  }

  lemma GroupStarts(b: seq<byte>, p: nat, end: nat, g: seq<AltSetting>)
    requires g != [] && AltFits(g[0]) && Here(b, p, end, GroupBytes(g))
    ensures end - p >= INTERFACE_LENGTH && InterfaceOrEnd(b, p, end)
    ensures AlternateFollows(b, p, end - p) <==> g[0].alternate != 0
  {
    var x := GroupBytes(g);
    HereAt(b, p, end, x, 0);
    HereAt(b, p, end, x, 1);
    HereAt(b, p, end, x, 3);
  }

  lemma {:induction false} GroupParsed(b: seq<byte>, p: nat, end: nat, g: seq<AltSetting>)
    requires GroupFits(g) && Here(b, p, end, GroupBytes(g)) && GroupEnds(b, p + |GroupBytes(g)|, end)
    ensures ParseInterface(b, p, end - p) == Good(g, |GroupBytes(g)|)
    decreases |g|
  {
    hide AltBytes, ParseAlt, AltFits, StopsAt, Here, At;
    var x, y := AltBytes(g[0]), GroupBytes(g[1..]);
    GroupStarts(b, p, end, g);
    HereSplit(b, p, end, x, y);
    if |g| == 1 {
      AltParsed(b, p, end, g[0]);
      assert g == [g[0]];
    } else {
      GroupStarts(b, p + |x|, end, g[1..]);
      AltParsed(b, p, end, g[0]);
      GroupParsed(b, p + |x|, end, g[1..]);
      assert [g[0]] + g[1..] == g;
    }
  }

  predicate GroupsFit(gs: seq<seq<AltSetting>>) {
    && (forall i :: 0 <= i < |gs| ==> GroupFits(gs[i]))
    && (forall i :: 0 < i < |gs| ==> gs[i][0].alternate == 0)
  }

  lemma FirstGroup(b: seq<byte>, p: nat, q: nat, end: nat, x: seq<byte>, g: seq<AltSetting>,
                   gs: seq<seq<AltSetting>>, extra: seq<byte>, m: nat)
    requires p <= q && ParseGap(b, p, end - p) == Good((x, g), q - p)
    requires ParseInterfaces(b, q, end - q, |gs|, FirstOf(extra, x))
          == Good(Interfaces(gs, FirstOf(FirstOf(extra, x), [])), m)
    ensures ParseInterfaces(b, p, end - p, |[g] + gs|, extra) == Good(Interfaces([g] + gs, FirstOf(extra, x)), q - p + m)
  {
    hide ParseGap;
    assert end - p - (q - p) == end - q;
  }

  lemma NoGroups(b: seq<byte>, p: nat, end: nat, extra: seq<byte>)
    ensures ParseInterfaces(b, p, end - p, 0, extra) == Good(Interfaces([], extra), 0)
  {}

  lemma GapOf(b: seq<byte>, p: nat, q: nat, r: nat, end: nat, g: seq<AltSetting>)
    requires p <= q <= r && Skip(b, p, end - p, true) == Some(q) && ParseInterface(b, q, end - q) == Good(g, r - q)
    ensures ParseGap(b, p, end - p) == Good((Slice(b, p, q), g), r - p)
  {
    hide Skip, ParseInterface, Slice;
    assert end - p - (q - p) == end - q;
  }

  lemma GapParsed(b: seq<byte>, p: nat, q: nat, r: nat, end: nat, x: seq<byte>, g: seq<AltSetting>)
    requires GroupFits(g) && OtherDescriptors(x) && q == p + |x| && r == q + |GroupBytes(g)|
    requires Here(b, p, end, x) && Here(b, q, end, GroupBytes(g)) && GroupEnds(b, r, end)
    ensures ParseGap(b, p, end - p) == Good((x, g), r - p)
  {
    assert AltFits(g[0]);
    hide Skip, ParseInterface, ParseGap, AltFits, OtherDescriptors, Here, At, Slice, GroupBytes, GroupEnds;
    GroupParsed(b, q, end, g);
    GroupStarts(b, q, end, g);
    hide GroupFits;
    SkipFinds(b, p, end, x, true);
    SliceHere(b, p, end, x);
    GapOf(b, p, q, r, end, g);
  }

  /** The interfaces, after the descriptors `x` of other kinds, which only the first may have before it. */
  lemma {:induction false} GroupsParsed(b: seq<byte>, p: nat, q: nat, end: nat, x: seq<byte>, gs: seq<seq<AltSetting>>,
                                        extra: seq<byte>)
    requires GroupsFit(gs) && OtherDescriptors(x) && (gs == [] ==> x == [])
    requires q == p + |x| && end == q + |GroupsBytes(gs)|
    requires Here(b, p, end, x) && Here(b, q, end, GroupsBytes(gs))
    ensures ParseInterfaces(b, p, end - p, |gs|, extra) == Good(Interfaces(gs, FirstOf(extra, x)), end - p)
    decreases |gs|
  {
    assert OtherDescriptors([]);
    hide ParseGap, GroupFits, OtherDescriptors, At, GroupBytes, GroupEnds, ParseInterfaces;
    if gs == [] {
      NoGroups(b, p, end, extra);
    } else {
      var g, rest := gs[0], gs[1..];
      var r := q + |GroupBytes(g)|;
      RestFits(gs);
      HereSplit(b, q, end, GroupBytes(g), GroupsBytes(rest));
      assert Here(b, r, end, []);
      hide GroupsBytes, FirstOf, Here, GroupsFit, LaterGroups;
      GroupsParsed(b, r, r, end, [], rest, FirstOf(extra, x));
      GroupThenRest(b, p, q, r, end, x, g, rest, extra);
    }
  }

  lemma GroupThenRest(b: seq<byte>, p: nat, q: nat, r: nat, end: nat, x: seq<byte>, g: seq<AltSetting>,
                      rest: seq<seq<AltSetting>>, extra: seq<byte>)
    requires GroupFits(g) && LaterGroups(rest) && OtherDescriptors(x)
    requires q == p + |x| && r == q + |GroupBytes(g)| && end == r + |GroupsBytes(rest)|
    requires Here(b, p, end, x) && Here(b, q, end, GroupBytes(g)) && Here(b, r, end, GroupsBytes(rest))
    requires ParseInterfaces(b, r, end - r, |rest|, FirstOf(extra, x))
          == Good(Interfaces(rest, FirstOf(FirstOf(extra, x), [])), end - r)
    ensures ParseInterfaces(b, p, end - p, |[g] + rest|, extra)
            == Good(Interfaces([g] + rest, FirstOf(extra, x)), end - p)
  {
    hide *;
    NextGroup(b, r, end, rest);
    GapParsed(b, p, q, r, end, x, g);
    FirstGroup(b, p, r, end, x, g, rest, extra, end - r);
  }

  predicate LaterGroups(gs: seq<seq<AltSetting>>) {
    forall i :: 0 <= i < |gs| ==> GroupFits(gs[i]) && gs[i][0].alternate == 0
  }

  lemma RestFits(gs: seq<seq<AltSetting>>)
    requires GroupsFit(gs) && gs != []
    ensures GroupFits(gs[0]) && GroupsFit(gs[1..]) && LaterGroups(gs[1..]) && [gs[0]] + gs[1..] == gs
  {
    hide AltFits;
  }

  /** After a group the bytes end, or the next group starts with its setting 0. */
  lemma NextGroup(b: seq<byte>, p: nat, end: nat, gs: seq<seq<AltSetting>>)
    requires LaterGroups(gs)
    requires Here(b, p, end, GroupsBytes(gs)) && p + |GroupsBytes(gs)| == end
    ensures GroupEnds(b, p, end)
  {
    if gs != [] {
      assert GroupFits(gs[0]);
      HereSplit(b, p, end, GroupBytes(gs[0]), GroupsBytes(gs[1..]));
      GroupStarts(b, p, end, gs[0]);
    }
  }

  lemma FieldsOfConfig(b: seq<byte>, end: nat, c: Configuration)
    requires Here(b, 0, end, ConfigHeader(c)) && 0 <= c.totalLength < 0x1_0000
    ensures ConfigFields(b) == c.(interfaces := [], extra := []) && |ConfigHeader(c)| == 9
  {
    var h := ConfigHeader(c);
    forall i | 0 <= i < |h| ensures At(b, 0 + i) == h[i] {
      HereAt(b, 0, end, h, i);
    }
    var w := WordBytes(c.totalLength);
    assert h[2] == w[0] && h[3] == w[1];
    assert At(b, 0 + 0) == h[0] && At(b, 0 + 1) == h[1] && At(b, 0 + 2) == h[2] && At(b, 0 + 3) == h[3];
    assert At(b, 0 + 4) == h[4] && At(b, 0 + 5) == h[5] && At(b, 0 + 6) == h[6] && At(b, 0 + 7) == h[7];
  }

  /** The example, byte by byte. */
  lemma ExampleIsParsed()
    ensures ParseConfiguration(EXAMPLE_BYTES) == Some((EXAMPLE, 0))
  {
    ExampleIsLaidOut();
    hide ParseConfiguration, Fits, Serialize;
    ParserUndoesSerializer(EXAMPLE, []);
    assert EXAMPLE_BYTES + [] == EXAMPLE_BYTES;
  }

  /** Parsing a serialized configuration, whatever follows it in the buffer, rebuilds exactly that configuration, with
      every run of other descriptors at its owner, and leaves no bytes over. */
  lemma ParserUndoesSerializer(c: Configuration, rest: seq<byte>)
    requires Fits(c)
    ensures ParseConfiguration(Serialize(c) + rest) == Some((c, 0))
  {
    hide ParseInterfaces, GroupsBytes, OtherDescriptors, GroupFits, At, ConfigHeader;
    var b, end := Serialize(c) + rest, |Serialize(c)|;
    var h, x, y := ConfigHeader(c), c.extra, GroupsBytes(c.interfaces);
    assert b[0..0 + |Serialize(c)|] == Serialize(c) == h + (x + y);
    assert Here(b, 0, end, h + (x + y));
    hide Here;
    HereSplit(b, 0, end, h, x + y);
    FieldsOfConfig(b, end, c);
    HereSplit(b, 9, end, x, y);
    GroupsParsed(b, 9, 9 + |x|, end, x, c.interfaces, []);
  }
}
