/** The interface walkers of the driver on configurations laid out by module ConfigSerializer: they meet the interfaces
    that the library's parser finds. */
module SerializedInterfaces {
  import opened Bytes
  import opened ConfigParser
  import opened ConfigSerializer
  import Walk = InterfaceLookup

  /** Number and alternate setting of every setting of one interface, and of all interfaces, in order. */
  function GroupPairs(g: seq<AltSetting>): seq<(byte, byte)> {
    if g == [] then [] else [(g[0].number, g[0].alternate)] + GroupPairs(g[1..])
  }

  function Pairs(gs: seq<seq<AltSetting>>): seq<(byte, byte)> {
    if gs == [] then [] else GroupPairs(gs[0]) + Pairs(gs[1..])
  }

  /** What the walk from `p` on meets. */
  function Met(b: seq<byte>, p: nat, end: nat): seq<(byte, byte)> {
    var xs := Walk.Interfaces(b, p, end);
    seq(|xs|, i requires 0 <= i < |xs| => (xs[i].number, xs[i].alternate))
  }

  /** From `p` to `q` the walk meets just these. */
  predicate Meets(b: seq<byte>, p: nat, q: nat, end: nat, pairs: seq<(byte, byte)>) {
    && p <= q && Met(b, p, end) == pairs + Met(b, q, end)
    && (Walk.Walkable(b, q, end) ==> Walk.Walkable(b, p, end))
  }

  lemma MeetsNothing(b: seq<byte>, p: nat, end: nat)
    ensures Meets(b, p, p, end, [])
  {
    assert [] + Met(b, p, end) == Met(b, p, end);
  }

  lemma MeetsBoth(b: seq<byte>, p: nat, q: nat, r: nat, end: nat, x: seq<(byte, byte)>, y: seq<(byte, byte)>)
    requires Meets(b, p, q, end, x) && Meets(b, q, r, end, y)
    ensures Meets(b, p, r, end, x + y)
  {
    assert x + (y + Met(b, r, end)) == x + y + Met(b, r, end);
  }

  /** One descriptor. */
  lemma MeetsOne(b: seq<byte>, p: nat, end: nat)
    requires 0 < At(b, p) as int <= end - p
    ensures Meets(b, p, p + At(b, p) as int, end, if At(b, p + 1) == 4 then [(At(b, p + 2), At(b, p + 3))] else [])
  {
    var q := p + At(b, p) as int;
    var x := if At(b, p + 1) == 4 then [(At(b, p + 2), At(b, p + 3))] else [];
    assert Met(b, p, end) == x + Met(b, q, end);
  }

  lemma {:induction false} OthersMet(b: seq<byte>, p: nat, end: nat, x: seq<byte>)
    requires Here(b, p, end, x) && OtherDescriptors(x)
    ensures Meets(b, p, p + |x|, end, [])
    decreases |x|
  {
    hide Here, At, Meets;
    if x == [] {
      MeetsNothing(b, p, end);
    } else {
      HereFits(b, p, end, x);
      HereAt(b, p, end, x, 0);
      HereAt(b, p, end, x, 1);
      var n := x[0] as int;
      MeetsOne(b, p, end);
      assert x == x[..n] + x[n..];
      HereSplit(b, p, end, x[..n], x[n..]);
      OthersMet(b, p + n, end, x[n..]);
      MeetsBoth(b, p, p + n, p + |x|, end, [], []);
    }
  }

  lemma EndpointMet(b: seq<byte>, p: nat, end: nat, e: Endpoint)
    requires EndpointFits(e) && Here(b, p, end, EndpointBytes(e))
    ensures Meets(b, p, p + |EndpointBytes(e)|, end, [])
  {
    hide Here, Meets, OtherDescriptors, EndpointHeader;
    HereSplit(b, p, end, EndpointHeader(e), e.extra);
    FieldsOfEndpoint(b, p, end, e);
    HereFits(b, p, end, EndpointHeader(e));
    MeetsOne(b, p, end);
    OthersMet(b, p + e.length as int, end, e.extra);
    MeetsBoth(b, p, p + e.length as int, p + |EndpointBytes(e)|, end, [], []);
  }

  lemma {:induction false} EndpointsMet(b: seq<byte>, p: nat, end: nat, es: seq<Endpoint>)
    requires Here(b, p, end, EndpointsBytes(es)) && forall i :: 0 <= i < |es| ==> EndpointFits(es[i])
    ensures Meets(b, p, p + |EndpointsBytes(es)|, end, [])
    decreases |es|
  {
    hide Here, Meets, EndpointBytes, EndpointFits;
    if es == [] {
      MeetsNothing(b, p, end);
    } else {
      HereSplit(b, p, end, EndpointBytes(es[0]), EndpointsBytes(es[1..]));
      EndpointMet(b, p, end, es[0]);
      var q := p + |EndpointBytes(es[0])|;
      EndpointsMet(b, q, end, es[1..]);
      MeetsBoth(b, p, q, p + |EndpointsBytes(es)|, end, [], []);
    }
  }

  lemma AltHeaderMet(b: seq<byte>, p: nat, end: nat, a: AltSetting)
    requires a.length == 9 && a.kind == INTERFACE && Here(b, p, end, AltHeader(a))
    ensures Meets(b, p, p + 9, end, [(a.number, a.alternate)])
  {
    hide Here, Meets, At;
    var h := AltHeader(a);
    HereFits(b, p, end, h);
    HereAt(b, p, end, h, 0);
    HereAt(b, p, end, h, 1);
    HereAt(b, p, end, h, 2);
    HereAt(b, p, end, h, 3);
    MeetsOne(b, p, end);
  }

  lemma AltFitsIs(a: AltSetting)
    requires AltFits(a)
    ensures a.length == 9 && a.kind == INTERFACE && OtherDescriptors(a.extra)
    ensures forall i :: 0 <= i < |a.endpoints| ==> EndpointFits(a.endpoints[i])
  {
    hide OtherDescriptors, EndpointFits;
  }

  lemma AltBytesAre(a: AltSetting)
    ensures AltBytes(a) == AltHeader(a) + (a.extra + EndpointsBytes(a.endpoints)) && |AltHeader(a)| == 9
  {
    hide EndpointsBytes;
  }

  lemma AltMet(b: seq<byte>, p: nat, end: nat, a: AltSetting)
    requires AltFits(a) && Here(b, p, end, AltBytes(a))
    ensures Meets(b, p, p + |AltBytes(a)|, end, [(a.number, a.alternate)])
  {
    hide *;
    var h, x, y := AltHeader(a), a.extra, EndpointsBytes(a.endpoints);
    AltFitsIs(a);
    AltBytesAre(a);
    HereSplit(b, p, end, h, x + y);
    AltHeaderMet(b, p, end, a);
    HereSplit(b, p + 9, end, x, y);
    OthersMet(b, p + 9, end, x);
    EndpointsMet(b, p + 9 + |x|, end, a.endpoints);
    var pairs := [(a.number, a.alternate)];
    MeetsBoth(b, p, p + 9, p + 9 + |x|, end, pairs, []);
    assert pairs + [] == pairs;
    MeetsBoth(b, p, p + 9 + |x|, p + |AltBytes(a)|, end, pairs, []);
  }

  lemma {:induction false} GroupMet(b: seq<byte>, p: nat, end: nat, g: seq<AltSetting>)
    requires Here(b, p, end, GroupBytes(g)) && forall i :: 0 <= i < |g| ==> AltFits(g[i])
    ensures Meets(b, p, p + |GroupBytes(g)|, end, GroupPairs(g))
    decreases |g|
  {
    hide Here, Meets, AltBytes, AltFits;
    if g == [] {
      MeetsNothing(b, p, end);
    } else {
      HereSplit(b, p, end, AltBytes(g[0]), GroupBytes(g[1..]));
      AltMet(b, p, end, g[0]);
      var q := p + |AltBytes(g[0])|;
      GroupMet(b, q, end, g[1..]);
      MeetsBoth(b, p, q, p + |GroupBytes(g)|, end, [(g[0].number, g[0].alternate)], GroupPairs(g[1..]));
    }
  }

  lemma {:induction false} GroupsMet(b: seq<byte>, p: nat, end: nat, gs: seq<seq<AltSetting>>)
    requires Here(b, p, end, GroupsBytes(gs)) && forall i :: 0 <= i < |gs| ==> GroupFits(gs[i])
    ensures Meets(b, p, p + |GroupsBytes(gs)|, end, Pairs(gs))
    decreases |gs|
  {
    hide Here, Meets, GroupBytes, GroupPairs, AltFits;
    if gs == [] {
      MeetsNothing(b, p, end);
    } else {
      HereSplit(b, p, end, GroupBytes(gs[0]), GroupsBytes(gs[1..]));
      assert GroupFits(gs[0]);
      GroupMet(b, p, end, gs[0]);
      var q := p + |GroupBytes(gs[0])|;
      GroupsMet(b, q, end, gs[1..]);
      MeetsBoth(b, p, q, p + |GroupsBytes(gs)|, end, GroupPairs(gs[0]), Pairs(gs[1..]));
    }
  }

  lemma NothingBehind(b: seq<byte>, end: nat)
    ensures Met(b, end, end) == [] && Walk.Walkable(b, end, end)
  {}

  lemma MeetsAll(b: seq<byte>, end: nat, pairs: seq<(byte, byte)>)
    requires Meets(b, 0, end, end, pairs)
    ensures Met(b, 0, end) == pairs && Walk.Walkable(b, 0, end)
  {
    NothingBehind(b, end);
    assert pairs + [] == pairs;
  }

  lemma ConfigHeaderMet(b: seq<byte>, end: nat, c: Configuration)
    requires c.length == 9 && c.kind == CONFIG && 0 <= c.totalLength < 0x1_0000 && Here(b, 0, end, ConfigHeader(c))
    ensures Meets(b, 0, 9, end, []) && |ConfigHeader(c)| == 9 && Walk.TotalLength(b) == c.totalLength
  {
    HereFits(b, 0, end, ConfigHeader(c));
    FieldsOfConfig(b, end, c);
    hide Here, Meets, At, ConfigHeader, Word;
    MeetsOne(b, 0, end);
  }

  lemma SerializedHere(c: Configuration, rest: seq<byte>)
    ensures Here(Serialize(c) + rest, 0, |Serialize(c)|, ConfigHeader(c) + (c.extra + GroupsBytes(c.interfaces)))
    ensures |Serialize(c)| == |ConfigHeader(c)| + |c.extra| + |GroupsBytes(c.interfaces)|
  {
    hide ConfigHeader, GroupsBytes;
    var b := Serialize(c) + rest;
    assert b[0..0 + |Serialize(c)|] == Serialize(c);
    assert Serialize(c) == ConfigHeader(c) + (c.extra + GroupsBytes(c.interfaces));
  }

  lemma FitsIs(c: Configuration)
    requires Fits(c)
    ensures c.length == 9 && c.kind == CONFIG && c.totalLength == |Serialize(c)| < 0x1_0000 && OtherDescriptors(c.extra)
    ensures forall i :: 0 <= i < |c.interfaces| ==> GroupFits(c.interfaces[i])
  {
    hide Serialize, OtherDescriptors, GroupFits;
  }

  /** The two readings of a configuration agree: the driver's walk over a serialized configuration, whatever follows it in
      the buffer, meets exactly the settings of its interfaces, in their order, which are those that the library parses;
      and no walk over it stands still. */
  lemma WalkersAgreeWithParser(c: Configuration, rest: seq<byte>)
    requires Fits(c)
    ensures var b := Serialize(c) + rest;
            && Walk.TotalLength(b) == |Serialize(c)| && Walk.Walkable(b, 0, |Serialize(c)|)
            && Met(b, 0, |Serialize(c)|) == Pairs(c.interfaces)
            && ParseConfiguration(b) == Some((c, 0))
  {
    hide *;
    ParserUndoesSerializer(c, rest);
    FitsIs(c);
    SerializedHere(c, rest);
    var b, end := Serialize(c) + rest, |Serialize(c)|;
    var h, x, y := ConfigHeader(c), c.extra, GroupsBytes(c.interfaces);
    HereSplit(b, 0, end, h, x + y);
    ConfigHeaderMet(b, end, c);
    HereSplit(b, 9, end, x, y);
    OthersMet(b, 9, end, x);
    GroupsMet(b, 9 + |x|, end, c.interfaces);
    MeetsBoth(b, 0, 9, 9 + |x|, end, [], []);
    MeetsBoth(b, 0, 9 + |x|, end, end, [], Pairs(c.interfaces));
    assert [] + Pairs(c.interfaces) == Pairs(c.interfaces);
    MeetsAll(b, end, Pairs(c.interfaces));
  }
}
