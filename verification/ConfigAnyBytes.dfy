/** The configuration parser of libusb/src/descriptors.c on arbitrary bytes, well-formed or not. */
module ConfigAnyBytes {
  import opened Bytes
  import opened ConfigParser

  /** A place where a skip loop has nothing to skip. */
  predicate AtStop(b: seq<byte>, p: nat, size: int) {
    size < HEADER_LENGTH || IsProper(At(b, p + 1))
  }

  lemma {:induction false} SkipEndsAtStop(b: seq<byte>, p: nat, size: int, strict: bool)
    requires Skip(b, p, size, strict).Some?
    ensures var q := Skip(b, p, size, strict).value; AtStop(b, q, size - (q - p))
    decreases if size < 0 then 0 else size
  {
    var n := At(b, p) as int;
    if size >= HEADER_LENGTH && !IsProper(At(b, p + 1)) {
      SkipEndsAtStop(b, p + n, size - n, strict);
      var q := Skip(b, p, size, strict).value;
      assert size - n - (q - (p + n)) == size - (q - p);
    }
  }

  lemma EndpointEndsAtStop(b: seq<byte>, p: nat, size: int)
    requires AtStop(b, p, size) && ParseEndpoint(b, p, size).Good?
    ensures var k := ParseEndpoint(b, p, size).length; AtStop(b, p + k, size - k)
  {
    var n := At(b, p) as int;
    if At(b, p + 1) == ENDPOINT {
      SkipEndsAtStop(b, p + n, size - n, false);
      var q := Skip(b, p + n, size - n, false).value;
      assert p + (q - p) == q && size - n - (q - (p + n)) == size - (q - p);
    }
  }

  lemma {:induction false} EndpointsEndAtStop(b: seq<byte>, p: nat, size: int, n: nat)
    requires AtStop(b, p, size) && ParseEndpoints(b, p, size, n).Good?
    ensures var k := ParseEndpoints(b, p, size, n).length; AtStop(b, p + k, size - k)
    decreases n
  {
    hide ParseEndpoint, AtStop;
    if n > 0 {
      var k := ParseEndpoint(b, p, size).length;
      EndpointEndsAtStop(b, p, size);
      EndpointsEndAtStop(b, p + k, size - k, n - 1);
      var m := ParseEndpoints(b, p + k, size - k, n - 1).length;
      assert p + k + m == p + (k + m) && size - k - m == size - (k + m);
    }
  }

  lemma AltEndsAtStop(b: seq<byte>, p: nat, size: int)
    requires ParseAlt(b, p, size).Good?
    ensures var k := ParseAlt(b, p, size).length; AtStop(b, p + k, size - k)
  {
    hide Skip, ParseEndpoints, AtStop;
    var n := At(b, p) as int;
    SkipEndsAtStop(b, p + n, size - n, false);
    var q := Skip(b, p + n, size - n, false).value;
    assert size - n - (q - (p + n)) == size - (q - p) && p + (q - p) == q;
    var r := ParseEndpoints(b, q, size - (q - p), At(b, p + 4) as int);
    if !ParseAlt(b, p, size).value.1 {
      EndpointsEndAtStop(b, q, size - (q - p), At(b, p + 4) as int);
      assert p + (q - p + r.length) == q + r.length && size - (q - p) - r.length == size - (q - p + r.length);
    }
  }

  lemma {:induction false} InterfaceEndsAtStop(b: seq<byte>, p: nat, size: int)
    requires AtStop(b, p, size) && ParseInterface(b, p, size).Good?
    ensures var k := ParseInterface(b, p, size).length; AtStop(b, p + k, size - k)
    decreases if size < 0 then 0 else size
  {
    hide ParseAlt, AtStop;
    if size >= INTERFACE_LENGTH {
      AltEndsAtStop(b, p, size);
      var k := ParseAlt(b, p, size).length;
      if !ParseAlt(b, p, size).value.1 && AlternateFollows(b, p + k, size - k) {
        InterfaceEndsAtStop(b, p + k, size - k);
        var m := ParseInterface(b, p + k, size - k).length;
        assert p + k + m == p + (k + m) && size - k - m == size - (k + m);
      }
    }
  }

  /** An interface starts where the skip loop stopped, and the next turn of the loop starts where it ended. */
  lemma GapEndsAtStop(b: seq<byte>, p: nat, size: int)
    requires ParseGap(b, p, size).Good?
    ensures var k := ParseGap(b, p, size).length; AtStop(b, p + k, size - k)
    ensures AtStop(b, p, size) ==> ParseGap(b, p, size).value.0 == []
  {
    hide ParseInterface;
    var q := Skip(b, p, size, true).value;
    SkipEndsAtStop(b, p, size, true);
    InterfaceEndsAtStop(b, q, size - (q - p));
    var m := ParseInterface(b, q, size - (q - p)).length;
    assert p + (q - p + m) == q + m && size - (q - p) - m == size - (q - p + m);
  }

  /** No turn of the loop over the interfaces skips anything. */
  predicate NothingSkipped(b: seq<byte>, p: nat, size: int, n: nat)
    decreases n
  {
    n == 0 || ParseGap(b, p, size).Bad?
    || (ParseGap(b, p, size).value.0 == []
        && var k := ParseGap(b, p, size).length; NothingSkipped(b, p + k, size - k, n - 1))
  }

  lemma {:induction false} LaterGapsAreEmpty(b: seq<byte>, p: nat, size: int, n: nat)
    requires AtStop(b, p, size)
    ensures NothingSkipped(b, p, size, n)
    decreases n
  {
    hide ParseGap, AtStop;
    if n > 0 && ParseGap(b, p, size).Good? {
      GapEndsAtStop(b, p, size);
      var k := ParseGap(b, p, size).length;
      LaterGapsAreEmpty(b, p + k, size - k, n - 1);
    }
  }

  lemma {:induction false} ExtraIsKept(b: seq<byte>, p: nat, size: int, n: nat, extra: seq<byte>)
    requires NothingSkipped(b, p, size, n) && ParseInterfaces(b, p, size, n, extra).Good?
    ensures ParseInterfaces(b, p, size, n, extra).value.extra == extra
    decreases n
  {
    hide ParseGap;
    if n > 0 {
      var g := ParseGap(b, p, size);
      assert FirstOf(extra, g.value.0) == extra;
      ExtraIsKept(b, p + g.length, size - g.length, n - 1, extra);
    }
  }

  /** On every input, from the second interface on the loop of `usb_parse_configuration` skips nothing: whatever was
      skipped before the first interface is the configuration's `extra`, and nothing is ever dropped. */
  lemma NothingIsDropped(b: seq<byte>, p: nat, size: int, n: nat)
    requires n > 0 && ParseGap(b, p, size).Good?
    ensures var g := ParseGap(b, p, size);
            && NothingSkipped(b, p + g.length, size - g.length, n - 1)
            && (ParseInterfaces(b, p, size, n, []).Good? ==>
                  ParseInterfaces(b, p, size, n, []).value.extra == g.value.0)
  {
    hide ParseGap, AtStop, NothingSkipped;
    var g := ParseGap(b, p, size);
    GapEndsAtStop(b, p, size);
    LaterGapsAreEmpty(b, p + g.length, size - g.length, n - 1);
    if ParseInterfaces(b, p, size, n, []).Good? {
      ExtraIsKept(b, p + g.length, size - g.length, n - 1, g.value.0);
    }
  }

  lemma {:induction false} EveryInterfaceParsed(b: seq<byte>, p: nat, size: int, n: nat, extra: seq<byte>)
    requires ParseInterfaces(b, p, size, n, extra).Good?
    ensures |ParseInterfaces(b, p, size, n, extra).value.list| == n
    decreases n
  {
    hide ParseGap;
    if n > 0 {
      var g := ParseGap(b, p, size);
      EveryInterfaceParsed(b, p + g.length, size - g.length, n - 1, FirstOf(extra, g.value.0));
    }
  }

  /** What `usb_parse_configuration` delivers on any input it accepts: as many interfaces as announced (32 at most), and
      the bytes before the first one as the configuration's extra bytes. */
  lemma AcceptedConfiguration(b: seq<byte>)
    requires ParseConfiguration(b).Some?
    ensures var c := ParseConfiguration(b).value.0;
            && |c.interfaces| == c.numInterfaces as int <= MAX_INTERFACES
            && c.extra == (if c.interfaces == [] then []
                           else var p := c.length as int;
                                Slice(b, p, Skip(b, p, c.totalLength - p, true).value))
  {
    var c := ConfigFields(b);
    var p, size, n := c.length as int, c.totalLength - c.length as int, c.numInterfaces as int;
    hide ConfigFields, Skip, ParseInterface, Slice;
    EveryInterfaceParsed(b, p, size, n, []);
    if n > 0 {
      NothingIsDropped(b, p, size, n);
    }
  }

  // ----- how far the extra bytes reach -----

  /** The bytes are a stretch of the buffer that ends at `limit` or before. */
  ghost predicate From(b: seq<byte>, x: seq<byte>, limit: int) {
    exists i: nat, j: nat :: i <= j <= limit && x == Slice(b, i, j)
  }

  ghost predicate EndpointsFrom(b: seq<byte>, es: seq<Endpoint>, limit: int) {
    forall i :: 0 <= i < |es| ==> From(b, es[i].extra, limit)
  }

  ghost predicate AltsFrom(b: seq<byte>, alts: seq<AltSetting>, limit: int) {
    forall i :: 0 <= i < |alts| ==> From(b, alts[i].extra, limit) && EndpointsFrom(b, alts[i].endpoints, limit)
  }

  ghost predicate InterfacesFrom(b: seq<byte>, list: seq<seq<AltSetting>>, limit: int) {
    forall i :: 0 <= i < |list| ==> AltsFrom(b, list[i], limit)
  }

  lemma FromFurther(b: seq<byte>, x: seq<byte>, m: int, n: int)
    requires From(b, x, m) && m <= n
    ensures From(b, x, n)
  {}

  lemma EndpointsFromFurther(b: seq<byte>, es: seq<Endpoint>, m: int, n: int)
    requires EndpointsFrom(b, es, m) && m <= n
    ensures EndpointsFrom(b, es, n)
  {
    hide From;
    forall i | 0 <= i < |es| ensures From(b, es[i].extra, n) {
      FromFurther(b, es[i].extra, m, n);
    }
  }

  lemma AltsFromFurther(b: seq<byte>, alts: seq<AltSetting>, m: int, n: int)
    requires AltsFrom(b, alts, m) && m <= n
    ensures AltsFrom(b, alts, n)
  {
    hide From, EndpointsFrom;
    forall i | 0 <= i < |alts| ensures From(b, alts[i].extra, n) && EndpointsFrom(b, alts[i].endpoints, n) {
      FromFurther(b, alts[i].extra, m, n);
      EndpointsFromFurther(b, alts[i].endpoints, m, n);
    }
  }

  lemma InterfacesFromFurther(b: seq<byte>, list: seq<seq<AltSetting>>, m: int, n: int)
    requires InterfacesFrom(b, list, m) && m <= n
    ensures InterfacesFrom(b, list, n)
  {
    hide AltsFrom;
    forall i | 0 <= i < |list| ensures AltsFrom(b, list[i], n) {
      AltsFromFurther(b, list[i], m, n);
    }
  }

  lemma SliceFrom(b: seq<byte>, i: nat, j: nat)
    requires i <= j
    ensures From(b, Slice(b, i, j), j)
  {}

  lemma NothingFrom(b: seq<byte>, limit: nat)
    ensures From(b, [], limit)
  {
    assert Slice(b, 0, 0) == [];
  }

  lemma EndpointReach(b: seq<byte>, p: nat, size: int)
    requires ParseEndpoint(b, p, size).Good?
    ensures From(b, ParseEndpoint(b, p, size).value.extra, p + ParseEndpoint(b, p, size).length)
  {
    hide Skip, Slice, From;
    var n := At(b, p) as int;
    if At(b, p + 1) == ENDPOINT {
      var q := Skip(b, p + n, size - n, false).value;
      SliceFrom(b, p + n, q);
      assert p + (q - p) == q;
    } else {
      NothingFrom(b, p);
    }
  }

  lemma {:induction false} EndpointsReach(b: seq<byte>, p: nat, size: int, n: nat)
    requires ParseEndpoints(b, p, size, n).Good?
    ensures EndpointsFrom(b, ParseEndpoints(b, p, size, n).value, p + ParseEndpoints(b, p, size, n).length)
    decreases n
  {
    hide ParseEndpoint, From;
    if n > 0 {
      var k := ParseEndpoint(b, p, size).length;
      var m := ParseEndpoints(b, p + k, size - k, n - 1).length;
      EndpointReach(b, p, size);
      EndpointsReach(b, p + k, size - k, n - 1);
      FromFurther(b, ParseEndpoint(b, p, size).value.extra, p + k, p + (k + m));
      assert p + k + m == p + (k + m);
    }
  }

  lemma AltReach(b: seq<byte>, p: nat, size: int)
    requires ParseAlt(b, p, size).Good?
    ensures var r := ParseAlt(b, p, size);
            From(b, r.value.0.extra, p + r.length) && EndpointsFrom(b, r.value.0.endpoints, p + r.length)
  {
    hide Skip, Slice, From, ParseEndpoints;
    var n := At(b, p) as int;
    var q := Skip(b, p + n, size - n, false).value;
    var r := ParseAlt(b, p, size);
    SliceFrom(b, p + n, q);
    assert p + (q - p) == q;
    if !r.value.1 {
      var left := size - (q - p);
      EndpointsReach(b, q, left, At(b, p + 4) as int);
      var k := ParseEndpoints(b, q, left, At(b, p + 4) as int).length;
      assert p + (q - p + k) == q + k;
      FromFurther(b, Slice(b, p + n, q), q, q + k);
    }
  }

  lemma {:induction false} InterfaceReach(b: seq<byte>, p: nat, size: int)
    requires ParseInterface(b, p, size).Good?
    ensures AltsFrom(b, ParseInterface(b, p, size).value, p + ParseInterface(b, p, size).length)
    decreases if size < 0 then 0 else size
  {
    hide ParseAlt, From, EndpointsFrom;
    if size >= INTERFACE_LENGTH {
      AltReach(b, p, size);
      var r := ParseAlt(b, p, size);
      var k := r.length;
      if !r.value.1 && AlternateFollows(b, p + k, size - k) {
        var m := ParseInterface(b, p + k, size - k).length;
        AltPositive(b, p, size);
        InterfaceReach(b, p + k, size - k);
        FromFurther(b, r.value.0.extra, p + k, p + (k + m));
        EndpointsFromFurther(b, r.value.0.endpoints, p + k, p + (k + m));
        assert p + k + m == p + (k + m);
      }
    }
  }

  lemma AltPositive(b: seq<byte>, p: nat, size: int)
    requires ParseAlt(b, p, size).Good? && size >= HEADER_LENGTH
    ensures ParseAlt(b, p, size).length > 0
  {}

  lemma GapReach(b: seq<byte>, p: nat, size: int)
    requires ParseGap(b, p, size).Good?
    ensures var r := ParseGap(b, p, size);
            From(b, r.value.0, p + r.length) && AltsFrom(b, r.value.1, p + r.length)
  {
    hide Skip, Slice, From, ParseInterface, AltsFrom;
    var q := Skip(b, p, size, true).value;
    var k := ParseInterface(b, q, size - (q - p)).length;
    SliceFrom(b, p, q);
    InterfaceReach(b, q, size - (q - p));
    assert p + (q - p + k) == q + k;
    FromFurther(b, Slice(b, p, q), q, q + k);
  }

  lemma {:induction false} InterfacesReach(b: seq<byte>, p: nat, size: int, n: nat, extra: seq<byte>)
    requires ParseInterfaces(b, p, size, n, extra).Good? && From(b, extra, p)
    ensures var r := ParseInterfaces(b, p, size, n, extra);
            From(b, r.value.extra, p + r.length) && InterfacesFrom(b, r.value.list, p + r.length)
    decreases n
  {
    hide ParseGap, From, AltsFrom;
    if n > 0 {
      var g := ParseGap(b, p, size);
      var k := g.length;
      var m := ParseInterfaces(b, p + k, size - k, n - 1, FirstOf(extra, g.value.0)).length;
      GapReach(b, p, size);
      FromFurther(b, extra, p, p + k);
      InterfacesReach(b, p + k, size - k, n - 1, FirstOf(extra, g.value.0));
      AltsFromFurther(b, g.value.1, p + k, p + (k + m));
      assert p + k + m == p + (k + m);
    }
  }

  /** On any accepted input the bytes kept as extra, of the configuration, its interfaces and their endpoints, come from
      before the place where parsing ended; so if the number of bytes left is not negative, none comes from beyond
      wTotalLength. */
  lemma ExtraStaysInside(b: seq<byte>)
    requires ParseConfiguration(b).Some?
    ensures var (c, left) := ParseConfiguration(b).value;
            && From(b, c.extra, c.totalLength - left) && InterfacesFrom(b, c.interfaces, c.totalLength - left)
            && (left >= 0 ==> From(b, c.extra, c.totalLength) && InterfacesFrom(b, c.interfaces, c.totalLength))
  {
    var c := ConfigFields(b);
    var p, size, n := c.length as int, c.totalLength - c.length as int, c.numInterfaces as int;
    hide ConfigFields, ParseInterfaces, From, InterfacesFrom;
    NothingFrom(b, p);
    InterfacesReach(b, p, size, n, []);
    var k := ParseInterfaces(b, p, size, n, []).length;
    assert c.totalLength - (size - k) == p + k;
    var r := ParseInterfaces(b, p, size, n, []).value;
    if size - k >= 0 {
      FromFurther(b, r.extra, p + k, c.totalLength);
      InterfacesFromFurther(b, r.list, p + k, c.totalLength);
    }
  }

  // ----- when the number of bytes left is negative -----

  /** A descriptor that starts at `limit` or before ends at `end`, beyond it. */
  ghost predicate Straddles(b: seq<byte>, end: int, limit: int) {
    exists q: nat :: q <= limit < end && end == q + At(b, q) as int
  }

  /** What is parsed from `p` on stays inside `size` bytes, or its last descriptor straddles their end; with nothing left
      nothing is parsed. */
  ghost predicate Within(b: seq<byte>, p: nat, size: int, length: int) {
    if size < 0 then length == 0 else length <= size || Straddles(b, p + length, p + size)
  }

  lemma {:induction false} SkipWithin(b: seq<byte>, p: nat, size: int, strict: bool)
    requires Skip(b, p, size, strict).Some?
    ensures Within(b, p, size, Skip(b, p, size, strict).value - p)
    decreases if size < 0 then 0 else size
  {
    var n := At(b, p) as int;
    if size >= HEADER_LENGTH && !IsProper(At(b, p + 1)) {
      SkipWithin(b, p + n, size - n, strict);
      Follows(b, p, size, n, Skip(b, p + n, size - n, strict).value - (p + n));
    }
  }

  /** First one descriptor of `n` bytes, then more. */
  lemma Follows(b: seq<byte>, p: nat, size: int, n: nat, m: nat)
    requires size >= 0 && n == At(b, p) as int && Within(b, p + n, size - n, m)
    ensures Within(b, p, size, n + m)
  {
    hide Straddles;
    if size < n {
      StraddlesAt(b, p, p + size);
    }
    assert p + n + m == p + (n + m) && p + n + (size - n) == p + size;
  }

  lemma StraddlesAt(b: seq<byte>, q: nat, limit: int)
    requires q <= limit < q + At(b, q) as int
    ensures Straddles(b, q + At(b, q) as int, limit)
  {}

  lemma WithinBoth(b: seq<byte>, p: nat, size: int, k: nat, m: nat)
    requires Within(b, p, size, k) && Within(b, p + k, size - k, m)
    ensures Within(b, p, size, k + m)
  {
    hide Straddles;
    assert p + k + m == p + (k + m) && p + k + (size - k) == p + size;
  }

  lemma EndpointWithin(b: seq<byte>, p: nat, size: int)
    requires ParseEndpoint(b, p, size).Good?
    ensures size >= 0 && Within(b, p, size, ParseEndpoint(b, p, size).length)
  {
    hide Skip, Within;
    var n := At(b, p) as int;
    if At(b, p + 1) == ENDPOINT {
      SkipWithin(b, p + n, size - n, false);
      Follows(b, p, size, n, Skip(b, p + n, size - n, false).value - (p + n));
    } else {
      NothingWithin(b, p, size);
    }
  }

  lemma NothingWithin(b: seq<byte>, p: nat, size: int)
    ensures Within(b, p, size, 0)
  {}

  lemma {:induction false} EndpointsWithin(b: seq<byte>, p: nat, size: int, n: nat)
    requires ParseEndpoints(b, p, size, n).Good?
    ensures Within(b, p, size, ParseEndpoints(b, p, size, n).length)
    decreases n
  {
    hide ParseEndpoint, Within;
    if n > 0 {
      var k := ParseEndpoint(b, p, size).length;
      EndpointWithin(b, p, size);
      EndpointsWithin(b, p + k, size - k, n - 1);
      WithinBoth(b, p, size, k, ParseEndpoints(b, p + k, size - k, n - 1).length);
    } else {
      NothingWithin(b, p, size);
    }
  }

  lemma AltWithin(b: seq<byte>, p: nat, size: int)
    requires ParseAlt(b, p, size).Good? && size >= 0
    ensures Within(b, p, size, ParseAlt(b, p, size).length)
  {
    hide Skip, ParseEndpoints, Within;
    var n := At(b, p) as int;
    SkipWithin(b, p + n, size - n, false);
    var q := Skip(b, p + n, size - n, false).value;
    Follows(b, p, size, n, q - (p + n));
    assert n + (q - (p + n)) == q - p;
    if !ParseAlt(b, p, size).value.1 {
      var k := ParseEndpoints(b, q, size - (q - p), At(b, p + 4) as int).length;
      EndpointsWithin(b, q, size - (q - p), At(b, p + 4) as int);
      assert p + (q - p) == q;
      WithinBoth(b, p, size, q - p, k);
    }
  }

  lemma {:induction false} InterfaceWithin(b: seq<byte>, p: nat, size: int)
    requires ParseInterface(b, p, size).Good?
    ensures Within(b, p, size, ParseInterface(b, p, size).length)
    decreases if size < 0 then 0 else size
  {
    hide ParseAlt, Within;
    if size >= INTERFACE_LENGTH {
      AltWithin(b, p, size);
      var k := ParseAlt(b, p, size).length;
      if !ParseAlt(b, p, size).value.1 && AlternateFollows(b, p + k, size - k) {
        AltPositive(b, p, size);
        InterfaceWithin(b, p + k, size - k);
        WithinBoth(b, p, size, k, ParseInterface(b, p + k, size - k).length);
      }
    } else {
      NothingWithin(b, p, size);
    }
  }

  lemma GapWithin(b: seq<byte>, p: nat, size: int)
    requires ParseGap(b, p, size).Good?
    ensures Within(b, p, size, ParseGap(b, p, size).length)
  {
    hide Skip, ParseInterface, Within;
    var q := Skip(b, p, size, true).value;
    SkipWithin(b, p, size, true);
    InterfaceWithin(b, q, size - (q - p));
    assert p + (q - p) == q;
    WithinBoth(b, p, size, q - p, ParseInterface(b, q, size - (q - p)).length);
  }

  lemma {:induction false} InterfacesWithin(b: seq<byte>, p: nat, size: int, n: nat, extra: seq<byte>)
    requires ParseInterfaces(b, p, size, n, extra).Good?
    ensures Within(b, p, size, ParseInterfaces(b, p, size, n, extra).length)
    decreases n
  {
    hide ParseGap, Within;
    if n > 0 {
      var g := ParseGap(b, p, size);
      var k := g.length;
      GapWithin(b, p, size);
      InterfacesWithin(b, p + k, size - k, n - 1, FirstOf(extra, g.value.0));
      WithinBoth(b, p, size, k, ParseInterfaces(b, p + k, size - k, n - 1, FirstOf(extra, g.value.0)).length);
    } else {
      NothingWithin(b, p, size);
    }
  }

  /** On any accepted input: the number of bytes left is negative if and only if the last descriptor parsed or skipped
      starts inside wTotalLength and ends beyond it, which is where parsing ended. */
  lemma RestIsExact(b: seq<byte>)
    requires ParseConfiguration(b).Some?
    ensures var (c, left) := ParseConfiguration(b).value;
            left < 0 <==> Straddles(b, c.totalLength - left, c.totalLength)
  {
    var c := ConfigFields(b);
    var p, size, n := c.length as int, c.totalLength - c.length as int, c.numInterfaces as int;
    hide ParseInterfaces;
    InterfacesWithin(b, p, size, n, []);
    var k := ParseInterfaces(b, p, size, n, []).length;
    assert c.totalLength - (size - k) == p + k;
    if size < 0 {
      StraddlesAt(b, 0, c.totalLength);
    }
  }

  // ----- what is refused -----

  /** A skip loop passes from `p` to `q`: descriptors of other types, of two bytes at least, and in the strict case no
      longer than what is left. */
  predicate Passes(b: seq<byte>, p: nat, q: nat, size: int, strict: bool)
    decreases if size < 0 then 0 else size
  {
    p == q
    || (2 <= size && 2 <= At(b, p) as int && (strict ==> At(b, p) as int <= size) && At(b, p + 1) !in {1, 2, 4, 5}
        && Passes(b, p + At(b, p) as int, q, size - At(b, p) as int, strict))
  }

  /** A skip loop meets a descriptor of less than two bytes or, in the strict case, one longer than what is left. */
  ghost predicate MeetsBad(b: seq<byte>, p: nat, size: int, strict: bool) {
    exists q: nat :: Passes(b, p, q, size, strict) && 2 <= size - (q - p)
                     && (At(b, q) < 2 || (strict && At(b, q) as int > size - (q - p)))
  }

  lemma {:induction false} SkipFailsExactly(b: seq<byte>, p: nat, size: int, strict: bool)
    ensures Skip(b, p, size, strict) == None ==> MeetsBad(b, p, size, strict)
    ensures forall q: nat :: Passes(b, p, q, size, strict) && 2 <= size - (q - p)
                             && (At(b, q) < 2 || (strict && At(b, q) as int > size - (q - p))) ==>
              Skip(b, p, size, strict) == None
    decreases if size < 0 then 0 else size
  {
    var n := At(b, p) as int;
    if 2 <= size {
      if n < 2 || (strict && n > size) {
        assert Passes(b, p, p, size, strict);
      } else if At(b, p + 1) !in {1, 2, 4, 5} {
        SkipFailsExactly(b, p + n, size - n, strict);
        if Skip(b, p, size, strict) == None {
          var q: nat :| Passes(b, p + n, q, size - n, strict) && 2 <= size - n - (q - (p + n))
            && (At(b, q) < 2 || (strict && At(b, q) as int > size - n - (q - (p + n))));
          assert Passes(b, p, q, size, strict) && size - n - (q - (p + n)) == size - (q - p);
        }
      }
    }
  }

  lemma SkipFails(b: seq<byte>, p: nat, size: int, strict: bool)
    ensures Skip(b, p, size, strict) == None <==> MeetsBad(b, p, size, strict)
  {
    SkipFailsExactly(b, p, size, strict);
    hide Passes, Skip;
  }

  /** An endpoint is refused exactly if it is longer than what is left, or what follows it cannot be skipped. */
  lemma EndpointFailsExactly(b: seq<byte>, p: nat, size: int)
    ensures var n := At(b, p) as int;
            ParseEndpoint(b, p, size) == Bad <==> n > size || (At(b, p + 1) == 5 && MeetsBad(b, p + n, size - n, false))
  {
    SkipFails(b, p + At(b, p) as int, size - At(b, p) as int, false);
    hide MeetsBad, Skip, At;
  }

  lemma AltFails(b: seq<byte>, p: nat, size: int, r: Option<nat>)
    requires r == Skip(b, p + At(b, p) as int, size - At(b, p) as int, false)
    ensures ParseAlt(b, p, size) == Bad <==>
              r == None
              || (!(2 <= size - (r.value - p) && At(b, r.value + 1) in {1, 2})
                  && (At(b, p + 4) > 32 || ParseEndpoints(b, r.value, size - (r.value - p), At(b, p + 4) as int) == Bad))
  {
    hide Skip, ParseEndpoints, Slice, At;
  }

  /** An alternate setting is refused exactly if what follows its descriptor cannot be skipped, or if it does not end there
      and has more than 32 endpoints or one that is refused. */
  lemma AltFailsExactly(b: seq<byte>, p: nat, size: int)
    ensures var r := Skip(b, p + At(b, p) as int, size - At(b, p) as int, false);
            ParseAlt(b, p, size) == Bad <==>
              MeetsBad(b, p + At(b, p) as int, size - At(b, p) as int, false)
              || (r.Some? && !(2 <= size - (r.value - p) && At(b, r.value + 1) in {1, 2})
                  && (At(b, p + 4) > 32 || ParseEndpoints(b, r.value, size - (r.value - p), At(b, p + 4) as int) == Bad))
  {
    hide *;
    SkipFails(b, p + At(b, p) as int, size - At(b, p) as int, false);
    AltFails(b, p, size, Skip(b, p + At(b, p) as int, size - At(b, p) as int, false));
  }

  // ----- what is read from any bytes -----

  /** The fields of an endpoint descriptor by its length: from 7 bytes on the first seven, from 9 on also the last two, and
      none of a shorter one or in the place of another descriptor. */
  lemma EndpointIsRead(b: seq<byte>, p: nat, size: int)
    requires ParseEndpoint(b, p, size).Good?
    ensures var e, n := ParseEndpoint(b, p, size).value, At(b, p);
            if At(b, p + 1) != 5 then e == NO_ENDPOINT && ParseEndpoint(b, p, size).length == 0
            else
              && (n >= 7 ==> e.length == n && e.kind == 5 && e.address == At(b, p + 2) && e.attributes == At(b, p + 3)
                             && e.maxPacketSize == Word(b, p + 4) && e.interval == At(b, p + 6))
              && (n >= 9 ==> e.refresh == At(b, p + 7) && e.synchAddress == At(b, p + 8))
              && (n < 9 ==> e.refresh == 0 && e.synchAddress == 0)
              && (n < 7 ==> e == NO_ENDPOINT.(extra := e.extra))
  {
    hide Skip, At, Word, Slice;
  }

  /** Where fewer than two bytes are left, interfaces are accepted without settings, however many are announced. */
  lemma {:induction false} NothingLeft(b: seq<byte>, p: nat, size: int, n: nat, extra: seq<byte>)
    requires size < 2
    ensures var r := ParseInterfaces(b, p, size, n, extra);
            r.Good? && r.length == 0 && |r.value.list| == n && forall i :: 0 <= i < n ==> r.value.list[i] == []
    decreases n
  {
    if n > 0 {
      assert Slice(b, p, p) == [];
      NothingLeft(b, p, size, n - 1, FirstOf(extra, []));
    }
  }

  /** So a configuration that ends behind its header is accepted, with as many empty interfaces as it announces. */
  lemma HeaderAlone(b: seq<byte>)
    requires Word(b, 2) - At(b, 0) as int < 2 && At(b, 4) <= 32
    ensures ParseConfiguration(b).Some?
    ensures var (c, left) := ParseConfiguration(b).value;
            && left == Word(b, 2) - At(b, 0) as int && |c.interfaces| == At(b, 4) as int
            && forall i :: 0 <= i < |c.interfaces| ==> c.interfaces[i] == []
  {
    NothingLeft(b, At(b, 0) as int, Word(b, 2) - At(b, 0) as int, At(b, 4) as int, []);
    hide ParseInterfaces, At, Word;
  }

  // ----- what an accepted configuration keeps to -----

  /** As many endpoints as announced, at most 32, or none. */
  predicate EndpointsCounted(a: AltSetting) {
    a.endpoints == [] || |a.endpoints| == a.numEndpoints as int <= 32
  }

  predicate AllCounted(alts: seq<AltSetting>) {
    forall i :: 0 <= i < |alts| ==> EndpointsCounted(alts[i])
  }

  lemma {:induction false} EndpointsNumber(b: seq<byte>, p: nat, size: int, n: nat)
    requires ParseEndpoints(b, p, size, n).Good?
    ensures |ParseEndpoints(b, p, size, n).value| == n
    decreases n
  {
    hide ParseEndpoint;
    if n > 0 {
      var k := ParseEndpoint(b, p, size).length;
      EndpointsNumber(b, p + k, size - k, n - 1);
    }
  }

  lemma AltCounted(b: seq<byte>, p: nat, size: int)
    requires ParseAlt(b, p, size).Good?
    ensures EndpointsCounted(ParseAlt(b, p, size).value.0)
  {
    hide Skip, ParseEndpoints, Slice, At;
    var n := At(b, p) as int;
    var q := Skip(b, p + n, size - n, false).value;
    if !ParseAlt(b, p, size).value.1 {
      EndpointsNumber(b, q, size - (q - p), At(b, p + 4) as int);
    }
  }

  lemma {:induction false} InterfaceCounted(b: seq<byte>, p: nat, size: int)
    requires ParseInterface(b, p, size).Good?
    ensures AllCounted(ParseInterface(b, p, size).value)
    decreases if size < 0 then 0 else size
  {
    hide ParseAlt, EndpointsCounted;
    if size >= INTERFACE_LENGTH {
      AltCounted(b, p, size);
      var r := ParseAlt(b, p, size);
      if !r.value.1 && AlternateFollows(b, p + r.length, size - r.length) {
        AltPositive(b, p, size);
        InterfaceCounted(b, p + r.length, size - r.length);
      }
    }
  }

  lemma {:induction false} InterfacesCounted(b: seq<byte>, p: nat, size: int, n: nat, extra: seq<byte>)
    requires ParseInterfaces(b, p, size, n, extra).Good?
    ensures forall i :: 0 <= i < |ParseInterfaces(b, p, size, n, extra).value.list| ==>
              AllCounted(ParseInterfaces(b, p, size, n, extra).value.list[i])
    decreases n
  {
    hide AllCounted, Skip, ParseInterface, Slice;
    if n > 0 {
      var q := Skip(b, p, size, true).value;
      InterfaceCounted(b, q, size - (q - p));
      var g := ParseGap(b, p, size);
      hide ParseGap;
      InterfacesCounted(b, p + g.length, size - g.length, n - 1, FirstOf(extra, g.value.0));
    }
  }

  lemma AcceptedIs(b: seq<byte>)
    requires ParseConfiguration(b).Some?
    ensures var c := ParseConfiguration(b).value.0;
            var r := ParseInterfaces(b, At(b, 0) as int, Word(b, 2) - At(b, 0) as int, At(b, 4) as int, []);
            r.Good? && c.interfaces == r.value.list && c.numInterfaces == At(b, 4) <= 32
  {
    hide ParseInterfaces, At, Word;
  }

  /** No more than 32 interfaces are ever accepted, and every setting has the endpoints that it announces, 32 at most, or
      none because a configuration or device descriptor ended it. */
  lemma LimitsAreKept(b: seq<byte>)
    requires ParseConfiguration(b).Some?
    ensures var c := ParseConfiguration(b).value.0;
            && |c.interfaces| == At(b, 4) as int <= 32
            && forall i :: 0 <= i < |c.interfaces| ==> AllCounted(c.interfaces[i])
  {
    hide *;
    AcceptedConfiguration(b);
    AcceptedIs(b);
    InterfacesCounted(b, At(b, 0) as int, Word(b, 2) - At(b, 0) as int, At(b, 4) as int, []);
  }
}
