/** The configuration descriptor parser of the library (libusb/src/descriptors.c). Three nested loops share a cursor
    and the number of bytes left; descriptors of other kinds are kept as `extra` bytes of the configuration, interface
    or endpoint they follow. Reads are total: the parser peeks at headers before it checks that they are there. */
module ConfigParser {
  import opened Bytes

  const DEVICE: byte := 1
  const CONFIG: byte := 2
  const ENDPOINT: byte := 5

  const HEADER_LENGTH := 2
  const INTERFACE_LENGTH := 9
  const ENDPOINT_LENGTH := 7
  const ENDPOINT_AUDIO_LENGTH := 9

  datatype Endpoint = Endpoint(
    length: byte, kind: byte, address: byte, attributes: byte, maxPacketSize: int, interval: byte, refresh: byte,
    synchAddress: byte, extra: seq<byte>)

  datatype AltSetting = AltSetting(
    length: byte, kind: byte, number: byte, alternate: byte, numEndpoints: byte, interfaceClass: byte, subClass: byte,
    protocol: byte, name: byte, endpoints: seq<Endpoint>, extra: seq<byte>)

  datatype Configuration = Configuration(
    length: byte, kind: byte, totalLength: int, numInterfaces: byte, value: byte, name: byte, attributes: byte,
    maxPower: byte, interfaces: seq<seq<AltSetting>>, extra: seq<byte>)

  /** -1, or a value with the number of bytes it took. */
  datatype Parsed<+T> = Bad | Good(value: T, length: nat)

  predicate EndsInterface(kind: byte) {
    kind == CONFIG || kind == DEVICE
  }

  predicate IsProper(kind: byte) {
    kind == ENDPOINT || kind == INTERFACE || EndsInterface(kind)
  }

  function Slice(b: seq<byte>, start: nat, end: nat): (s: seq<byte>)
    requires start <= end
    ensures |s| == end - start
  {
    seq(end - start, i requires 0 <= i => At(b, start + i))
  }

  // ----- what the parser computes -----

  /** Where the descriptors of other kinds end. Only the configuration's loop checks lengths against the size left. */
  function Skip(b: seq<byte>, p: nat, size: int, strict: bool): (r: Option<nat>)
    ensures r.Some? ==> p <= r.value && (size >= HEADER_LENGTH ==> At(b, p) >= 2)
    decreases if size < 0 then 0 else size
  {
    var length := At(b, p) as int;
    if size < HEADER_LENGTH then Some(p)
    else if length < 2 || (strict && length > size) then None
    else if IsProper(At(b, p + 1)) then Some(p)
    else Skip(b, p + length, size - length, strict)
  }

  const NO_ENDPOINT := Endpoint(0, 0, 0, 0, 0, 0, 0, 0, [])

  function EndpointFields(b: seq<byte>, p: nat): Endpoint {
    var length := At(b, p) as int;
    if length >= ENDPOINT_AUDIO_LENGTH then
      Endpoint(At(b, p), At(b, p + 1), At(b, p + 2), At(b, p + 3), Word(b, p + 4), At(b, p + 6), At(b, p + 7),
               At(b, p + 8), [])
    else if length >= ENDPOINT_LENGTH then
      Endpoint(At(b, p), At(b, p + 1), At(b, p + 2), At(b, p + 3), Word(b, p + 4), At(b, p + 6), 0, 0, [])
    else NO_ENDPOINT
  }

  function ParseEndpoint(b: seq<byte>, p: nat, size: int): Parsed<Endpoint> {
    var length := At(b, p) as int;
    if length > size then Bad
    else if At(b, p + 1) != ENDPOINT then Good(NO_ENDPOINT, 0)
    else match Skip(b, p + length, size - length, false)
      case None => Bad
      case Some(end) => Good(EndpointFields(b, p).(extra := Slice(b, p + length, end)), end - p)
  }

  function ParseEndpoints(b: seq<byte>, p: nat, size: int, n: nat): Parsed<seq<Endpoint>>
    decreases n
  {
    if n == 0 then Good([], 0)
    else match ParseEndpoint(b, p, size)
      case Bad => Bad
      case Good(e, k) =>
        match ParseEndpoints(b, p + k, size - k, n - 1)
        case Bad => Bad
        case Good(es, m) => Good([e] + es, k + m)
  }

  function AltFields(b: seq<byte>, p: nat): AltSetting {
    AltSetting(At(b, p), At(b, p + 1), At(b, p + 2), At(b, p + 3), At(b, p + 4), At(b, p + 5), At(b, p + 6), At(b, p + 7),
               At(b, p + 8), [], [])
  }

  /** An interface descriptor, its extra bytes and its endpoints; `last` tells that a configuration or device
      descriptor follows, which ends the interface. */
  function ParseAlt(b: seq<byte>, p: nat, size: int): (r: Parsed<(AltSetting, bool)>)
    ensures size >= HEADER_LENGTH && r.Good? ==> r.length > 0
  {
    var alt := AltFields(b, p);
    var q := p + alt.length as int;
    match Skip(b, q, size - alt.length as int, false)
    case None => Bad
    case Some(end) =>
      var left := size - (end - p);
      var full := alt.(extra := Slice(b, q, end));
      if left >= HEADER_LENGTH && EndsInterface(At(b, end + 1)) then Good((full, true), end - p)
      else if alt.numEndpoints as int > MAX_ENDPOINTS then Bad
      else match ParseEndpoints(b, end, left, alt.numEndpoints as int)
        case Bad => Bad
        case Good(es, k) => Good((full.(endpoints := es), false), end - p + k)
  }

  /** Another alternate setting of the same interface starts here. */
  predicate AlternateFollows(b: seq<byte>, p: nat, size: int) {
    size >= INTERFACE_LENGTH && At(b, p + 1) == INTERFACE && At(b, p + 3) != 0
  }

  function ParseInterface(b: seq<byte>, p: nat, size: int): Parsed<seq<AltSetting>>
    decreases if size < 0 then 0 else size
  {
    if size < INTERFACE_LENGTH then Good([], 0)
    else match ParseAlt(b, p, size)
      case Bad => Bad
      case Good((alt, last), k) =>
        if last || !AlternateFollows(b, p + k, size - k) then Good([alt], k)
        else match ParseInterface(b, p + k, size - k)
          case Bad => Bad
          case Good(alts, m) => Good([alt] + alts, k + m)
  }

  /** One turn of the configuration's loop: the descriptors skipped before an interface, and the interface. */
  function ParseGap(b: seq<byte>, p: nat, size: int): Parsed<(seq<byte>, seq<AltSetting>)> {
    match Skip(b, p, size, true)
    case None => Bad
    case Some(q) =>
      match ParseInterface(b, q, size - (q - p))
      case Bad => Bad
      case Good(alts, k) => Good((Slice(b, p, q), alts), q - p + k)
  }

  /** Only the first bytes found are kept as the configuration's extra bytes. */
  function FirstOf(extra: seq<byte>, found: seq<byte>): seq<byte> {
    if extra == [] then found else extra
  }

  datatype Interfaces = Interfaces(list: seq<seq<AltSetting>>, extra: seq<byte>)

  /** The loop over the interfaces; `extra` are the configuration's extra bytes found before. */
  function ParseInterfaces(b: seq<byte>, p: nat, size: int, n: nat, extra: seq<byte>): Parsed<Interfaces>
    decreases n
  {
    if n == 0 then Good(Interfaces([], extra), 0)
    else match ParseGap(b, p, size)
      case Bad => Bad
      case Good(g, k) =>
        match ParseInterfaces(b, p + k, size - k, n - 1, FirstOf(extra, g.0))
        case Bad => Bad
        case Good(r, m) => Good(r.(list := [g.1] + r.list), k + m)
  }

  function ConfigFields(b: seq<byte>): Configuration {
    Configuration(At(b, 0), At(b, 1), Word(b, 2), At(b, 4), At(b, 5), At(b, 6), At(b, 7), At(b, 8), [], [])
  }

  /** The configuration and the number of bytes left, or None for -1. */
  function ParseConfiguration(b: seq<byte>): Option<(Configuration, int)> {
    var c := ConfigFields(b);
    if c.numInterfaces as int > MAX_INTERFACES then None
    else match ParseInterfaces(b, c.length as int, c.totalLength - c.length as int, c.numInterfaces as int, [])
      case Bad => None
      case Good(r, k) => Some((c.(interfaces := r.list, extra := r.extra), c.totalLength - c.length as int - k))
  }

  // ----- the parser's loops -----

  method SkipDescriptors(b: seq<byte>, start: nat, room: int, strict: bool) returns (end: Option<nat>)
    ensures end == Skip(b, start, room, strict)
  {
    var buffer: nat, size := start, room;
    while size >= HEADER_LENGTH
      invariant Skip(b, start, room, strict) == Skip(b, buffer, size, strict)
      decreases size
    {
      var length := At(b, buffer) as int;
      if length < 2 || (strict && length > size) {
        return None;
      }
      if IsProper(At(b, buffer + 1)) {
        break;
      }
      buffer, size := buffer + length, size - length;
    }
    return Some(buffer);
  }

  method RunEndpoint(b: seq<byte>, start: nat, room: int) returns (r: Parsed<Endpoint>)
    ensures r == ParseEndpoint(b, start, room)
  {
    var buffer, size := start, room;
    var length := At(b, buffer) as int;
    if length > size {
      return Bad;
    }
    if At(b, buffer + 1) != ENDPOINT {
      return Good(NO_ENDPOINT, 0);
    }
    var endpoint := EndpointFields(b, buffer);
    buffer, size := buffer + length, size - length;
    var begin := buffer;
    var end := SkipDescriptors(b, buffer, size, false);
    if end == None {
      return Bad;
    }
    endpoint := endpoint.(extra := Slice(b, begin, end.value));
    return Good(endpoint, end.value - start);
  }

  /** A result that continues what was collected before. */
  function After<T>(collected: seq<T>, k: nat, r: Parsed<seq<T>>): Parsed<seq<T>> {
    if r.Bad? then Bad else Good(collected + r.value, k + r.length)
  }

  lemma NothingBefore<T>(r: Parsed<seq<T>>)
    ensures After([], 0, r) == r
  {
    assert r.Good? ==> [] + r.value == r.value;
  }

  lemma NothingAfter<T>(collected: seq<T>, k: nat)
    ensures After(collected, k, Good([], 0)) == Good(collected, k)
  {
    assert collected + [] == collected;
  }

  lemma OneMore<T>(collected: seq<T>, k: nat, x: T, m: nat, r: Parsed<seq<T>>)
    ensures After(collected, k, After([x], m, r)) == After(collected + [x], k + m, r)
  {
    assert r.Good? ==> collected + ([x] + r.value) == collected + [x] + r.value;
  }

  lemma NextEndpoint(collected: seq<Endpoint>, k: nat, b: seq<byte>, p: nat, size: int, n: nat)
    requires n > 0
    ensures var e := ParseEndpoint(b, p, size);
            After(collected, k, ParseEndpoints(b, p, size, n)) ==
            if e.Bad? then Bad
            else After(collected + [e.value], k + e.length, ParseEndpoints(b, p + e.length, size - e.length, n - 1))
  {
    var e := ParseEndpoint(b, p, size);
    if e.Good? {
      OneMore(collected, k, e.value, e.length, ParseEndpoints(b, p + e.length, size - e.length, n - 1));
    }
  }

  method RunEndpoints(b: seq<byte>, start: nat, room: int, n: nat) returns (r: Parsed<seq<Endpoint>>)
    ensures r == ParseEndpoints(b, start, room, n)
  {
    hide ParseEndpoint;
    ghost var goal := ParseEndpoints(b, start, room, n);
    var endpoints: seq<Endpoint> := [];
    var buffer: nat, size, parsed: nat, left := start, room, 0, n;
    NothingBefore(goal);
    while left > 0
      invariant left >= 0
      invariant goal == After(endpoints, parsed, ParseEndpoints(b, buffer, size, left))
    {
      NextEndpoint(endpoints, parsed, b, buffer, size, left);
      // the loop's own test of the length is the first one RunEndpoint makes
      var e := RunEndpoint(b, buffer, size);
      if e.Bad? {
        return Bad;
      }
      endpoints := endpoints + [e.value];
      buffer, size, parsed, left := buffer + e.length, size - e.length, parsed + e.length, left - 1;
    }
    NothingAfter(endpoints, parsed);
    return Good(endpoints, parsed);
  }

  lemma NextAlt(collected: seq<AltSetting>, k: nat, b: seq<byte>, p: nat, size: int)
    requires size >= INTERFACE_LENGTH
    ensures var a := ParseAlt(b, p, size);
            After(collected, k, ParseInterface(b, p, size)) ==
            if a.Bad? then Bad
            else if a.value.1 || !AlternateFollows(b, p + a.length, size - a.length) then
              Good(collected + [a.value.0], k + a.length)
            else After(collected + [a.value.0], k + a.length, ParseInterface(b, p + a.length, size - a.length))
  {
    var a := ParseAlt(b, p, size);
    if a.Good? {
      OneMore(collected, k, a.value.0, a.length, ParseInterface(b, p + a.length, size - a.length));
    }
  }

  /** One turn of the loop in `usb_parse_interface`, up to the test for an alternate setting. */
  method RunAlt(b: seq<byte>, start: nat, room: int) returns (r: Parsed<(AltSetting, bool)>)
    ensures r == ParseAlt(b, start, room)
  {
    hide Skip, ParseEndpoints, At;
    var ifp := AltFields(b, start);
    var buffer: nat, size := start + ifp.length as int, room - ifp.length as int;
    var begin := buffer;
    var end := SkipDescriptors(b, buffer, size, false);
    if end == None {
      return Bad;
    }
    buffer, size := end.value, size - (end.value - begin);
    ifp := ifp.(extra := Slice(b, begin, buffer));
    if size >= HEADER_LENGTH && EndsInterface(At(b, buffer + 1)) {
      return Good((ifp, true), buffer - start);
    }
    if ifp.numEndpoints as int > MAX_ENDPOINTS {
      return Bad;
    }
    var es := RunEndpoints(b, buffer, size, ifp.numEndpoints as int);
    if es.Bad? {
      return Bad;
    }
    ifp := ifp.(endpoints := es.value);
    return Good((ifp, false), buffer - start + es.length);
  }

  method RunInterface(b: seq<byte>, start: nat, room: int) returns (r: Parsed<seq<AltSetting>>)
    ensures r == ParseInterface(b, start, room)
  {
    hide ParseAlt;
    ghost var goal := ParseInterface(b, start, room);
    var altsettings: seq<AltSetting> := [];
    var buffer: nat, size, parsed: nat := start, room, 0;
    NothingBefore(goal);
    while size >= INTERFACE_LENGTH
      invariant goal == After(altsettings, parsed, ParseInterface(b, buffer, size))
      decreases size
    {
      NextAlt(altsettings, parsed, b, buffer, size);
      var alt := RunAlt(b, buffer, size);
      if alt.Bad? {
        return Bad;
      }
      altsettings := altsettings + [alt.value.0];
      buffer, size, parsed := buffer + alt.length, size - alt.length, parsed + alt.length;
      if alt.value.1 || !AlternateFollows(b, buffer, size) {
        return Good(altsettings, parsed);
      }
    }
    NothingAfter(altsettings, parsed);
    return Good(altsettings, parsed);
  }

  function Before(done: seq<seq<AltSetting>>, k: nat, r: Parsed<Interfaces>): Parsed<Interfaces> {
    if r.Bad? then Bad else Good(r.value.(list := done + r.value.list), k + r.length)
  }

  lemma NextInterface(done: seq<seq<AltSetting>>, k: nat, b: seq<byte>, p: nat, size: int, n: nat, extra: seq<byte>)
    requires n > 0
    ensures var g := ParseGap(b, p, size);
            Before(done, k, ParseInterfaces(b, p, size, n, extra)) ==
            if g.Bad? then Bad
            else Before(done + [g.value.1], k + g.length,
                        ParseInterfaces(b, p + g.length, size - g.length, n - 1, FirstOf(extra, g.value.0)))
  {
    var g := ParseGap(b, p, size);
    if g.Good? {
      var r := ParseInterfaces(b, p + g.length, size - g.length, n - 1, FirstOf(extra, g.value.0));
      assert r.Good? ==> done + ([g.value.1] + r.value.list) == done + [g.value.1] + r.value.list;
    }
  }

  method RunGap(b: seq<byte>, start: nat, room: int) returns (r: Parsed<(seq<byte>, seq<AltSetting>)>)
    ensures r == ParseGap(b, start, room)
  {
    hide Skip, ParseInterface;
    var end := SkipDescriptors(b, start, room, true);
    if end == None {
      return Bad;
    }
    var alts := RunInterface(b, end.value, room - (end.value - start));
    if alts.Bad? {
      return Bad;
    }
    return Good((Slice(b, start, end.value), alts.value), end.value - start + alts.length);
  }

  method RunInterfaces(b: seq<byte>, start: nat, room: int, n: nat) returns (r: Parsed<Interfaces>)
    ensures r == ParseInterfaces(b, start, room, n, [])
  {
    hide ParseGap;
    ghost var goal := ParseInterfaces(b, start, room, n, []);
    var interfaces: seq<seq<AltSetting>>, extra: seq<byte> := [], [];
    var buffer: nat, size, parsed: nat, left := start, room, 0, n;
    NoneBefore(goal);
    while left > 0
      invariant left >= 0
      invariant goal == Before(interfaces, parsed, ParseInterfaces(b, buffer, size, left, extra))
    {
      NextInterface(interfaces, parsed, b, buffer, size, left, extra);
      var g := RunGap(b, buffer, size);
      if g.Bad? {
        return Bad;
      }
      interfaces := interfaces + [g.value.1];
      extra := FirstOf(extra, g.value.0);
      buffer, size, parsed, left := buffer + g.length, size - g.length, parsed + g.length, left - 1;
    }
    NoneAfter(interfaces, parsed, extra);
    return Good(Interfaces(interfaces, extra), parsed);
  }

  lemma NoneBefore(r: Parsed<Interfaces>)
    ensures Before([], 0, r) == r
  {
    assert r.Good? ==> [] + r.value.list == r.value.list;
  }

  lemma NoneAfter(done: seq<seq<AltSetting>>, k: nat, extra: seq<byte>)
    ensures Before(done, k, Good(Interfaces([], extra), 0)) == Good(Interfaces(done, extra), k)
  {
    assert done + [] == done;
  }

  method RunConfiguration(b: seq<byte>) returns (r: Option<(Configuration, int)>)
    ensures r == ParseConfiguration(b)
  {
    hide ParseInterfaces, At, Word;
    var config := ConfigFields(b);
    if config.numInterfaces as int > MAX_INTERFACES {
      return None;
    }
    var size := config.totalLength - config.length as int;
    var parsed := RunInterfaces(b, config.length as int, size, config.numInterfaces as int);
    if parsed.Bad? {
      return None;
    }
    config := config.(interfaces := parsed.value.list, extra := parsed.value.extra);
    return Some((config, size - parsed.length));
  }
}
