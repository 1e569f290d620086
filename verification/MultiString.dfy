/** Lists of strings in one character buffer, each ended by a NUL and the list by one more (libusb/src/registry.c). */
module MultiString {
  import opened Bytes

  const NUL: char := '\0'

  // ----- the list that a buffer holds -----

  /** Where the string that starts at `p` ends. */
  function EndOf(b: seq<char>, p: nat): (e: nat)
    requires p <= |b|
    ensures p <= e <= |b|
    decreases |b| - p
  {
    if p == |b| || b[p] == NUL then p else EndOf(b, p + 1)
  }

  /** A NUL follows the last string. */
  predicate Terminated(b: seq<char>, p: nat)
    decreases |b| - p
  {
    p < |b| && (b[p] != NUL ==> Terminated(b, EndOf(b, p) + 1))
  }

  /** The strings from `p` on, up to the first empty one. */
  function Entries(b: seq<char>, p: nat): seq<string>
    requires Terminated(b, p)
    decreases |b| - p
  {
    if b[p] == NUL then [] else [b[p..EndOf(b, p)]] + Entries(b, EndOf(b, p) + 1)
  }

  /** The strings, each with its NUL. */
  function Flat(l: seq<string>): seq<char> {
    if l == [] then [] else l[0] + [NUL] + Flat(l[1..])
  }

  function Encode(l: seq<string>): seq<char> {
    Flat(l) + [NUL]
  }

  predicate Entry(s: string) {
    s != [] && NUL !in s
  }

  predicate Proper(l: seq<string>) {
    forall s :: s in l ==> Entry(s)
  }

  /** The buffer holds the encoding of the list at `p`; anything may follow. */
  predicate Holds(b: seq<char>, p: nat, l: seq<string>) {
    p + |Encode(l)| <= |b| && b[p..p + |Encode(l)|] == Encode(l)
  }

  lemma {:induction false} FlatAppend(a: seq<string>, c: seq<string>)
    ensures Flat(a + c) == Flat(a) + Flat(c)
  {
    if a == [] {
      assert a + c == c;
    } else {
      FlatAppend(a[1..], c);
      assert (a + c)[1..] == a[1..] + c && (a + c)[0] == a[0];
    }
  }

  lemma FlatOne(s: string)
    ensures Flat([s]) == s + [NUL]
  {
    assert [s][1..] == [];
  }

  /** What a list held at `p` looks like there. */
  lemma HeldFirst(b: seq<char>, p: nat, l: seq<string>)
    requires Holds(b, p, l) && Proper(l)
    ensures p < |b| && (l == [] <==> b[p] == NUL)
    ensures l != [] ==>
              var q := p + |l[0]|;
              && q + 1 < |b| && b[p..q] == l[0] && b[q] == NUL && EndOf(b, p) == q
              && Holds(b, q + 1, l[1..]) && Proper(l[1..]) && |Encode(l)| == |l[0]| + 1 + |Encode(l[1..])|
  {
    var e := Encode(l);
    assert forall i :: 0 <= i < |e| ==> b[p + i] == e[i];
    if l != [] {
      var q := p + |l[0]|;
      assert l[0] in l && e == l[0] + [NUL] + Encode(l[1..]);
      assert forall i :: 0 <= i < |l[0]| ==> b[p..q][i] == b[p + i] == l[0][i];
      assert b[p..q] == l[0] && b[p] == l[0][0];
      EndIs(b, p, q);
      var f := Encode(l[1..]);
      assert forall i :: 0 <= i < |f| ==> b[q + 1 + i] == f[i];
    }
  }

  lemma {:induction false} EndIs(b: seq<char>, p: nat, q: nat)
    requires p <= q < |b| && NUL !in b[p..q] && b[q] == NUL
    ensures EndOf(b, p) == q
    decreases q - p
  {
    if p < q {
      assert b[p] in b[p..q];
      EndIs(b, p + 1, q);
    }
  }

  lemma {:induction false} EndOfIs(b: seq<char>, p: nat)
    requires p <= |b|
    ensures NUL !in b[p..EndOf(b, p)] && (EndOf(b, p) < |b| ==> b[EndOf(b, p)] == NUL)
    decreases |b| - p
  {
    if p < |b| && b[p] != NUL {
      EndOfIs(b, p + 1);
      assert b[p..EndOf(b, p)] == [b[p]] + b[p + 1..EndOf(b, p)];
    }
  }

  /** Reading a buffer undoes encoding. */
  lemma {:induction false} EntriesUndoesEncode(b: seq<char>, p: nat, l: seq<string>)
    requires Holds(b, p, l) && Proper(l)
    ensures Terminated(b, p) && Entries(b, p) == l
    decreases |l|
  {
    hide Encode, Flat, Holds, Proper, EndOf;
    HeldFirst(b, p, l);
    if l != [] {
      EntriesUndoesEncode(b, p + |l[0]| + 1, l[1..]);
    }
  }

  /** A terminated buffer holds the encoding of what is read from it. */
  lemma {:induction false} EncodeUndoesEntries(b: seq<char>, p: nat)
    requires Terminated(b, p)
    ensures Holds(b, p, Entries(b, p)) && Proper(Entries(b, p))
    decreases |b| - p
  {
    if b[p] != NUL {
      var q := EndOf(b, p);
      EndOfIs(b, p);
      EncodeUndoesEntries(b, q + 1);
      var l, rest := Entries(b, p), Entries(b, q + 1);
      assert l[1..] == rest && Encode(l) == b[p..q] + [NUL] + Encode(rest);
      assert b[p..q + 1 + |Encode(rest)|] == b[p..q] + [b[q]] + b[q + 1..q + 1 + |Encode(rest)|];
      assert b[p] == b[p..q][0];
    }
  }

  // ----- reading -----

  /** The C library's strlen. */
  method Strlen(buf: array<char>, p: nat) returns (n: nat)
    requires p <= buf.Length && EndOf(buf[..], p) < buf.Length
    ensures p + n == EndOf(buf[..], p)
  {
    n := 0;
    while buf[p + n] != NUL
      invariant p + n < buf.Length && EndOf(buf[..], p) == EndOf(buf[..], p + n)
      decreases buf.Length - n
    {
      n := n + 1;
    }
  }

  /** The loop of `usb_registry_mz_string_size` and `usb_registry_mz_string_insert`: past the last string. */
  method ToEnd(buf: array<char>, ghost l: seq<string>) returns (p: nat)
    requires Holds(buf[..], 0, l) && Proper(l)
    ensures p == |Flat(l)| < buf.Length && buf[p] == NUL
  {
    ghost var b := buf[..];
    WalkStarts(b, 0, l);
    hide *;
    p := 0;
    ghost var k := 0;
    while buf[p] != NUL
      invariant p < buf.Length && Walking(b, 0, l, p, k)
      decreases |l| - k
    {
      WalkNext(b, 0, l, p, k);
      var n := Strlen(buf, p);
      p, k := p + n + 1, k + 1;
      WalkInside(b, 0, l, p, k);
    }
    WalkEnds(b, 0, l, p, k);
  }

  /** `usb_registry_mz_string_size`. */
  method Size(buf: array<char>) returns (size: nat)
    requires Terminated(buf[..], 0)
    ensures size == |Encode(Entries(buf[..], 0))|
    ensures size <= buf.Length && buf[..size] == Encode(Entries(buf[..], 0))
  {
    ghost var l := Entries(buf[..], 0);
    EncodeUndoesEntries(buf[..], 0);
    assert |Encode(l)| == |Flat(l)| + 1 && buf[..][0..|Encode(l)|] == buf[..|Encode(l)|];
    hide Terminated, Entries, Flat, Encode;
    var p := ToEnd(buf, l);
    size := p + 1;
  }

  /** A walk over the list `l` held at `start` has come to position `p`, past `k` strings. */
  predicate Walking(b: seq<char>, start: nat, l: seq<string>, p: nat, k: nat) {
    && k <= |l| && p == start + |Flat(l[..k])| < |b|
    && Holds(b, p, l[k..]) && Proper(l[k..]) && (k == |l| <==> b[p] == NUL)
  }

  lemma WalkStarts(b: seq<char>, start: nat, l: seq<string>)
    requires Holds(b, start, l) && Proper(l)
    ensures Walking(b, start, l, start, 0)
    ensures start < |b|
  {
    hide Holds, Proper, Encode;
    assert l[0..] == l && l[..0] == [];
    HeldFirst(b, start, l);
  }

  lemma WalkInside(b: seq<char>, start: nat, l: seq<string>, p: nat, k: nat)
    requires Walking(b, start, l, p, k)
    ensures p < |b| && k <= |l|
  {}

  lemma WalkNext(b: seq<char>, start: nat, l: seq<string>, p: nat, k: nat)
    requires Walking(b, start, l, p, k) && p < |b| && b[p] != NUL
    ensures k < |l| && EndOf(b, p) < |b| && b[p..EndOf(b, p)] == l[k]
    ensures Walking(b, start, l, EndOf(b, p) + 1, k + 1)
  {
    hide Holds, Proper, Encode, EndOf;
    HeldFirst(b, p, l[k..]);
    TailOf(l, k);
    HeldFirst(b, EndOf(b, p) + 1, l[k + 1..]);
  }

  lemma WalkEnds(b: seq<char>, start: nat, l: seq<string>, p: nat, k: nat)
    requires Walking(b, start, l, p, k) && p < |b| && b[p] == NUL
    ensures k == |l| && p == start + |Flat(l)|
  {
    assert l[..k] == l;
  }

  lemma TailOf(l: seq<string>, k: nat)
    requires k < |l|
    ensures l[k..][0] == l[k] && l[k..][1..] == l[k + 1..]
    ensures |Flat(l[..k + 1])| == |Flat(l[..k])| + |l[k]| + 1
  {
    assert l[..k + 1] == l[..k] + [l[k]];
    FlatAppend(l[..k], [l[k]]);
    FlatOne(l[k]);
  }

  // ----- looking for a string -----

  function LowerChar(c: char): char {
    if 'A' <= c <= 'Z' then (c as int + 32) as char else c
  }

  function Lower(s: string): string {
    seq(|s|, i requires 0 <= i < |s| => LowerChar(s[i]))
  }

  /** `_stricmp` or `strcmp` says equal. */
  predicate Same(a: string, b: string, noCase: bool) {
    if noCase then Lower(a) == Lower(b) else a == b
  }

  /** Without regard to case, strings are the same whose characters are equal but for one being the capital of the other. */
  lemma SameIs(a: string, b: string)
    ensures Same(a, b, true) <==>
              |a| == |b| && forall i :: 0 <= i < |a| ==> a[i] == b[i] || CapitalOf(a[i], b[i]) || CapitalOf(b[i], a[i])
    ensures Same(a, b, false) <==> a == b
  {
    if |a| == |b| {
      assert forall i :: 0 <= i < |a| ==> Lower(a)[i] == LowerChar(a[i]) && Lower(b)[i] == LowerChar(b[i]);
      assert Lower(a) == Lower(b) <==> forall i :: 0 <= i < |a| ==> LowerChar(a[i]) == LowerChar(b[i]);
    } else {
      assert |Lower(a)| == |a| && |Lower(b)| == |b|;
    }
  }

  predicate CapitalOf(c: char, d: char) {
    'A' <= c <= 'Z' && d as int - c as int == 'a' as int - 'A' as int
  }

  /** The first entry from `k` on that is the same, or else the number of entries. */
  function FirstSame(l: seq<string>, k: nat, str: string, noCase: bool): (i: nat)
    requires k <= |l|
    ensures k <= i <= |l| && (i < |l| ==> Same(l[i], str, noCase))
    ensures forall j :: k <= j < i ==> !Same(l[j], str, noCase)
    decreases |l| - k
  {
    if k == |l| || Same(l[k], str, noCase) then k else FirstSame(l, k + 1, str, noCase)
  }

  /** `usb_registry_mz_string_find`, from `start`, where the entries from `k` on are. What it finds is the place of the
      first entry that is the same. */
  method Find(buf: array<char>, start: nat, str: string, noCase: bool, ghost l: seq<string>)
    returns (found: Option<nat>)
    requires Holds(buf[..], start, l) && Proper(l)
    ensures Located(buf[..], start, l, FirstSame(l, 0, str, noCase), found)
  {
    ghost var b := buf[..];
    WalkStarts(b, start, l);
    hide *;
    var p: nat := start;
    ghost var k := 0;
    while buf[p] != NUL
      invariant p < buf.Length && Walking(b, start, l, p, k) && k <= |l|
      invariant FirstSame(l, 0, str, noCase) == FirstSame(l, k, str, noCase)
      decreases |l| - k
    {
      WalkNext(b, start, l, p, k);
      var n := Strlen(buf, p);
      var entry := buf[p..p + n];
      assert entry == b[p..p + n] == l[k];
      FirstSameNext(l, k, str, noCase);
      if Same(entry, str, noCase) {
        LocatedHere(b, start, l, p, k);
        return Some(p);
      }
      p, k := p + n + 1, k + 1;
      WalkInside(b, start, l, p, k);
    }
    WalkEnds(b, start, l, p, k);
    FirstSameNext(l, k, str, noCase);
    LocatedNowhere(b, start, l);
    return None;
  }

  /** The place of entry number `k` of a list held at `start`, if there is such an entry. */
  predicate Located(b: seq<char>, start: nat, l: seq<string>, k: nat, found: Option<nat>) {
    && k <= |l|
    && if k == |l| then found == None
       else found == Some(start + |Flat(l[..k])|) && Holds(b, found.value, l[k..]) && Proper(l[k..])
  }

  lemma LocatedNowhere(b: seq<char>, start: nat, l: seq<string>)
    ensures Located(b, start, l, |l|, None)
  {}

  lemma LocatedHere(b: seq<char>, start: nat, l: seq<string>, p: nat, k: nat)
    requires Walking(b, start, l, p, k) && k < |l|
    ensures Located(b, start, l, k, Some(p))
  {}

  lemma FirstSameNext(l: seq<string>, k: nat, str: string, noCase: bool)
    requires k <= |l|
    ensures FirstSame(l, k, str, noCase)
            == if k == |l| || Same(l[k], str, noCase) then k else FirstSame(l, k + 1, str, noCase)
  {}

  // ----- inserting and removing -----

  /** The buffer with `piece` written over it. */
  function Over(b: seq<char>, dst: nat, piece: seq<char>): seq<char>
    requires dst + |piece| <= |b|
  {
    b[..dst] + piece + b[dst + |piece|..]
  }

  /** The C library's memcpy, from a string. */
  method Memcpy(buf: array<char>, dst: nat, str: string)
    requires dst + |str| <= buf.Length
    modifies buf
    ensures buf[..] == Over(old(buf[..]), dst, str)
  {
    forall i | 0 <= i < |str| {
      buf[dst + i] := str[i];
    }
  }

  /** The C library's memmove, within the buffer. */
  method Memmove(buf: array<char>, dst: nat, src: nat, n: nat)
    requires dst + n <= buf.Length && src + n <= buf.Length
    modifies buf
    ensures buf[..] == Over(old(buf[..]), dst, old(buf[..])[src..src + n])
  {
    forall i | 0 <= i < n {
      buf[dst + i] := buf[src + i];
    }
  }

  /** A list is held in two parts, one after the other. */
  lemma HeldInParts(b: seq<char>, a: seq<string>, c: seq<string>)
    ensures Holds(b, 0, a + c) <==> |Flat(a)| <= |b| && b[..|Flat(a)|] == Flat(a) && Holds(b, |Flat(a)|, c)
  {
    FlatAppend(a, c);
    var f, e := Flat(a), Encode(c);
    assert Encode(a + c) == f + e;
    hide Flat, Encode;
    if Holds(b, 0, a + c) {
      assert b[..|f|] == b[0..|f + e|][..|f|] == f;
      assert b[|f|..|f| + |e|] == b[0..|f + e|][|f|..] == e;
    }
    if |f| <= |b| && b[..|f|] == f && Holds(b, |f|, c) {
      assert b[0..|f + e|] == b[..|f|] + b[|f|..|f| + |e|];
    }
  }

  /** `usb_registry_mz_string_insert` appends; an empty string leaves the list as it is. */
  method Insert(buf: array<char>, str: string)
    requires Terminated(buf[..], 0) && NUL !in str
    requires |Encode(Entries(buf[..], 0))| + |str| + 1 <= buf.Length
    modifies buf
    ensures Terminated(buf[..], 0)
    ensures Entries(buf[..], 0) == old(Entries(buf[..], 0)) + (if str == [] then [] else [str])
  {
    ghost var b, l := buf[..], Entries(buf[..], 0);
    EncodeUndoesEntries(b, 0);
    assert |Encode(l)| == |Flat(l)| + 1;
    hide *;
    var src := ToEnd(buf, l);
    assert buf[..] == b;
    Memcpy(buf, src, str);
    src := src + |str|;
    buf[src] := NUL;
    buf[src + 1] := NUL;
    Appended(b, buf[..], l, str);
  }

  lemma Appended(b: seq<char>, b': seq<char>, l: seq<string>, str: string)
    requires Holds(b, 0, l) && Proper(l) && NUL !in str && |b'| == |b|
    requires var p := |Flat(l)|;
             p + |str| + 2 <= |b| && b'[..p] == b[..p] && b'[p..p + |str| + 2] == str + [NUL, NUL]
    ensures Terminated(b', 0) && Entries(b', 0) == l + (if str == [] then [] else [str])
  {
    var p, added := |Flat(l)|, if str == [] then [] else [str];
    assert l + [] == l;
    HeldInParts(b, l, []);
    FlatOne(str);
    assert Encode(added) == (str + [NUL, NUL])[..|Encode(added)|];
    assert b'[p..p + |Encode(added)|] == b'[p..p + |str| + 2][..|Encode(added)|];
    hide Encode, Flat;
    HeldInParts(b', l, added);
    hide Holds;
    EntriesUndoesEncode(b', 0, l + added);
  }

  /** The list without the entries that are the same. */
  function Others(l: seq<string>, str: string, noCase: bool): seq<string> {
    if l == [] then []
    else if Same(l[0], str, noCase) then Others(l[1..], str, noCase)
    else [l[0]] + Others(l[1..], str, noCase)
  }

  lemma {:induction false} OthersAre(l: seq<string>, str: string, noCase: bool)
    ensures forall s :: s in Others(l, str, noCase) <==> s in l && !Same(s, str, noCase)
  {
    if l != [] {
      OthersAre(l[1..], str, noCase);
    }
  }

  lemma OthersNext(l: seq<string>, str: string, noCase: bool)
    requires l != []
    ensures Others(l, str, noCase)
            == if Same(l[0], str, noCase) then Others(l[1..], str, noCase) else [l[0]] + Others(l[1..], str, noCase)
  {}

  lemma {:induction false} OthersSplit(a: seq<string>, c: seq<string>, str: string, noCase: bool)
    ensures Others(a + c, str, noCase) == Others(a, str, noCase) + Others(c, str, noCase)
  {
    if a == [] {
      assert a + c == c;
    } else {
      hide *;
      assert (a + c)[1..] == a[1..] + c && (a + c)[0] == a[0];
      OthersSplit(a[1..], c, str, noCase);
      OthersNext(a, str, noCase);
      OthersNext(a + c, str, noCase);
      Regroup([a[0]], Others(a[1..], str, noCase), Others(c, str, noCase));
    }
  }

  lemma Regroup<T>(x: seq<T>, y: seq<T>, z: seq<T>)
    ensures x + (y + z) == (x + y) + z
  {}

  lemma {:induction false} OthersAll(l: seq<string>, str: string, noCase: bool)
    requires forall j :: 0 <= j < |l| ==> !Same(l[j], str, noCase)
    ensures Others(l, str, noCase) == l
  {
    hide Same;
    if l != [] {
      assert forall j :: 0 <= j < |l[1..]| ==> l[1..][j] == l[j + 1];
      OthersAll(l[1..], str, noCase);
    }
  }

  /** The inner loop of `usb_registry_mz_string_remove`: how many characters follow the string at `src`. */
  method SizeAfter(buf: array<char>, src: nat, ghost l: seq<string>) returns (size: nat)
    requires Holds(buf[..], src, l) && Proper(l) && l != []
    ensures size == |Encode(l[1..])|
    ensures src + |l[0]| + 1 + size <= buf.Length
  {
    ghost var b := buf[..];
    CountStarts(b, src, l);
    hide *;
    var p: nat := src;
    size := 0;
    ghost var k := 0;
    while buf[p] != NUL
      invariant p < buf.Length && EndOf(b, p) < |b| && k <= |l| && Counting(b, src, l, p, k, size)
      decreases |l| - k
    {
      CountNext(b, src, l, p, k, size);
      var n := Strlen(buf, p);
      p, k := p + n + 1, k + 1;
      var m := Strlen(buf, p);
      size := size + m + 1;
    }
    CountEnds(b, src, l, p, k, size);
  }

  /** At position `p`, past `k` strings, `size` counts the strings from the second up to the one at `p`. */
  ghost predicate Counting(b: seq<char>, src: nat, l: seq<string>, p: nat, k: nat, size: nat) {
    && l != [] && Walking(b, src, l, p, k) && EndOf(b, p) < |b|
    && (k == 0 ==> size == 0 && p == src)
    && (k > 0 ==> src + |l[0]| + 1 + size == EndOf(b, p) + 1)
  }

  lemma CountStarts(b: seq<char>, src: nat, l: seq<string>)
    requires Holds(b, src, l) && Proper(l) && l != []
    ensures src < |b| && EndOf(b, src) < |b| && Counting(b, src, l, src, 0, 0)
  {
    hide Holds, Proper, Walking;
    WalkStarts(b, src, l);
    WalkAt(b, src, l, src, 0);
  }

  lemma CountNext(b: seq<char>, src: nat, l: seq<string>, p: nat, k: nat, size: nat)
    requires Counting(b, src, l, p, k, size) && p < |b| && b[p] != NUL
    ensures var q := EndOf(b, p) + 1;
            q < |b| && k < |l| && EndOf(b, q) < |b| && Counting(b, src, l, q, k + 1, size + (EndOf(b, q) - q) + 1)
  {
    hide Walking, EndOf;
    WalkNext(b, src, l, p, k);
    FirstEnds(b, src, l, p, k);
    WalkAt(b, src, l, EndOf(b, p) + 1, k + 1);
  }

  lemma CountEnds(b: seq<char>, src: nat, l: seq<string>, p: nat, k: nat, size: nat)
    requires Counting(b, src, l, p, k, size) && p < |b| && b[p] == NUL
    ensures size == |Encode(l[1..])| && src + |l[0]| + 1 + size <= |b|
  {
    WalkAt(b, src, l, p, k);
    WalkEnds(b, src, l, p, k);
    hide Walking;
    EndHere(b, p);
    assert Flat(l) == l[0] + [NUL] + Flat(l[1..]);
  }

  lemma EndHere(b: seq<char>, p: nat)
    requires p < |b| && b[p] == NUL
    ensures EndOf(b, p) == p
  {}

  lemma WalkAt(b: seq<char>, start: nat, l: seq<string>, p: nat, k: nat)
    requires Walking(b, start, l, p, k)
    ensures p < |b| && k <= |l| && EndOf(b, p) < |b| && (k == |l| <==> b[p] == NUL)
  {
    hide Holds, Proper, Flat, Encode;
    HeldFirst(b, p, l[k..]);
  }

  lemma FirstEnds(b: seq<char>, start: nat, l: seq<string>, p: nat, k: nat)
    requires Walking(b, start, l, p, k) && k < |l|
    ensures k == 0 ==> p == start && EndOf(b, p) == start + |l[0]|
  {
    if k == 0 {
      assert l[..0] == [] && l[0..] == l;
      hide Holds, Proper, Encode;
      HeldFirst(b, p, l);
    }
  }

  /** `b'` is `b` with what follows the first string of `c`, which starts at `p`, moved over it. */
  predicate Cut(b: seq<char>, b': seq<char>, p: nat, c: seq<string>) {
    && c != []
    && var next, n := p + |c[0]| + 1, |Encode(c[1..])|;
       next + n <= |b| && b' == Over(b, p, b[next..next + n])
  }

  /** Moving what follows over the string cuts it out of the list. */
  lemma CutOut(b: seq<char>, b': seq<char>, a: seq<string>, c: seq<string>, q: nat)
    requires Holds(b, 0, a + c) && Proper(c) && q == |Flat(a)| && Cut(b, b', q, c)
    ensures Holds(b', 0, a + c[1..]) && Holds(b', q, c[1..])
  {
    hide Flat, Encode;
    HeldInParts(b, a, c);
    HeldFirst(b, q, c);
    var next, e := q + |c[0]| + 1, Encode(c[1..]);
    assert b'[q..q + |e|] == b[next..next + |e|] == e;
    assert b'[..q] == b[..q];
    HeldInParts(b', a, c[1..]);
  }

  /** What `usb_registry_mz_string_remove` has done when it has come past `kept`, with `rest` still to go. */
  ghost predicate Removing(b: seq<char>, l: seq<string>, str: string, noCase: bool, src: nat,
                           kept: seq<string>, rest: seq<string>) {
    && Holds(b, 0, kept + rest) && Holds(b, src, rest) && src == |Flat(kept)| && Proper(kept) && Proper(rest)
    && Others(l, str, noCase) == kept + Others(rest, str, noCase)
  }

  lemma RemovingNext(b: seq<char>, b': seq<char>, l: seq<string>, str: string, noCase: bool, src: nat,
                     kept: seq<string>, rest: seq<string>, k: nat, q: nat)
    requires Removing(b, l, str, noCase, src, kept, rest)
    requires k == FirstSame(rest, 0, str, noCase) < |rest| && q == src + |Flat(rest[..k])| && Cut(b, b', q, rest[k..])
    ensures Removing(b', l, str, noCase, q, kept + rest[..k], rest[k + 1..])
  {
    var before, c := rest[..k], rest[k..];
    Parts(kept, rest, k);
    hide Holds, Flat, Encode, Same, FirstSame, Others, Proper, Cut;
    CutOut(b, b', kept + before, c, q);
    OthersCut(rest, k, str, noCase);
    Regroup(kept, before, Others(c[1..], str, noCase));
  }

  lemma Parts(kept: seq<string>, rest: seq<string>, k: nat)
    requires k < |rest| && Proper(kept) && Proper(rest)
    ensures Proper(kept + rest[..k]) && Proper(rest[k..]) && Proper(rest[k + 1..])
    ensures kept + rest == (kept + rest[..k]) + rest[k..] && rest[k..][1..] == rest[k + 1..]
    ensures Flat(kept + rest[..k]) == Flat(kept) + Flat(rest[..k])
  {
    FlatAppend(kept, rest[..k]);
  }

  /** The entries before the first that is the same stay, this one goes. */
  lemma OthersCut(l: seq<string>, k: nat, str: string, noCase: bool)
    requires k == FirstSame(l, 0, str, noCase) < |l|
    ensures Others(l, str, noCase) == l[..k] + Others(l[k + 1..], str, noCase)
  {
    hide Same, FirstSame, Others;
    OthersSplit(l[..k], l[k..], str, noCase);
    OthersAll(l[..k], str, noCase);
    assert l == l[..k] + l[k..] && l[k..][1..] == l[k + 1..];
    OthersNext(l[k..], str, noCase);
  }

  /** One turn of `usb_registry_mz_string_remove`: cuts out the string found at `p`. */
  method RemoveAt(buf: array<char>, p: nat, ghost l: seq<string>)
    requires Holds(buf[..], p, l) && Proper(l) && l != []
    modifies buf
    ensures Cut(old(buf[..]), buf[..], p, l)
  {
    ghost var b := buf[..];
    assert EndOf(b, p) == p + |l[0]| < |b| by {
      HeldFirst(b, p, l);
    }
    hide *;
    var size := SizeAfter(buf, p, l);
    var n := Strlen(buf, p);
    assert buf[..] == b;
    Memmove(buf, p, p + n + 1, size);
    CutIs(b, buf[..], p, l, n, size);
  }

  lemma CutIs(b: seq<char>, b': seq<char>, p: nat, l: seq<string>, n: nat, size: nat)
    requires l != [] && n == |l[0]| && size == |Encode(l[1..])| && p + n + 1 + size <= |b|
    requires b' == Over(b, p, b[p + n + 1..p + n + 1 + size])
    ensures Cut(b, b', p, l)
  {}

  /** One turn of `usb_registry_mz_string_remove`: looks for the string from `src` on, and cuts it out. */
  method RemoveFirst(buf: array<char>, src: nat, str: string, noCase: bool,
                     ghost l: seq<string>, ghost kept: seq<string>, ghost rest: seq<string>)
    returns (found: Option<nat>, ghost kept': seq<string>, ghost rest': seq<string>)
    requires Removing(buf[..], l, str, noCase, src, kept, rest)
    modifies buf
    ensures found == None ==> rest' == rest && kept' == kept && buf[..] == old(buf[..])
                              && FirstSame(rest, 0, str, noCase) == |rest|
    ensures found.Some? ==> |rest'| < |rest| && Removing(buf[..], l, str, noCase, found.value, kept', rest')
  {
    ghost var b := buf[..];
    hide *;
    RemovingHolds(b, l, str, noCase, src, kept, rest);
    found := Find(buf, src, str, noCase, rest);
    assert buf[..] == b;
    ghost var k := FirstSame(rest, 0, str, noCase);
    LocatedIs(b, src, rest, k, found);
    if found == None {
      return None, kept, rest;
    }
    RemoveAt(buf, found.value, rest[k..]);
    RemovingNext(b, buf[..], l, str, noCase, src, kept, rest, k, found.value);
    return found, kept + rest[..k], rest[k + 1..];
  }

  /** `usb_registry_mz_string_remove` removes every entry that is the same, and keeps the others in order. */
  method Remove(buf: array<char>, str: string, noCase: bool)
    requires Terminated(buf[..], 0)
    modifies buf
    ensures Terminated(buf[..], 0)
    ensures Entries(buf[..], 0) == Others(old(Entries(buf[..], 0)), str, noCase)
  {
    ghost var l := Entries(buf[..], 0);
    EncodeUndoesEntries(buf[..], 0);
    RemovingStarts(buf[..], l, str, noCase);
    hide *;
    var src: nat := 0;
    ghost var kept: seq<string>, rest := [], l;
    while true
      invariant Removing(buf[..], l, str, noCase, src, kept, rest)
      decreases |rest|
    {
      var found;
      found, kept, rest := RemoveFirst(buf, src, str, noCase, l, kept, rest);
      if found == None {
        break;
      }
      src := found.value;
    }
    RemovingEnds(buf[..], l, str, noCase, src, kept, rest);
  }

  lemma LocatedIs(b: seq<char>, start: nat, l: seq<string>, k: nat, found: Option<nat>)
    requires Located(b, start, l, k, found)
    ensures k <= |l| && (found == None <==> k == |l|)
    ensures k < |l| ==>
              && found == Some(start + |Flat(l[..k])|) && Holds(b, found.value, l[k..]) && Proper(l[k..])
              && l[k..] != []
  {}

  lemma RemovingStarts(b: seq<char>, l: seq<string>, str: string, noCase: bool)
    requires Holds(b, 0, l) && Proper(l)
    ensures Removing(b, l, str, noCase, 0, [], l)
  {
    assert [] + l == l && [] + Others(l, str, noCase) == Others(l, str, noCase);
  }

  lemma RemovingHolds(b: seq<char>, l: seq<string>, str: string, noCase: bool, src: nat,
                      kept: seq<string>, rest: seq<string>)
    requires Removing(b, l, str, noCase, src, kept, rest)
    ensures Holds(b, src, rest) && Proper(rest)
  {}

  lemma RemovingEnds(b: seq<char>, l: seq<string>, str: string, noCase: bool, src: nat,
                     kept: seq<string>, rest: seq<string>)
    requires Removing(b, l, str, noCase, src, kept, rest) && FirstSame(rest, 0, str, noCase) == |rest|
    ensures Terminated(b, 0) && Entries(b, 0) == Others(l, str, noCase)
  {
    OthersAll(rest, str, noCase);
    hide Others, Holds;
    EntriesUndoesEncode(b, 0, kept + rest);
  }
}
