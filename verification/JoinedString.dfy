/** Multi-strings as one text with separators: `usb_registry_mz_to_sz` and the reading of a REG_SZ value in
    `usb_registry_get_mz_value` (libusb/src/registry.c). */
module JoinedString {
  import opened MultiString

  /** The strings with the separator between them. */
  function Join(l: seq<string>, separator: char): string {
    if l == [] then [] else if |l| == 1 then l[0] else l[0] + [separator] + Join(l[1..], separator)
  }

  /** What joining does to the first `n` characters of a buffer: every NUL that another string follows is replaced. */
  function JoinedChar(b: seq<char>, n: nat, i: nat, separator: char): char
    requires i < |b| && n <= |b|
  {
    if i + 1 < n && b[i] == NUL && b[i + 1] != NUL then separator else b[i]
  }

  function Joined(b: seq<char>, n: nat, separator: char): seq<char>
    requires n <= |b|
  {
    seq(|b|, i requires 0 <= i < |b| => JoinedChar(b, n, i, separator))
  }

  /** Reading a text: up to the first NUL every comma becomes a NUL. */
  function Split(b: seq<char>): seq<char> {
    seq(|b|, i requires 0 <= i < |b| => if i < EndOf(b, 0) && b[i] == ',' then NUL else b[i])
  }

  /** A comma becomes a NUL exactly if no NUL comes before it; nothing else changes. */
  lemma SplitIs(b: seq<char>, i: nat)
    requires i < |b|
    ensures |Split(b)| == |b|
    ensures Split(b)[i] == if b[i] == ',' && NUL !in b[..i] then NUL else b[i]
  {
    EndOfIs(b, 0);
    var e := EndOf(b, 0);
    assert b[0..e] == b[..e];
    if i < e {
      assert forall j :: 0 <= j < i ==> b[j] == b[..e][j];
    } else if e < i {
      assert b[..i][e] == NUL;
    }
  }

  // ----- the two directions undo each other -----

  predicate NoComma(l: seq<string>) {
    forall s :: s in l ==> ',' !in s
  }

  /** Two NULs follow each other at the end only. */
  predicate Shape(e: seq<char>) {
    && |e| >= 1 && e[|e| - 1] == NUL
    && (|e| > 1 ==> |e| > 2 && e[0] != NUL && e[|e| - 2] == NUL)
    && forall i :: 0 < i < |e| - 1 ==> e[i - 1] != NUL || e[i] != NUL
  }

  lemma ShapeNext(s: string, f: seq<char>)
    requires Entry(s) && Shape(f)
    ensures Shape(s + [NUL] + f)
  {
    var e := s + [NUL] + f;
    assert forall i :: 0 <= i < |f| ==> e[|s| + 1 + i] == f[i];
    forall i | 0 < i < |e| - 1 ensures e[i - 1] != NUL || e[i] != NUL {
      if i <= |s| {
        assert e[i - 1] == s[i - 1] && s[i - 1] in s;
      } else if i > |s| + 1 {
        var j := i - |s| - 1;
        assert e[i - 1] == f[j - 1] && e[i] == f[j];
      }
    }
  }

  lemma {:induction false} EncodeShape(l: seq<string>)
    requires Proper(l)
    ensures Shape(Encode(l))
  {
    if l != [] {
      assert l[0] in l;
      EncodeShape(l[1..]);
      assert Encode(l) == l[0] + [NUL] + Encode(l[1..]);
      hide Shape, Encode;
      ShapeNext(l[0], Encode(l[1..]));
    }
  }

  lemma {:induction false} EncodeCommas(l: seq<string>)
    requires NoComma(l)
    ensures ',' !in Encode(l)
  {
    if l != [] {
      assert l[0] in l;
      EncodeCommas(l[1..]);
      assert Encode(l) == l[0] + [NUL] + Encode(l[1..]);
    }
  }

  /** Joined with commas and read again, a list whose strings have no comma is the same again: the buffer is. */
  lemma SplitUndoesJoin(b: seq<char>)
    requires Terminated(b, 0) && NoComma(Entries(b, 0))
    ensures var n := |Encode(Entries(b, 0))|;
            n <= |b| && Split(Joined(b, n, ',')) == b
  {
    var l := Entries(b, 0);
    var n := |Encode(l)|;
    EncodeUndoesEntries(b, 0);
    EncodeShape(l);
    EncodeCommas(l);
    assert n <= |b| && b[..n] == b[0..n] == Encode(l);
    hide Encode, Entries, Terminated, Shape, Proper;
    SplitUndoesJoined(b, n);
  }

  lemma SplitUndoesJoined(b: seq<char>, n: nat)
    requires n <= |b| && Shape(b[..n]) && ',' !in b[..n]
    ensures Split(Joined(b, n, ',')) == b
  {
    var j, end := Joined(b, n, ','), if n == 1 then 0 else n - 2;
    var e := b[..n];
    assert forall i :: 0 <= i < n ==> b[i] == e[i] && e[i] in e;
    hide Joined;
    forall i | 0 <= i < |b| ensures j[i] == JoinedChar(b, n, i, ',') {
      JoinedIs(b, n, i, ',');
    }
    assert |j| == |b| by {
      JoinedIs(b, n, 0, ',');
    }
    forall i | 0 <= i < end ensures j[i] != NUL && (j[i] == ',' <==> b[i] == NUL) {
      assert i > 0 ==> e[i - 1] == b[i - 1];
      assert e[(i + 1) - 1] != NUL || e[i + 1] != NUL;
    }
    forall c | c in j[0..end] ensures c != NUL {}
    EndIs(j, 0, end);
  }

  lemma JoinedIs(b: seq<char>, n: nat, i: nat, separator: char)
    requires n <= |b| && i < |b|
    ensures |Joined(b, n, separator)| == |b| && Joined(b, n, separator)[i] == JoinedChar(b, n, i, separator)
    ensures JoinedChar(b, n, i, separator) == if i + 1 < n && b[i] == NUL && b[i + 1] != NUL then separator else b[i]
  {}

  /** The text that joining leaves is the strings with the separator between them. */
  lemma {:induction false} JoinedText(b: seq<char>, p: nat, n: nat, l: seq<string>, separator: char)
    requires Holds(b, p, l) && Proper(l) && l != [] && n == p + |Encode(l)| <= |b|
    ensures Joined(b, n, separator)[p..n] == Join(l, separator) + [NUL, NUL]
    decreases |l|
  {
    hide *;
    var q, j, t := p + |l[0]|, Joined(b, n, separator), l[1..];
    JoinedFirst(b, j, p, n, l, separator);
    JoinNext(l, separator);
    if t == [] {
      assert j[p..n] == j[p..q] + j[q..n];
    } else {
      JoinedText(b, q + 1, n, t, separator);
      ThreeParts(j, p, q, n);
      Regroup(l[0] + [separator], Join(t, separator), [NUL, NUL]);
    }
  }

  lemma ThreeParts(j: seq<char>, p: nat, q: nat, n: nat)
    requires p <= q < n <= |j|
    ensures j[p..n] == j[p..q] + [j[q]] + j[q + 1..n]
  {}

  lemma JoinNext(l: seq<string>, separator: char)
    requires l != []
    ensures Join(l, separator) == if l[1..] == [] then l[0] else l[0] + [separator] + Join(l[1..], separator)
  {}

  lemma JoinedFirst(b: seq<char>, j: seq<char>, p: nat, n: nat, l: seq<string>, separator: char)
    requires Holds(b, p, l) && Proper(l) && l != [] && n == p + |Encode(l)| <= |b|
    requires j == Joined(b, n, separator)
    ensures var q, t := p + |l[0]|, l[1..];
            && |j| == |b| && q + 1 < n && j[p..q] == l[0] && Holds(b, q + 1, t) && Proper(t) && n == q + 1 + |Encode(t)|
            && if t == [] then j[q..n] == [NUL, NUL] else j[q] == separator
  {
    var q, t := p + |l[0]|, l[1..];
    EncodeSome(t);
    hide *;
    HeldFirst(b, p, l);
    JoinedRun(b, n, p, q, separator);
    JoinedMark(b, n, q, t, separator);
  }

  lemma EncodeSome(l: seq<string>)
    ensures |Encode(l)| >= 1 && (l == [] ==> |Encode(l)| == 1)
  {}

  /** The character after a string: replaced if the strings `t` follow. */
  lemma JoinedMark(b: seq<char>, n: nat, q: nat, t: seq<string>, separator: char)
    requires q + 1 < n == q + 1 + |Encode(t)| <= |b| && b[q] == NUL && Holds(b, q + 1, t) && Proper(t)
    ensures if t == [] then Joined(b, n, separator)[q..n] == [NUL, NUL] else Joined(b, n, separator)[q] == separator
  {
    EncodeSome(t);
    hide *;
    assert t == [] <==> b[q + 1] == NUL by {
      HeldFirst(b, q + 1, t);
    }
    JoinedIs(b, n, q, separator);
    JoinedIs(b, n, q + 1, separator);
    if t == [] {
      TwoOf(Joined(b, n, separator), q, n);
    }
  }

  lemma TwoOf(j: seq<char>, q: nat, n: nat)
    requires n == q + 2 <= |j| && j[q] == j[q + 1] == NUL
    ensures j[q..n] == [NUL, NUL]
  {}

  lemma JoinedRun(b: seq<char>, n: nat, p: nat, q: nat, separator: char)
    requires p <= q <= |b| && n <= |b| && q == EndOf(b, p)
    ensures |Joined(b, n, separator)| == |b| && Joined(b, n, separator)[p..q] == b[p..q]
  {
    EndOfIs(b, p);
    forall i | p <= i < q ensures b[i] != NUL {
      assert b[p..q][i - p] in b[p..q];
    }
  }

  // ----- the loops -----

  /** `usb_registry_mz_to_sz`: joins the strings in place; the result says whether there are any. */
  method MzToSz(buf: array<char>, newSeparator: char) returns (success: bool)
    requires Terminated(buf[..], 0) && newSeparator != NUL
    modifies buf
    ensures success == (old(Entries(buf[..], 0)) != [])
    ensures var n := |Encode(old(Entries(buf[..], 0)))|;
            n <= buf.Length && buf[..] == Joined(old(buf[..]), n, newSeparator)
  {
    ghost var b, l := buf[..], Entries(buf[..], 0);
    ghost var n := |Encode(l)|;
    EncodeUndoesEntries(b, 0);
    assert n == |Flat(l)| + 1;
    WalkStarts(b, 0, l);
    WalkWithin(b, l, 0, 0);
    hide *;
    success := false;
    var p: nat := 0;
    ghost var k := 0;
    while buf[p] != NUL
      invariant p < buf.Length && Walking(b, 0, l, p, k) && k <= |l| && p < n <= |b|
      invariant success == (k > 0) && JoinedUpTo(b, buf[..], n, p, newSeparator) && buf[p] == b[p]
      decreases |l| - k
    {
      success := true;
      p := JoinOne(buf, p, newSeparator, b, l, k);
      k := k + 1;
    }
    WalkEnds(b, 0, l, p, k);
    JoinedAll(b, buf[..], n, p, newSeparator);
  }

  /** One turn: the NUL after the string at `p`, if another string follows. */
  method JoinOne(buf: array<char>, p: nat, newSeparator: char, ghost b: seq<char>, ghost l: seq<string>, ghost k: nat)
    returns (next: nat)
    requires p < buf.Length == |b| && |Encode(l)| <= |b| && b[p] != NUL
    requires Walking(b, 0, l, p, k) && JoinedUpTo(b, buf[..], |Encode(l)|, p, newSeparator)
    modifies buf
    ensures next < buf.Length && k + 1 <= |l| && next < |Encode(l)|
    ensures Walking(b, 0, l, next, k + 1) && JoinedUpTo(b, buf[..], |Encode(l)|, next, newSeparator)
    ensures buf[next] == b[next]
  {
    ghost var b0, n := buf[..], |Encode(l)|;
    hide *;
    JoinedAhead(b, b0, n, p, newSeparator);
    WalkNext(b, 0, l, p, k);
    var length := Strlen(buf, p);
    next := p + length;
    WalkWithin(b, l, next + 1, k + 1);
    JoinedPiece(b, b0, n, p, next, newSeparator);
    if buf[next + 1] != NUL {
      buf[next] := newSeparator;
    }
    assert buf[..] == b0[next := if b[next + 1] != NUL then newSeparator else NUL];
    JoinedNext(b, b0, buf[..], n, next, newSeparator);
    next := next + 1;
  }

  /** The first `p` characters have been joined, the others are as they were. */
  ghost predicate JoinedUpTo(b: seq<char>, b': seq<char>, n: nat, p: nat, separator: char) {
    && n <= |b| == |b'|
    && forall i :: 0 <= i < |b| ==> b'[i] == if i < p then JoinedChar(b, n, i, separator) else b[i]
  }

  lemma WalkWithin(b: seq<char>, l: seq<string>, p: nat, k: nat)
    requires Walking(b, 0, l, p, k)
    ensures p < |b| && p < |Encode(l)| && k <= |l|
  {
    assert l == l[..k] + l[k..];
    FlatAppend(l[..k], l[k..]);
  }

  lemma {:induction false} EndOfSame(b: seq<char>, b': seq<char>, p: nat)
    requires p <= |b| == |b'| && forall i :: p <= i < |b| ==> b'[i] == b[i]
    ensures EndOf(b', p) == EndOf(b, p)
    decreases |b| - p
  {
    if p < |b| && b[p] != NUL {
      EndOfSame(b, b', p + 1);
    }
  }

  lemma JoinedAhead(b: seq<char>, b': seq<char>, n: nat, p: nat, separator: char)
    requires JoinedUpTo(b, b', n, p, separator) && p < |b|
    ensures |b| == |b'| && b'[p] == b[p] && EndOf(b', p) == EndOf(b, p)
  {
    EndOfSame(b, b', p);
  }

  lemma JoinedPiece(b: seq<char>, b': seq<char>, n: nat, p: nat, q: nat, separator: char)
    requires JoinedUpTo(b, b', n, p, separator) && p <= |b| == |b'| && q == EndOf(b, p) && q + 1 < |b|
    ensures JoinedUpTo(b, b', n, q, separator) && b[q] == NUL && b'[q] == NUL && b'[q + 1] == b[q + 1]
  {
    EndOfIs(b, p);
    assert forall i :: p <= i < q ==> b[i] == b[p..q][i - p];
  }

  lemma JoinedNext(b: seq<char>, b0: seq<char>, b': seq<char>, n: nat, q: nat, separator: char)
    requires JoinedUpTo(b, b0, n, q, separator) && q + 1 < n <= |b| == |b0| && b[q] == NUL
    requires b' == b0[q := if b[q + 1] != NUL then separator else NUL]
    ensures JoinedUpTo(b, b', n, q + 1, separator) && b'[q + 1] == b[q + 1]
  {}

  lemma JoinedAll(b: seq<char>, b': seq<char>, n: nat, p: nat, separator: char)
    requires JoinedUpTo(b, b', n, p, separator) && p + 1 == n
    ensures b' == Joined(b, n, separator)
  {}

  /** The loop of `usb_registry_get_mz_value` over a REG_SZ value. */
  method SplitCommas(buf: array<char>)
    requires EndOf(buf[..], 0) < buf.Length
    modifies buf
    ensures buf[..] == Split(old(buf[..]))
  {
    ghost var b := buf[..];
    var p := 0;
    while buf[p] != NUL
      invariant 0 <= p < buf.Length && EndOf(b, 0) == EndOf(b, p)
      invariant forall i :: 0 <= i < buf.Length ==> buf[i] == if i < p && b[i] == ',' then NUL else b[i]
      decreases buf.Length - p
    {
      if buf[p] == ',' {
        buf[p] := NUL;
      }
      p := p + 1;
    }
  }
}
