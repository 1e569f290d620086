/** The ring of asynchronous transfers of the benchmark program (libusb/examples/benchmark.c). Transfers are numbered in
    the order in which they are submitted. */
module TransferRing {
  import opened Arithmetic

  /** The result of a call into the library: negative for an error, among them a timeout. */
  type Result = int

  /** The transfers submitted and not yet reaped are spread over consecutive handles, the oldest at the wait index. */
  ghost predicate Spread(count: nat, inUse: seq<bool>, carries: seq<nat>, reaped: nat, submitted: nat)
    requires count > 0
  {
    && |inUse| == |carries| == count && reaped <= submitted <= reaped + count
    && (forall t :: reaped <= t < submitted ==> inUse[t % count] && carries[t % count] == t)
    && (forall j :: 0 <= j < count && inUse[j] ==> reaped <= carries[j] < submitted && carries[j] % count == j)
  }

  /** Fewer than `count` transfers in a row use different handles. */
  lemma HandlesDiffer(s: nat, t: nat, count: nat)
    requires s < t < s + count
    ensures s % count != t % count
  {
    var q := s / count;
    if s % count == t % count {
      assert t - s == (t / count - q) * count;
      MultipleBound(t / count - q, count);
    }
  }

  /** `INC_ROLL`. */
  lemma NextRolls(t: nat, count: nat)
    requires count > 0
    ensures (t + 1) % count == if t % count + 1 >= count then 0 else t % count + 1
  {
    var q, r := t / count, t % count;
    if r + 1 >= count {
      assert t + 1 == (q + 1) * count;
      ModOf(q + 1, 0, count);
    } else {
      assert t + 1 == q * count + (r + 1);
      ModOf(q, r + 1, count);
    }
  }

  lemma SubmitSpreads(count: nat, inUse: seq<bool>, carries: seq<nat>, reaped: nat, submitted: nat)
    requires count > 0 && Spread(count, inUse, carries, reaped, submitted) && submitted < reaped + count
    ensures var j := submitted % count;
            !inUse[j] && Spread(count, inUse[j := true], carries[j := submitted], reaped, submitted + 1)
  {
    forall t | reaped <= t < submitted ensures t % count != submitted % count {
      HandlesDiffer(t, submitted, count);
    }
  }

  lemma ReapSpreads(count: nat, inUse: seq<bool>, carries: seq<nat>, reaped: nat, submitted: nat)
    requires count > 0 && Spread(count, inUse, carries, reaped, submitted) && reaped < submitted
    ensures var j := reaped % count;
            && inUse[j] && carries[j] == reaped
            && Spread(count, inUse[j := false], carries, reaped + 1, submitted)
  {
    forall t | reaped < t < submitted ensures t % count != reaped % count {
      HandlesDiffer(reaped, t, count);
    }
  }

  class Transfers {
    const count: nat                    // Test->BufferCount
    const inUse: array<bool>
    const context: array<bool>          // handle->Context is set up
    var outstanding: nat
    var nextIndex: nat
    var waitIndex: nat
    ghost var carries: seq<nat>         // the transfer last submitted with each handle
    ghost var reaped: nat
    ghost var submitted: nat

    ghost predicate Valid()
      reads this, inUse, context
    {
      && count > 0 && inUse.Length == context.Length == |carries| == count && inUse != context
      && Spread(count, inUse[..], carries, reaped, submitted)
      && outstanding == submitted - reaped && nextIndex == submitted % count && waitIndex == reaped % count
      && forall j :: 0 <= j < count && inUse[j] ==> context[j]
    }

    constructor (count: nat)
      requires count > 0
      ensures Valid() && this.count == count && submitted == 0 && reaped == 0 && fresh(inUse) && fresh(context)
    {
      this.count, outstanding, nextIndex, waitIndex := count, 0, 0, 0;
      inUse, context := new bool[count](_ => false), new bool[count](_ => false);
      carries, reaped, submitted := seq(count, _ => 0), 0, 0;
      new;
      ModOf(0, 0, count);
    }

    /** The next index is always the wait index plus what is outstanding, modulo the number of handles. */
    lemma IndicesAgree()
      requires Valid()
      ensures nextIndex == (waitIndex + outstanding) % count
    {
      var q := reaped / count;
      assert submitted == q * count + (waitIndex + outstanding);
      var x := waitIndex + outstanding;
      assert submitted == (q + x / count) * count + x % count by {
        assert x == (x / count) * count + x % count;
        assert (q + x / count) * count == q * count + (x / count) * count;
      }
      ModOf(q + x / count, x % count, count);
    }

    /** Submits one more transfer, on a handle that carries none. */
    method Submit() returns (ret: Result)
      requires Valid() && outstanding < count
      modifies this, inUse, context
      ensures Valid() && reaped == old(reaped) && submitted == old(submitted) + (if ret >= 0 then 1 else 0)
      ensures ret >= 0 ==> !old(inUse[nextIndex]) && carries[old(nextIndex)] == old(submitted)
    {
      hide Spread;
      ghost var j := nextIndex;
      SubmitSpreads(count, inUse[..], carries, reaped, submitted);
      NextRolls(submitted, count);
      if !context[nextIndex] {
        ret := *;
        if ret < 0 {
          return;
        }
        context[nextIndex] := true;
      }
      ret := *;
      if ret < 0 {
        return;
      }
      inUse[nextIndex] := true;
      outstanding := outstanding + 1;
      nextIndex := nextIndex + 1;
      if nextIndex >= count {
        nextIndex := 0;
      }
      carries, submitted := carries[j := submitted], submitted + 1;
      assert inUse[..] == old(inUse[..])[j := true];
    }

    /** `TransferAsync`: keeps all handles busy, then waits for the oldest transfer, and so reaps transfers in the order
        in which they were submitted. A wait that fails leaves the oldest transfer the next to be waited for. */
    method TransferAsync() returns (ret: Result, handle: nat)
      requires Valid()
      modifies this, inUse, context
      ensures Valid() && submitted >= old(submitted)
      ensures reaped == old(reaped) + (if ret >= 0 then 1 else 0)
      ensures ret >= 0 ==> handle == old(waitIndex) && carries[handle] == old(reaped) && submitted == reaped + count - 1
    {
      ret, handle := 0, 0;
      while outstanding < count
        invariant Valid() && reaped == old(reaped) && submitted >= old(submitted)
        decreases count - outstanding
      {
        handle := nextIndex;
        ret := Submit();
        if ret < 0 {
          return;
        }
      }
      hide Spread;
      ReapSpreads(count, inUse[..], carries, reaped, submitted);
      NextRolls(reaped, count);
      handle := waitIndex;
      ret := *;
      if ret < 0 {
        return;
      }
      inUse[handle] := false;
      outstanding := outstanding - 1;
      waitIndex := waitIndex + 1;
      if waitIndex >= count {
        waitIndex := 0;
      }
      reaped := reaped + 1;
    }

    /** The end of `TransferThreadProc`: cancels what has not been reaped and frees every context. So each transfer is
        reaped or cancelled, once. */
    method Close() returns (ghost cancelled: seq<nat>)
      requires Valid()
      modifies inUse, context
      ensures forall j :: 0 <= j < count ==> !inUse[j] && !context[j]
      ensures forall t :: t in cancelled <==> reaped <= t < submitted
      ensures Once(cancelled)
    {
      cancelled := [];
      ghost var was := inUse[..];
      hide Spread, Once;
      CancelNone(count, reaped, submitted);
      for i := 0 to count
        invariant forall j :: 0 <= j < count ==>
                    inUse[j] == (was[j] && j >= i) && context[j] == (old(context[j]) && j >= i)
        invariant CancelledUpTo(count, reaped, submitted, cancelled, i)
      {
        CancelNext(count, was, carries, reaped, submitted, cancelled, i);
        if context[i] {
          if inUse[i] {
            inUse[i] := false;
            cancelled := cancelled + [carries[i]];
          }
          context[i] := false;
        }
      }
      CancelAll(count, reaped, submitted, cancelled);
    }
  }

  ghost predicate Once(s: seq<nat>) {
    forall i, j :: 0 <= i < j < |s| ==> s[i] != s[j]
  }

  /** The transfers on the first `n` handles have been cancelled. */
  ghost predicate CancelledUpTo(count: nat, reaped: nat, submitted: nat, cancelled: seq<nat>, n: nat)
    requires count > 0
  {
    Once(cancelled) && forall t :: t in cancelled <==> reaped <= t < submitted && t % count < n
  }

  lemma CancelNone(count: nat, reaped: nat, submitted: nat)
    requires count > 0
    ensures CancelledUpTo(count, reaped, submitted, [], 0)
  {}

  lemma CancelNext(count: nat, inUse: seq<bool>, carries: seq<nat>, reaped: nat, submitted: nat, cancelled: seq<nat>,
                   n: nat)
    requires n < count == |inUse| == |carries| && Spread(count, inUse, carries, reaped, submitted)
    requires CancelledUpTo(count, reaped, submitted, cancelled, n)
    ensures CancelledUpTo(count, reaped, submitted, if inUse[n] then cancelled + [carries[n]] else cancelled, n + 1)
  {
    assert forall t :: reaped <= t < submitted && t % count == n ==> inUse[n] && t == carries[n];
    if inUse[n] {
      assert carries[n] !in cancelled;
    }
  }

  lemma CancelAll(count: nat, reaped: nat, submitted: nat, cancelled: seq<nat>)
    requires count > 0 && CancelledUpTo(count, reaped, submitted, cancelled, count)
    ensures Once(cancelled) && forall t :: t in cancelled <==> reaped <= t < submitted
  {}
}
