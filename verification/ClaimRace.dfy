/** Claims that overlap (libusb/src/driver/claim_interface.c). The driver takes no lock around them: a claim tests who
    owns the interface and, if nobody does, writes its file object in a later step. Any number of claims of one
    interface of a configured device run interleaved; a release is one step. */
module ClaimRace {
  import opened Bytes
  import opened DescriptorCache
  import opened DeviceModel
  import opened InterfaceLookup
  import opened InterfaceOwnership

  /** Where a claim stands: before its test, past a test that found the interface free, or returned. */
  datatype Pc = Started | Passed | Returned(status: Status)

  datatype Call = Call(file: File, pc: Pc)

  /** `holders` are the files that have been told that the interface is theirs and have not released it since. */
  datatype State = State(owner: File, calls: seq<Call>, holders: set<File>)

  datatype Step = Arrive(file: File) | Test(id: nat) | Write(id: nat) | Free(file: File)

  function Return(s: State, id: nat, status: Status): State
    requires id < |s.calls|
  {
    var f := s.calls[id].file;
    s.(calls := s.calls[id := Call(f, Returned(status))],
       holders := if status == Success then s.holders + {f} else s.holders)
  }

  function Apply(s: State, e: Step): Option<State> {
    match e
    case Arrive(f) => if f == NOBODY then None else Some(s.(calls := s.calls + [Call(f, Started)]))
    case Test(id) =>
      if id >= |s.calls| || s.calls[id].pc != Started then None
      else if s.owner == s.calls[id].file then Some(Return(s, id, Success))
      else if s.owner != NOBODY then Some(Return(s, id, DeviceBusy))
      else Some(s.(calls := s.calls[id := s.calls[id].(pc := Passed)]))
    case Write(id) =>
      if id >= |s.calls| || s.calls[id].pc != Passed then None
      else Some(Return(s, id, Success).(owner := s.calls[id].file))
    case Free(f) => if s.owner != f || f == NOBODY then None else Some(s.(owner := NOBODY, holders := s.holders - {f}))
  }

  function Run(s: State, steps: seq<Step>): Option<State>
    decreases |steps|
  {
    if steps == [] then Some(s)
    else match Apply(s, steps[0]) case None => None case Some(t) => Run(t, steps[1..])
  }

  function Initial(): State {
    State(NOBODY, [], {})
  }

  // ----- a claim that nothing disturbs -----

  /** Test and write in a row are the claim that the other modules take as one step. */
  lemma UndisturbedClaim(d: Driver, file: File, n: nat, s: State)
    requires Sized(d) && d.value != 0 && n < MAX_INTERFACES && d.valid[n] && file != NOBODY
    requires s.owner == d.owner[n] && s.calls == [Call(file, Started)]
    ensures var (status, after) := Claim(d, file, n);
            var steps := if d.owner[n] == NOBODY then [Test(0), Write(0)] else [Test(0)];
            && Run(s, steps).Some?
            && Run(s, steps).value.owner == after.owner[n]
            && Run(s, steps).value.calls == [Call(file, Returned(status))]
  {
    if d.owner[n] == NOBODY {
      var t := Apply(s, Test(0)).value;
      assert [Test(0), Write(0)][1..] == [Write(0)] && [Write(0)][1..] == [];
      assert Run(t, [Write(0)]) == Apply(t, Write(0));
    } else {
      assert [Test(0)][1..] == [];
    }
  }

  /** The step of a release is the release that the other modules take as one step; it can be taken when that succeeds. */
  lemma UndisturbedRelease(d: Driver, file: File, n: nat, s: State)
    requires Sized(d) && d.value != 0 && n < MAX_INTERFACES && d.valid[n] && file != NOBODY && s.owner == d.owner[n]
    ensures Apply(s, Free(file)).Some? <==> Release(d, file, n).0 == Success
    ensures Apply(s, Free(file)).Some? ==>
              var t := Apply(s, Free(file)).value;
              t.owner == Release(d, file, n).1.owner[n] && file !in t.holders && t.calls == s.calls
  {}

  // ----- when claims exclude each other -----

  /** At most one file has been told that the interface is its own. */
  ghost predicate Exclusive(s: State) {
    forall f, g :: f in s.holders && g in s.holders ==> f == g
  }

  /** A test that finds the interface free between another file's test and its write. */
  ghost predicate Clashes(s: State, e: Step) {
    && e.Test? && e.id < |s.calls| && s.owner == NOBODY
    && exists k :: 0 <= k < |s.calls| && s.calls[k].pc == Passed && s.calls[k].file != s.calls[e.id].file
  }

  ghost predicate NoClash(s: State, steps: seq<Step>)
    decreases |steps|
  {
    steps == []
    || (!Clashes(s, steps[0]) && match Apply(s, steps[0]) case None => true case Some(t) => NoClash(t, steps[1..]))
  }

  /** The owner is the one holder, and all claims past their test are of one file, no other file's holding. */
  ghost predicate Orderly(s: State) {
    && s.holders == (if s.owner == NOBODY then {} else {s.owner})
    && (forall i :: 0 <= i < |s.calls| ==> s.calls[i].file != NOBODY)
    && (forall i :: 0 <= i < |s.calls| && s.calls[i].pc == Passed ==> s.owner in {NOBODY, s.calls[i].file})
    && (forall i, j :: 0 <= i < j < |s.calls| && s.calls[i].pc == s.calls[j].pc == Passed ==>
          s.calls[i].file == s.calls[j].file)
  }

  lemma StepOrderly(s: State, e: Step)
    requires Orderly(s) && !Clashes(s, e) && Apply(s, e).Some?
    ensures Orderly(Apply(s, e).value)
  {
    var t := Apply(s, e).value;
    forall i, j | 0 <= i < j < |t.calls| && t.calls[i].pc == t.calls[j].pc == Passed
      ensures t.calls[i].file == t.calls[j].file
    {
      if e.Test? && e.id == i {
        assert s.calls[j].pc == Passed;
      } else if e.Test? && e.id == j {
        assert s.calls[i].pc == Passed;
      } else {
        assert s.calls[i].pc == s.calls[j].pc == Passed;
      }
    }
  }

  /** As long as no test falls between another file's test and its write, claims exclude each other. */
  lemma {:induction false} OrderlyRuns(s: State, steps: seq<Step>)
    requires Orderly(s) && NoClash(s, steps) && Run(s, steps).Some?
    ensures Orderly(Run(s, steps).value) && Exclusive(Run(s, steps).value)
    decreases |steps|
  {
    if steps != [] {
      StepOrderly(s, steps[0]);
      hide Orderly, Exclusive, Clashes, Apply;
      OrderlyRuns(Apply(s, steps[0]).value, steps[1..]);
    }
  }

  /** After a test that clashes both claims can only write, and both files are told that the interface is theirs. */
  lemma ClashLoses(s: State, id: nat, k: nat)
    requires id < |s.calls| && k < |s.calls| && s.owner == NOBODY && s.calls[id].file != NOBODY
    requires s.calls[id].pc == Started && s.calls[k].pc == Passed && s.calls[k].file != s.calls[id].file
    ensures var t := Apply(s, Test(id)).value;
            var more := [Write(k), Write(id)];
            && NoClash(t, more) && Run(t, more).Some? && !Exclusive(Run(t, more).value)
            && |Run(t, more).value.calls| == |s.calls|
            && Run(t, more).value.calls[id].pc == Run(t, more).value.calls[k].pc == Returned(Success)
  {
    var t := Apply(s, Test(id)).value;
    var more := [Write(k), Write(id)];
    assert t.calls[k] == s.calls[k] && t.calls[id].pc == Passed;
    var u := Apply(t, Write(k)).value;
    assert u.calls[id] == t.calls[id];
    var v := Apply(u, Write(id)).value;
    assert more[1..] == [Write(id)] && [Write(id)][1..] == [];
    RunStep(t, more);
    RunStep(u, [Write(id)]);
    RunNothing(v);
    assert NoClash(u, [Write(id)]);
    assert s.calls[id].file in v.holders && s.calls[k].file in v.holders;
  }

  /** The exact condition on a claim's test: after it, claims exclude each other in every further run without clashes if
      and only if it does not fall, on a free interface, between another file's test and its write. */
  lemma ClaimsExcludeExactly(s: State, id: nat)
    requires Orderly(s) && id < |s.calls| && s.calls[id].pc == Started
    ensures (forall more :: var t := Apply(s, Test(id)).value;
                            NoClash(t, more) && Run(t, more).Some? ==> Exclusive(Run(t, more).value))
            <==> !Clashes(s, Test(id))
  {
    var t := Apply(s, Test(id)).value;
    if Clashes(s, Test(id)) {
      var k :| 0 <= k < |s.calls| && s.calls[k].pc == Passed && s.calls[k].file != s.calls[id].file;
      ClashLoses(s, id, k);
      var more := [Write(k), Write(id)];
      hide Exclusive, NoClash, Run;
      assert NoClash(t, more) && Run(t, more).Some? && !Exclusive(Run(t, more).value);
    } else {
      StepOrderly(s, Test(id));
      forall more | NoClash(t, more) && Run(t, more).Some? ensures Exclusive(Run(t, more).value) {
        OrderlyRuns(t, more);
      }
    }
  }

  /** Two files claim a free interface at once, and both calls return success. */
  lemma BothSucceed(f: File, g: File)
    requires f != g && f != NOBODY && g != NOBODY
    ensures var steps := [Arrive(f), Arrive(g), Test(0), Test(1), Write(0), Write(1)];
            Run(Initial(), steps) == Some(State(g, [Call(f, Returned(Success)), Call(g, Returned(Success))], {f, g}))
  {
    var steps := [Arrive(f), Arrive(g), Test(0), Test(1), Write(0), Write(1)];
    var a := Apply(Initial(), steps[0]).value;
    var b := Apply(a, steps[1]).value;
    assert a.calls == [Call(f, Started)] && b.calls == [Call(f, Started), Call(g, Started)];
    var c := Apply(b, steps[2]).value;
    assert c.calls == [Call(f, Passed), Call(g, Started)];
    var d := Apply(c, steps[3]).value;
    assert d.calls == [Call(f, Passed), Call(g, Passed)];
    var e := Apply(d, steps[4]).value;
    assert e.calls == [Call(f, Returned(Success)), Call(g, Passed)];
    var z := Apply(e, steps[5]).value;
    assert z.calls == [Call(f, Returned(Success)), Call(g, Returned(Success))] && z.holders == {f, g};
    RunNothing(z);
    assert steps[5..][1..] == [] && steps[4..][1..] == steps[5..] && steps[3..][1..] == steps[4..];
    assert steps[2..][1..] == steps[3..] && steps[1..][1..] == steps[2..];
    hide Run;
    RunStep(e, steps[5..]);
    RunStep(d, steps[4..]);
    RunStep(c, steps[3..]);
    RunStep(b, steps[2..]);
    RunStep(a, steps[1..]);
    RunStep(Initial(), steps);
  }

  lemma RunNothing(s: State)
    ensures Run(s, []) == Some(s)
  {}

  lemma RunStep(s: State, steps: seq<Step>)
    requires steps != [] && Apply(s, steps[0]).Some?
    ensures Run(s, steps) == Run(Apply(s, steps[0]).value, steps[1..])
  {}
}
