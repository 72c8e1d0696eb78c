/** What a view proposes again: compensations, which leave no trace in the state until they succeed. */
module ClothoCompensation {
  import opened Basics
  import opened Bytes
  import opened ClothoGraph
  import opened ClothoLog
  import opened ClothoView
  import opened ClothoSteps
  import opened ClothoRuns
  import opened ClothoTheorems

  // ----- one view after another -----

  /** A state has one view. */
  lemma ViewIsUnique(d: Definition, s: State, r: Outcome, q: Outcome)
    requires IsView(d, s, r) && IsView(d, s, q)
    ensures r == q
  {
    hide Finished, StepsFrom, Blocks, LexLess, OnBlocking;
    forall id, o, ids: set<Id> | IsFirst(id, ids) && IsFirst(o, ids) ensures id == o {
      LexTrichotomy(id, o);
    }
    forall i: nat, j: nat | FirstBlocking(d, s, i) && FirstBlocking(d, s, j) ensures i == j {
    }
  }

  /** The acts whose photon changes nothing in the state. */
  predicate Traceless(act: Act) {
    act.CompensateNode? || (act.RecordCompensation? && !act.success)
  }

  lemma TracelessChangesNothing(f: Folding, act: Act)
    requires Traceless(act)
    ensures Apply(f, Refract(act)) == f
  {
  }

  /** After any other act that was due, the same act is due no more. */
  lemma OthersAreDone(d: Definition, f: Folding, act: Act)
    requires Due(d, Settled(f.state), act) && !Traceless(act)
    ensures !Due(d, Settled(Apply(f, Refract(act)).state), act)
  {
    hide Apply, HasRoom, Clear, FirstBlocking;
    var id := if act.Step? then act.node.id else act.id;
    OnePhoton(f, Refract(act), id);
    if act.Step? {
      var t := Settled(Apply(f, Refract(act)).state);
      forall i | 0 <= i < |d.nodes| && StepFor(d.nodes[i], t) == act ensures !Eligible(d, t, d.nodes[i]) {
        assert d.nodes[i].id == id;
      }
    }
  }

  /** An executed act of a view is among the acts of the next view exactly when it is traceless. */
  lemma ProposedAgainExactly(d: Definition, log: seq<Photon>, acts: seq<Act>, act: Act, next: Outcome)
    requires act in acts && IsView(d, Current(log), Proposes(acts))
    ensures IsView(d, Current(log + [Refract(act)]), next) ==>
      (next.Proposes? && act in next.acts <==> Traceless(act))
  {
    hide IsView, Apply, Fold, Due, Refract, Traceless;
    FoldOneMore(log, Refract(act));
    ProposedIsDue(d, Current(log), acts, act);
    if IsView(d, Current(log + [Refract(act)]), next) {
      if Traceless(act) {
        TracelessChangesNothing(Fold(log), act);
        ViewIsUnique(d, Current(log), Proposes(acts), next);
      } else {
        OthersAreDone(d, Fold(log), act);
        if next.Proposes? && act in next.acts {
          ProposedIsDue(d, Current(log + [Refract(act)]), next.acts, act);
          assert false;
        }
      }
    }
  }

  // ----- while a failed compensation is not made good -----

  /** The last compensating act of `id` that ended failed, and none was recorded as a success. */
  predicate Failing(s: State, id: Id) {
    id in s.compensation && !s.compensation[id] && id !in s.compensated
  }

  /** Photon `j` ends an act that was started to compensate `id`, with success. */
  predicate MakesGood(log: seq<Photon>, j: nat, id: Id)
    requires j < |log|
  {
    log[j].ActEnded? && log[j].success && ActStarted(log[j].act, Some(Work(id, true))) in log[..j]
  }

  /** Only a success that is recorded, or one that ends, makes it good. */
  lemma FailingPhoton(f: Folding, p: Photon, id: Id)
    requires Failing(f.state, id) && p != CompensationCompleted(id)
    requires p.ActEnded? && p.success && p.act in f.acts ==> f.acts[p.act] != Work(id, true)
    ensures Failing(Apply(f, p).state, id)
  {
  }

  lemma NotRecordedAsGood(d: Definition, log: seq<Photon>, m: Move, id: Id)
    requires Allowed(d, log, m) && Failing(Fold(log).state, id)
    ensures Emitted(m) != CompensationCompleted(id)
  {
    hide IsView, Fold, StepDue, FirstBlocking;
    if m.Execute? {
      ExecutedIsDue(d, log, m.proposed);
    }
  }

  lemma FailingStep(d: Definition, log: seq<Photon>, m: Move, id: Id)
    requires Allowed(d, log, m) && Failing(Fold(log).state, id)
    requires forall a | a in Fold(log).acts :: ActStarted(a, Some(Fold(log).acts[a])) in log
    requires !MakesGood(log + [Emitted(m)], |log|, id)
    ensures Failing(Apply(Fold(log), Emitted(m)).state, id)
  {
    hide Allowed, Fold, Apply, Emitted, Failing;
    var p := Emitted(m);
    assert (log + [p])[..|log|] == log && (log + [p])[|log|] == p;
    NotRecordedAsGood(d, log, m, id);
    FailingPhoton(Fold(log), p, id);
  }

  lemma {:induction false} FailingStays(d: Definition, log: seq<Photon>, n: nat, id: Id)
    requires Reachable(d, log) && n <= |log| && Failing(Fold(log[..n]).state, id)
    requires forall j | n <= j < |log| :: !MakesGood(log, j, id)
    ensures Failing(Fold(log).state, id)
    decreases |log|
  {
    hide Allowed, Apply, Fold, Failing;
    if n == |log| {
      assert log[..n] == log;
    } else {
      var last := |log| - 1;
      var init := log[..last];
      assert init[..n] == log[..n];
      forall j | n <= j < |init| ensures !MakesGood(init, j, id) {
        assert init[j] == log[j] && init[..j] == log[..j];
        assert !MakesGood(log, j, id);
      }
      FailingStays(d, init, n, id);
      var m := MoveAt(d, log, last);
      assert log == init + [Emitted(m)];
      TerminalMeaning(init, id);
      FailingStep(d, init, m, id);
      FoldOneMore(init, Emitted(m));
    }
  }

  /**
   * From a failed compensation of `id` on, as long as no act compensating `id` ends with success, no view
   * starts a node or proposes a compensation: only outcomes are recorded.
   */
  lemma NothingStartsMeanwhile(d: Definition, log: seq<Photon>, n: nat, id: Id, r: Outcome)
    requires Reachable(d, log) && n <= |log| && Failing(Current(log[..n]), id)
    requires forall j | n <= j < |log| :: !MakesGood(log, j, id)
    requires IsView(d, Current(log), r)
    ensures r.Proposes?
    ensures forall act | act in r.acts :: act.RecordStep? || act.RecordCompensation?
  {
    FailingStays(d, log, n, id);
    hide Reachable, Fold, Finished, IsFirst;
    assert id in Uncompensated(Current(log));
  }

  /** It can be made good: the dispatch may be answered once more, and a success is then to be recorded. */
  lemma LateSuccessIsPossible(d: Definition, log: seq<Photon>, id: Id, a: nat)
    requires Reachable(d, log) && CompensationDispatched(id) in log && Failing(Current(log), id)
    ensures var more := log + [ActStarted(a, Some(Work(id, true)))] + [ActEnded(a, true)];
      && Reachable(d, more) && MakesGood(more, |log| + 1, id)
      && id in Uncompensated(Current(more)) && Current(more).compensation[id]
  {
    hide Reachable, Fold;
    RunWork(d, log, Fold(log), a, Work(id, true), true);
    var start := log + [ActStarted(a, Some(Work(id, true)))];
    var more := start + [ActEnded(a, true)];
    assert more[..|log| + 1] == start && start[|log|] == ActStarted(a, Some(Work(id, true)));
  }

  // ----- a run -----

  const P: Id := [112]

  const FAILING := Node(P, [], true, false, false, Some(Compensate), None, [], Always, true)

  const UNDO := Definition([FAILING], None, None, map[])

  /** The node fails. */
  const FAILED: seq<Photon> := [
    StepDispatched(P), ActStarted(1, Some(Work(P, false))), ActEnded(1, false), StepFailed(P)]

  /** It is compensated, and that fails too. */
  const COMPENSATED_IN_VAIN: seq<Photon> :=
    FAILED + [CompensationDispatched(P), ActStarted(2, Some(Work(P, true))), ActEnded(2, false)]

  const AFTER_END := Folding(State({}, {}, {}, map[P := 1], {P}, map[P := false], map[], {}, false, false),
                             map[1 := Work(P, false)])
  const AFTER_FAILURE := AFTER_END.(state := AFTER_END.state.(failed := {P}))
  const AFTER_COMPENSATION := Folding(AFTER_FAILURE.state.(compensation := map[P := false]),
                                      map[1 := Work(P, false), 2 := Work(P, true)])

  lemma UndoIsAcceptable()
    ensures Acceptable(UNDO.nodes) && SortedById(UNDO.nodes)
  {
    assert UNDO.nodes[0] == FAILING;
    assert Ranks(UNDO.nodes, map[P := 0]);
  }

  lemma NothingFinished(s: State)
    requires s.succeeded == {} && s.skipped == {} && s.compensated == {}
    ensures Finished(UNDO, s) == 0
  {
    assert UNDO.nodes[0] == FAILING;
    assert ContinuedFailures(UNDO, s) == {};
  }

  lemma NodeIsProposed()
    ensures IsView(UNDO, EMPTY.state, Proposes([StepFor(FAILING, EMPTY.state)]))
  {
    var s := EMPTY.state;
    assert UNDO.nodes[0] == FAILING;
    NothingFinished(s);
    assert Unrecorded(s) == {} && Uncompensated(s) == {};
    assert StepsFrom(UNDO, s, 1, {P}) == [];
    assert {} + {P} == {P};
    assert StepsFrom(UNDO, s, 0, {}) == [StepFor(FAILING, s)];
  }

  lemma FailureIsProposed()
    ensures IsView(UNDO, Settled(AFTER_END.state), Proposes([RecordStep(P, false)]))
  {
    var s := Settled(AFTER_END.state);
    NothingFinished(s);
    assert Unrecorded(s) == {P};
    assert IsFirst(P, Unrecorded(s));
  }

  lemma CompensationIsProposed()
    ensures IsView(UNDO, Settled(AFTER_FAILURE.state), Proposes([CompensateNode(P)]))
  {
    var s := Settled(AFTER_FAILURE.state);
    assert UNDO.nodes[0] == FAILING;
    NothingFinished(s);
    assert Unrecorded(s) == {} && Uncompensated(s) == {};
    assert FirstBlocking(UNDO, s, 0);
  }

  lemma RecordIsProposed()
    ensures IsView(UNDO, Settled(AFTER_COMPENSATION.state), Proposes([RecordCompensation(P, false)]))
  {
    var s := Settled(AFTER_COMPENSATION.state);
    NothingFinished(s);
    assert Unrecorded(s) == {};
    assert Uncompensated(s) == {P};
    assert IsFirst(P, Uncompensated(s));
  }

  lemma NodeIsDispatched()
    ensures Reachable(UNDO, [StepDispatched(P)]) && Fold([StepDispatched(P)]) == Apply(EMPTY, StepDispatched(P))
  {
    assert Reachable(UNDO, []) && Fold([]) == EMPTY && Settled(EMPTY.state) == EMPTY.state;
    hide Reachable, Fold, IsView, Apply;
    NodeIsProposed();
    RunProposed(UNDO, [], EMPTY, StepFor(FAILING, EMPTY.state));
    assert [] + [StepDispatched(P)] == [StepDispatched(P)];
  }

  lemma NodeEnds()
    ensures Apply(Apply(Apply(EMPTY, StepDispatched(P)), ActStarted(1, Some(Work(P, false)))), ActEnded(1, false))
         == AFTER_END
  {
  }

  lemma NodeFails()
    ensures Reachable(UNDO, FAILED) && Fold(FAILED) == AFTER_FAILURE
  {
    hide Reachable, Fold, IsView;
    NodeIsDispatched();
    NodeEnds();
    hide Settled;
    var dispatched := [StepDispatched(P)];
    RunWork(UNDO, dispatched, Apply(EMPTY, StepDispatched(P)), 1, Work(P, false), false);
    var ended := dispatched + [ActStarted(1, Some(Work(P, false)))] + [ActEnded(1, false)];
    FailureIsProposed();
    RunProposed(UNDO, ended, AFTER_END, RecordStep(P, false));
    assert FAILED == ended + [StepFailed(P)];
  }

  lemma CompensationFails()
    ensures Reachable(UNDO, COMPENSATED_IN_VAIN) && Fold(COMPENSATED_IN_VAIN) == AFTER_COMPENSATION
  {
    hide Reachable, Fold, IsView;
    NodeFails();
    CompensationIsProposed();
    RunProposed(UNDO, FAILED, AFTER_FAILURE, CompensateNode(P));
    var dispatched := FAILED + [CompensationDispatched(P)];
    assert dispatched[|FAILED|] == CompensationDispatched(P);
    RunWork(UNDO, dispatched, AFTER_FAILURE, 2, Work(P, true), false);
    assert COMPENSATED_IN_VAIN == dispatched + [ActStarted(2, Some(Work(P, true)))] + [ActEnded(2, false)];
  }

  /**
   * A reachable run in which the compensation of a failed node is proposed, is proposed again once dispatched,
   * fails, and then the record of its failure is proposed, before and after it was made.
   */
  lemma CompensatedInVain()
    ensures Acceptable(UNDO.nodes) && Reachable(UNDO, FAILED) && Reachable(UNDO, COMPENSATED_IN_VAIN)
    ensures IsView(UNDO, Current(FAILED), Proposes([CompensateNode(P)]))
    ensures IsView(UNDO, Current(FAILED + [CompensationDispatched(P)]), Proposes([CompensateNode(P)]))
    ensures IsView(UNDO, Current(COMPENSATED_IN_VAIN), Proposes([RecordCompensation(P, false)]))
    ensures IsView(UNDO, Current(COMPENSATED_IN_VAIN + [CompensationFailed(P)]),
                   Proposes([RecordCompensation(P, false)]))
  {
    hide Reachable, Fold, IsView, Acceptable;
    UndoIsAcceptable();
    NodeFails();
    CompensationFails();
    CompensationIsProposed();
    RecordIsProposed();
    FoldOneMore(FAILED, CompensationDispatched(P));
    FoldOneMore(COMPENSATED_IN_VAIN, CompensationFailed(P));
  }
}
