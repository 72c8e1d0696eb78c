/** The count of finished nodes: what it adds up to, and a run in which it calls a workflow completed too early. */
module ClothoCount {
  import opened Basics
  import opened ClothoGraph
  import opened ClothoLog
  import opened ClothoView
  import opened ClothoRuns
  import opened ClothoTheorems

  // ----- what the count says -----

  ghost predicate AllOver(d: Definition, s: State) {
    forall i | 0 <= i < |d.nodes| :: Over(d, s, d.nodes[i].id)
  }

  /** The failures that are carried on after and were skipped on a later attempt: they are counted twice. */
  ghost function CountedTwice(d: Definition, s: State): set<Id> {
    s.skipped * ContinuedFailures(d, s)
  }

  /**
   * The finished count is the number of nodes that are over plus the number counted twice. So with none
   * counted twice it reaches the number of nodes exactly when all are over, and otherwise it never agrees
   * with all being over.
   */
  lemma FinishedCount(d: Definition, log: seq<Photon>)
    requires Acceptable(d.nodes) && Reachable(d, log)
    ensures var s := Current(log);
      && Finished(d, s) == |s.succeeded + s.skipped + ContinuedFailures(d, s)| + |CountedTwice(d, s)|
      && (CountedTwice(d, s) == {} ==> (Finished(d, s) == |d.nodes| <==> AllOver(d, s)))
      && (CountedTwice(d, s) != {} ==> !(Finished(d, s) == |d.nodes| && AllOver(d, s)))
  {
    hide Acceptable, Reachable, Current, ToleratedFailure;
    var s := Current(log);
    var continued := ContinuedFailures(d, s);
    OutcomesAreExclusive(d, log);
    assert continued <= s.failed;
    var over := s.succeeded + s.skipped + continued;
    UnionSize(s.succeeded, s.skipped);
    assert s.succeeded * s.skipped == {};
    UnionSize(s.succeeded + s.skipped, continued);
    assert (s.succeeded + s.skipped) * continued == CountedTwice(d, s);
    AcceptableIsDistinct(d.nodes);
    DistinctIdsCount(d.nodes);
    SubsetSize(over, Ids(d.nodes));
    assert forall id :: Over(d, s, id) <==> id in over by { OverIsCounted(d, s); }
    AllOverIsAllIds(d, s, over);
  }

  lemma OverIsCounted(d: Definition, s: State)
    ensures forall id :: Over(d, s, id) <==> id in s.succeeded + s.skipped + ContinuedFailures(d, s)
  {
  }

  lemma AllOverIsAllIds(d: Definition, s: State, over: set<Id>)
    requires (forall id :: Over(d, s, id) <==> id in over) && over <= Ids(d.nodes)
    ensures AllOver(d, s) <==> over == Ids(d.nodes)
  {
    hide Over;
    if AllOver(d, s) {
      forall id | id in Ids(d.nodes) ensures id in over {
        var i :| 0 <= i < |d.nodes| && d.nodes[i].id == id;
        assert Over(d, s, d.nodes[i].id);
      }
    } else {
      var i :| 0 <= i < |d.nodes| && !Over(d, s, d.nodes[i].id);
      assert d.nodes[i].id in Ids(d.nodes);
    }
  }

  // ----- a workflow called completed too early -----

  const A: Id := [97]
  const B: Id := [98]
  const C: Id := [99]

  /** Handles a failure of B, may be tried twice, and does not hold up the workflow. */
  const HANDLER := Node(A, [B], true, false, false, Some(Continue), Some(2), [], StepIs(B, StatusFailed), false)
  const FIRST := Node(B, [], true, false, false, Some(Continue), None, [], Always, false)
  const LAST := Node(C, [B], true, false, false, None, None, [], Always, false)

  /** One node at a time. */
  const EARLY := Definition([HANDLER, FIRST, LAST], None, Some(1), map[])

  /** B fails, its handler fails, B is tried again and succeeds, and so the handler is skipped. */
  const HISTORY: seq<Photon> := [
    StepDispatched(B), ActStarted(1, Some(Work(B, false))), ActEnded(1, false), StepFailed(B),
    StepDispatched(A), ActStarted(2, Some(Work(A, false))), ActEnded(2, false), StepFailed(A),
    RetryRequested(Some(B)),
    StepDispatched(B), ActStarted(3, Some(Work(B, false))), ActEnded(3, true), StepCompleted(B),
    StepSkipped(A)]

  lemma EarlyIsAcceptable()
    ensures Acceptable(EARLY.nodes) && SortedById(EARLY.nodes)
  {
    var nodes := EARLY.nodes;
    assert nodes[0].id == A && nodes[1].id == B && nodes[2].id == C;
    assert A in Ids(nodes) && B in Ids(nodes) && C in Ids(nodes);
    assert nodes[0].needs == [B] && nodes[1].needs == [] && nodes[2].needs == [B];
    assert Ranks(nodes, map[B := 0, A := 1, C := 1]);
  }

  /** An act for `id` runs and ends after its dispatch. */
  lemma RunAct(d: Definition, log: seq<Photon>, f: Folding, act: nat, id: Id, success: bool)
    requires Reachable(d, log) && Fold(log) == f && StepDispatched(id) in log
    ensures var w := ActStarted(act, Some(Work(id, false)));
      && Reachable(d, log + [w] + [ActEnded(act, success)])
      && Fold(log + [w] + [ActEnded(act, success)])
         == Folding(f.state.(terminal := f.state.terminal[id := success]), f.acts[act := Work(id, false)])
  {
    RunWork(d, log, f, act, Work(id, false), success);
  }

  lemma ViewRecords(s: State, id: Id)
    requires !s.paused && !s.cancelled && Finished(EARLY, s) < 3 && Unrecorded(s) == {id}
    ensures IsView(EARLY, s, Proposes([RecordStep(id, s.terminal[id])]))
  {
    hide Finished, Unrecorded;
    assert IsFirst(id, Unrecorded(s));
    assert id in s.terminal by { UnrecordedHasEnded(s, id); }
  }

  /** With nothing to record and nothing in the way, the first eligible node is the one proposed. */
  lemma ViewSteps(s: State, k: nat)
    requires !s.paused && !s.cancelled && Finished(EARLY, s) < 3 && Unrecorded(s) == {} && Uncompensated(s) == {}
    requires (forall i | 0 <= i < 3 :: !Blocks(EARLY, s, EARLY.nodes[i])) && s.inflight == {}
    requires k < 2 && Eligible(EARLY, s, EARLY.nodes[k]) && forall i | 0 <= i < k :: !Eligible(EARLY, s, EARLY.nodes[i])
    ensures IsView(EARLY, s, Proposes([StepFor(EARLY.nodes[k], s)]))
  {
    hide Finished, Unrecorded, Uncompensated, Blocks, Eligible, StepFor;
    assert forall i: nat :: !FirstBlocking(EARLY, s, i);
    assert EARLY.nodes[0] == HANDLER && EARLY.nodes[1] == FIRST && |EARLY.nodes| == 3;
    assert StepsFrom(EARLY, s, k + 1, {EARLY.nodes[k].id}) == [] by {
      assert |{EARLY.nodes[k].id}| == 1;
    }
    assert {} + {EARLY.nodes[k].id} == {EARLY.nodes[k].id};
    assert StepsFrom(EARLY, s, k, {}) == [StepFor(EARLY.nodes[k], s)];
    if k == 1 {
      assert StepsFrom(EARLY, s, 0, {}) == StepsFrom(EARLY, s, 1, {});
    }
  }

  lemma FinishedBelow(s: State)
    requires |s.succeeded| + |s.skipped| + |s.failed| < 3
    ensures Finished(EARLY, s) < 3
  {
    SubsetSize(ContinuedFailures(EARLY, s), s.failed);
  }

  /** The state once node `id` was dispatched and its act has ended. */
  function Ended(f: Folding, act: nat, id: Id, success: bool): Folding {
    var g := Apply(f, StepDispatched(id));
    Folding(g.state.(terminal := g.state.terminal[id := success]), g.acts[act := Work(id, false)])
  }

  function Recording(id: Id, success: bool): Photon {
    if success then StepCompleted(id) else StepFailed(id)
  }

  function AttemptLog(act: nat, id: Id, success: bool): seq<Photon> {
    [StepDispatched(id), ActStarted(act, Some(Work(id, false))), ActEnded(act, success), Recording(id, success)]
  }

  /** The state is one in which node `k` is proposed. */
  ghost predicate IsNext(s: State, k: nat) {
    && k < 2
    && !s.paused && !s.cancelled && s.inflight == {}
    && |s.succeeded| + |s.skipped| + |s.failed| < 3
    && Unrecorded(s) == {} && Uncompensated(s) == {}
    && (forall i | 0 <= i < 3 :: !Blocks(EARLY, s, EARLY.nodes[i]))
    && Eligible(EARLY, s, EARLY.nodes[k])
    && (forall i | 0 <= i < k :: !Eligible(EARLY, s, EARLY.nodes[i]))
  }

  lemma DispatchNext(log: seq<Photon>, f: Folding, k: nat)
    requires Reachable(EARLY, log) && Fold(log) == f && IsNext(Settled(f.state), k)
    requires Condition(EARLY.nodes[k], Settled(f.state))
    ensures var dispatched := log + [StepDispatched(EARLY.nodes[k].id)];
      Reachable(EARLY, dispatched) && Fold(dispatched) == Apply(f, StepDispatched(EARLY.nodes[k].id))
  {
    hide Reachable, Fold, Unrecorded, Uncompensated, Finished, Blocks, Eligible, IsView, Apply, Settled, Condition;
    var s := Settled(f.state);
    FinishedBelow(s);
    ViewSteps(s, k);
    RunProposed(EARLY, log, f, StepFor(EARLY.nodes[k], s));
    assert EARLY.nodes[0] == HANDLER && EARLY.nodes[1] == FIRST;
  }

  lemma RecordEnded(log: seq<Photon>, g: Folding, id: Id, success: bool)
    requires Reachable(EARLY, log) && Fold(log) == g && id in g.state.terminal && g.state.terminal[id] == success
    requires !g.state.paused && !g.state.cancelled && Unrecorded(Settled(g.state)) == {id}
    requires |g.state.succeeded| + |g.state.skipped| + |g.state.failed| < 3
    ensures Reachable(EARLY, log + [Recording(id, success)])
    ensures Fold(log + [Recording(id, success)]) == Apply(g, Recording(id, success))
  {
    hide Reachable, Fold, Unrecorded, IsView, Apply, Finished;
    FinishedBelow(Settled(g.state));
    ViewRecords(Settled(g.state), id);
    RunProposed(EARLY, log, g, RecordStep(id, success));
  }

  /** Node `k` is dispatched, its act runs, and the outcome is recorded: three views, one act each. */
  lemma Attempt(log: seq<Photon>, f: Folding, k: nat, act: nat, success: bool)
    requires k < 2 && Reachable(EARLY, log) && Fold(log) == f && IsNext(Settled(f.state), k)
    requires Condition(EARLY.nodes[k], Settled(f.state))
    requires var s := Ended(f, act, EARLY.nodes[k].id, success).state;
      && !s.paused && !s.cancelled && Unrecorded(Settled(s)) == {EARLY.nodes[k].id}
      && |s.succeeded| + |s.skipped| + |s.failed| < 3
    ensures var id := EARLY.nodes[k].id;
      && Reachable(EARLY, log + AttemptLog(act, id, success))
      && Fold(log + AttemptLog(act, id, success)) == Apply(Ended(f, act, id, success), Recording(id, success))
  {
    hide Reachable, Fold, Unrecorded, IsNext, Apply, Settled, Condition;
    var id := EARLY.nodes[k].id;
    DispatchNext(log, f, k);
    var dispatched := log + [StepDispatched(id)];
    assert dispatched[|log|] == StepDispatched(id);
    RunAct(EARLY, dispatched, Apply(f, StepDispatched(id)), act, id, success);
    var ended := dispatched + [ActStarted(act, Some(Work(id, false)))] + [ActEnded(act, success)];
    RecordEnded(ended, Ended(f, act, id, success), id, success);
    assert log + AttemptLog(act, id, success) == ended + [Recording(id, success)];
  }

  // ----- the states the history passes through -----

  const FAILED_ONCE := Folding(State({}, {}, {B}, map[B := 1], {B}, map[B := false], map[], {}, false, false),
                               map[1 := Work(B, false)])
  const FAILED_BOTH := Folding(State({}, {}, {A, B}, map[A := 1, B := 1], {A, B}, map[A := false, B := false],
                                     map[], {}, false, false),
                               map[1 := Work(B, false), 2 := Work(A, false)])
  const RETRIED := Folding(State({}, {}, {A}, map[A := 1, B := 1], {A}, map[A := false], map[], {}, false, false),
                           FAILED_BOTH.acts)
  const RECOVERED := Folding(State({B}, {}, {A}, map[A := 1, B := 2], {A, B}, map[A := false, B := true],
                                   map[], {}, false, false),
                             map[1 := Work(B, false), 2 := Work(A, false), 3 := Work(B, false)])

  const SKIPPED_TOO := RECOVERED.(state := RECOVERED.state.(skipped := {A}))

  /** While B has no outcome its handler waits, and B is next. */
  lemma FirstIsNext(s: State)
    requires !s.paused && !s.cancelled && s.inflight == {} && s.succeeded == {} && s.skipped == {} && s.failed <= {A}
    requires Unrecorded(s) == {} && Uncompensated(s) == {}
    ensures IsNext(s, 1)
  {
    assert EARLY.nodes[0] == HANDLER && EARLY.nodes[1] == FIRST && EARLY.nodes[2] == LAST;
    SubsetSize(s.failed, {A});
    assert HANDLER.needs[0] == B;
    assert !Clear(EARLY, s, HANDLER.needs[0]);
  }

  lemma FirstFails()
    ensures var log := AttemptLog(1, B, false); Reachable(EARLY, log) && Fold(log) == FAILED_ONCE
  {
    hide IsNext, AttemptLog;
    assert EMPTY.state == Settled(EMPTY.state);
    assert Fold([]) == EMPTY && Reachable(EARLY, []);
    FirstIsNext(EMPTY.state);
    assert EARLY.nodes[1] == FIRST;
    assert Unrecorded(Settled(Ended(EMPTY, 1, B, false).state)) == {B};
    assert Apply(Ended(EMPTY, 1, B, false), StepFailed(B)) == FAILED_ONCE;
    hide Fold, Reachable, Ended, Unrecorded;
    Attempt([], EMPTY, 1, 1, false);
    assert [] + AttemptLog(1, B, false) == AttemptLog(1, B, false);
  }

  lemma HandlerIsNext()
    ensures var s := Settled(FAILED_ONCE.state); IsNext(s, 0) && Condition(HANDLER, s)
  {
    var s := Settled(FAILED_ONCE.state);
    assert EARLY.nodes[0] == HANDLER && EARLY.nodes[1] == FIRST && EARLY.nodes[2] == LAST;
    assert s.inflight == {};
    assert Unrecorded(s) == {} && Uncompensated(s) == {};
    FirstIsTolerated(s);
    assert Eligible(EARLY, s, HANDLER) by {
      hide ToleratedFailure;
    }
  }

  lemma FirstIsTolerated(s: State)
    requires B in s.failed
    ensures ToleratedFailure(EARLY, s, B)
  {
    assert EARLY.nodes[1] == FIRST;
  }

  lemma HandlerFails(log: seq<Photon>)
    requires Reachable(EARLY, log) && Fold(log) == FAILED_ONCE
    ensures Reachable(EARLY, log + AttemptLog(2, A, false)) && Fold(log + AttemptLog(2, A, false)) == FAILED_BOTH
  {
    hide Reachable, Fold, IsNext, AttemptLog;
    HandlerIsNext();
    assert EARLY.nodes[0] == HANDLER;
    assert Unrecorded(Settled(Ended(FAILED_ONCE, 2, A, false).state)) == {A};
    Attempt(log, FAILED_ONCE, 0, 2, false);
    assert Apply(Ended(FAILED_ONCE, 2, A, false), StepFailed(A)) == FAILED_BOTH;
  }

  lemma RetryIsAsked(log: seq<Photon>)
    requires Reachable(EARLY, log) && Fold(log) == FAILED_BOTH
    ensures var more := log + [RetryRequested(Some(B))]; Reachable(EARLY, more) && Fold(more) == RETRIED
  {
    hide Reachable, Fold;
    Extend(EARLY, log, FAILED_BOTH, Control(RetryNode(Some(B))));
    assert Apply(FAILED_BOTH, RetryRequested(Some(B))) == RETRIED;
  }

  lemma RetriedIsNext()
    ensures IsNext(Settled(RETRIED.state), 1)
    ensures Unrecorded(Settled(Ended(RETRIED, 3, B, true).state)) == {B}
  {
    hide IsNext;
    var s := Settled(RETRIED.state);
    assert s.inflight == {};
    assert Unrecorded(s) == {} && Uncompensated(s) == {};
    FirstIsNext(s);
    assert Unrecorded(Settled(Ended(RETRIED, 3, B, true).state)) == {B};
  }

  lemma FirstRecovers(log: seq<Photon>)
    requires Reachable(EARLY, log) && Fold(log) == RETRIED
    ensures Reachable(EARLY, log + AttemptLog(3, B, true)) && Fold(log + AttemptLog(3, B, true)) == RECOVERED
  {
    hide Reachable, Fold, IsNext, AttemptLog, Unrecorded;
    RetriedIsNext();
    assert EARLY.nodes[1] == FIRST;
    Attempt(log, RETRIED, 1, 3, true);
    assert Apply(Ended(RETRIED, 3, B, true), StepCompleted(B)) == RECOVERED;
  }

  lemma HandlerIsSkipped(log: seq<Photon>)
    requires Reachable(EARLY, log) && Fold(log) == RECOVERED
    ensures Reachable(EARLY, log + [StepSkipped(A)]) && Fold(log + [StepSkipped(A)]) == SKIPPED_TOO
  {
    hide Reachable, Fold;
    var s := Settled(RECOVERED.state);
    assert EARLY.nodes[0] == HANDLER && EARLY.nodes[1] == FIRST && EARLY.nodes[2] == LAST;
    assert s.inflight == {};
    assert Eligible(EARLY, s, HANDLER);
    assert IsNext(s, 0);
    FinishedBelow(s);
    ViewSteps(s, 0);
    RunProposed(EARLY, log, RECOVERED, StepFor(HANDLER, s));
  }

  lemma HistoryIsReachable()
    ensures Reachable(EARLY, HISTORY) && Fold(HISTORY) == SKIPPED_TOO
  {
    hide Reachable, Fold;
    FirstFails();
    var log := AttemptLog(1, B, false);
    HandlerFails(log);
    log := log + AttemptLog(2, A, false);
    RetryIsAsked(log);
    log := log + [RetryRequested(Some(B))];
    FirstRecovers(log);
    log := log + AttemptLog(3, B, true);
    HandlerIsSkipped(log);
    assert HISTORY == log + [StepSkipped(A)];
  }

  lemma LastMayRun(s: State)
    requires s == Settled(SKIPPED_TOO.state)
    ensures !Over(EARLY, s, C) && Eligible(EARLY, s, LAST)
  {
    assert EARLY.nodes[2] == LAST;
  }

  /** A last node that may run never ran, and still the status is completed and the view proposes nothing. */
  lemma CompletedTooEarly()
    ensures Acceptable(EARLY.nodes) && Reachable(EARLY, HISTORY)
    ensures var s := Current(HISTORY);
      && Finished(EARLY, s) == |EARLY.nodes| && ReportOf(EARLY, s).state == IsCompleted
      && IsView(EARLY, s, Proposes([]))
      && !Over(EARLY, s, C) && Eligible(EARLY, s, LAST)
      && CountedTwice(EARLY, s) == {A}
  {
    hide Reachable, Acceptable, Fold, Over, Eligible;
    EarlyIsAcceptable();
    HistoryIsReachable();
    var s := Settled(SKIPPED_TOO.state);
    LastMayRun(s);
    assert EARLY.nodes[0] == HANDLER;
    assert ContinuedFailures(EARLY, s) == {A};
  }
}
