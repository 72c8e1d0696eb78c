/** Safety and progress over whole runs of a workflow. */
module ClothoTheorems {
  import opened Basics
  import opened ClothoGraph
  import opened ClothoLog
  import opened ClothoView
  import opened ClothoSteps
  import opened ClothoRuns

  // ----- topological execution -----

  predicate Touches(p: Photon, id: Id) {
    p == StepDispatched(id) || p == StepSkipped(id) || p == StepCompleted(id) || p == StepFailed(id)
  }

  /** The log holds an outcome of `id` that lets what needs it go on. */
  ghost predicate Cleared(d: Definition, log: seq<Photon>, id: Id) {
    || StepCompleted(id) in log
    || StepSkipped(id) in log
    || (StepFailed(id) in log && exists i | 0 <= i < |d.nodes| :: d.nodes[i].id == id && Carries(d, log, d.nodes[i]))
  }

  /** What a failure of the node means: the node says, else the definition, and else it stops the workflow. */
  predicate Says(d: Definition, node: Node, policy: Policy) {
    || node.onFailure == Some(policy)
    || (node.onFailure == None && d.failure == Some(policy))
    || (node.onFailure == None && d.failure == None && policy == Stop)
  }

  /** The node's policy carries on after its failure, or it was compensated. */
  predicate Carries(d: Definition, log: seq<Photon>, node: Node) {
    Says(d, node, Continue) || (Says(d, node, Compensate) && CompensationCompleted(node.id) in log)
  }

  lemma ClearedStays(d: Definition, log: seq<Photon>, i: nat, j: nat, id: Id)
    requires i <= j <= |log| && Cleared(d, log[..i], id)
    ensures Cleared(d, log[..j], id)
  {
    assert forall p | p in log[..i] :: p in log[..j];
    if StepFailed(id) in log[..i] && StepCompleted(id) !in log[..i] && StepSkipped(id) !in log[..i] {
      var k :| 0 <= k < |d.nodes| && d.nodes[k].id == id && Carries(d, log[..i], d.nodes[k]);
      assert Carries(d, log[..j], d.nodes[k]);
    }
  }

  lemma ClearIsCleared(d: Definition, log: seq<Photon>, id: Id)
    requires Clear(d, Current(log), id)
    ensures Cleared(d, log, id)
  {
    StateMeaning(log, id);
    var s := Current(log);
    if id !in s.succeeded && id !in s.skipped {
      var k :| 0 <= k < |d.nodes| && d.nodes[k].id == id && Tolerated(d, s, d.nodes[k]);
      assert Carries(d, log, d.nodes[k]);
    }
  }

  /** When a photon about a node is emitted, each of its needs has been cleared before. */
  lemma {:induction false} NeedsComeFirst(d: Definition, log: seq<Photon>, i: nat, k: nat, need: Id)
    requires Acceptable(d.nodes) && Reachable(d, log) && i < |log|
    requires k < |d.nodes| && need in d.nodes[k].needs && Touches(log[i], d.nodes[k].id)
    ensures Cleared(d, log[..i], need)
    decreases i
  {
    hide IsView, Acceptable, Cleared, Clear, StepFor, HasRoom, FirstBlocking;
    var id := d.nodes[k].id;
    var m := MoveAt(d, log, i);
    assert m.Execute?;
    ExecutedIsDue(d, log[..i], m.proposed);
    if m.proposed.Step? {
      var j: nat :| StepDue(d, Current(log[..i]), m.proposed, j);
      StepKeepsNode(d.nodes[j], Current(log[..i]));
      AcceptableIsDistinct(d.nodes);
      assert j == k;
      ClearIsCleared(d, log[..i], need);
    } else {
      DueIsSane(d, Current(log[..i]), m.proposed, id);
      EndsAnswerDispatches(d, log[..i]);
      assert StepDispatched(id) in log[..i];
      var j :| 0 <= j < i && log[j] == StepDispatched(id);
      NeedsComeFirst(d, log, j, k, need);
      ClearedStays(d, log, j, i, need);
    }
  }

  lemma StepKeepsNode(node: Node, s: State)
    ensures StepFor(node, s).node == node
  {
  }

  /** Before any photon about a node, every ancestor has an outcome that clears the way. */
  lemma {:induction false} AncestorsComeFirst(d: Definition, log: seq<Photon>, i: nat, path: seq<Id>)
    requires Acceptable(d.nodes) && Reachable(d, log) && i < |log|
    requires Chain(d.nodes, path) && Touches(log[i], path[|path| - 1])
    ensures Cleared(d, log[..i], path[0])
    decreases |path|
  {
    hide Acceptable, Reachable;
    var last := |path| - 1;
    assert Needs(d.nodes, path[last - 1 + 1], path[last - 1]);
    var k :| 0 <= k < |d.nodes| && d.nodes[k].id == path[last] && path[last - 1] in d.nodes[k].needs;
    NeedsComeFirst(d, log, i, k, path[last - 1]);
    if last > 1 {
      var j := OutcomeOf(d, log[..i], path[last - 1]);
      ShorterChain(d.nodes, path);
      AncestorsComeFirst(d, log, j, path[..last]);
      ClearedStays(d, log, j, i, path[0]);
    }
  }

  lemma OutcomeOf(d: Definition, log: seq<Photon>, id: Id) returns (j: nat)
    requires Cleared(d, log, id)
    ensures j < |log| && log[j] in {StepCompleted(id), StepSkipped(id), StepFailed(id)} && Touches(log[j], id)
  {
    var p :| p in log && p in {StepCompleted(id), StepSkipped(id), StepFailed(id)};
    j :| 0 <= j < |log| && log[j] == p;
  }

  lemma ShorterChain(nodes: seq<Node>, path: seq<Id>)
    requires Chain(nodes, path) && |path| > 2
    ensures Chain(nodes, path[..|path| - 1])
  {
    hide Needs;
    var shorter := path[..|path| - 1];
    forall m | 0 <= m < |shorter| - 1 ensures Needs(nodes, shorter[m + 1], shorter[m]) {
      assert Needs(nodes, path[m + 1], path[m]);
    }
  }

  // ----- concurrency -----

  /** A photon puts a node in flight only by dispatching it. */
  lemma InflightGrowsByDispatch(log: seq<Photon>, p: Photon)
    ensures forall id | id in Current(log + [p]).inflight :: id in Current(log).inflight || p == StepDispatched(id)
  {
    hide Apply, Fold;
    FoldOneMore(log, p);
    forall id | id in Current(log + [p]).inflight ensures id in Current(log).inflight || p == StepDispatched(id) {
      OnePhoton(Fold(log), p, id);
    }
  }

  lemma FewerFit(d: Definition, less: set<Id>, more: set<Id>)
    requires less <= more && Within(d, more)
    ensures Within(d, less)
  {
    hide MaxParallel, GroupLimit;
    SubsetSize(less, more);
    forall group: Id | group != [] ensures |InGroup(d, less, group)| <= GroupLimit(d, group) {
      SubsetSize(InGroup(d, less, group), InGroup(d, more, group));
    }
  }

  /** In every reachable log the nodes in flight keep to max_parallel and to the limit of every group. */
  lemma {:induction false} LimitsHold(d: Definition, log: seq<Photon>)
    requires Acceptable(d.nodes) && Reachable(d, log)
    ensures |Current(log).inflight| <= MaxParallel(d)
    ensures forall group: Id | group != [] :: |InGroup(d, Current(log).inflight, group)| <= GroupLimit(d, group)
    ensures Within(d, Current(log).inflight)
  {
    hide Acceptable, Allowed, Current, InGroup, Apply, Fold;
    if log == [] {
      NothingInFlight(d);
    } else {
      var last := |log| - 1;
      var before, p := log[..last], log[last];
      assert log == before + [p];
      LimitsHold(d, before);
      InflightGrowsByDispatch(before, p);
      var m := MoveAt(d, log, last);
      if p.StepDispatched? {
        DispatchFits(d, before, m);
        FewerFit(d, Current(log).inflight, Current(before).inflight + {p.node});
      } else {
        FewerFit(d, Current(log).inflight, Current(before).inflight);
      }
    }
  }

  lemma NothingInFlight(d: Definition)
    ensures Current([]).inflight == {} && Within(d, {})
  {
    forall group: Id ensures InGroup(d, {}, group) == {} {
    }
  }

  lemma DispatchFits(d: Definition, log: seq<Photon>, m: Move)
    requires Acceptable(d.nodes) && Within(d, Current(log).inflight)
    requires Allowed(d, log, m) && Emitted(m).StepDispatched?
    ensures Within(d, Current(log).inflight + {Emitted(m).node})
  {
    hide Acceptable, Within, IsView, Current, Eligible, HasRoom;
    ExecutedIsDue(d, log, m.proposed);
    AcceptableIsDistinct(d.nodes);
    assert m.proposed.Step?;
    var i: nat :| StepDue(d, Current(log), m.proposed, i);
    OneMoreFits(d, Current(log).inflight, i);
  }

  function Emissions(acts: seq<Act>): seq<Photon> {
    if acts == [] then [] else Emissions(acts[..|acts| - 1]) + [Refract(acts[|acts| - 1])]
  }

  lemma {:induction false} BatchGrowsByTargets(log: seq<Photon>, acts: seq<Act>, chosen: seq<Act>)
    requires forall act | act in chosen :: act in acts
    ensures Current(log + Emissions(chosen)).inflight <= Current(log).inflight + Targets(acts)
  {
    hide Current;
    if chosen == [] {
      assert log + Emissions(chosen) == log;
    } else {
      var last := |chosen| - 1;
      assert chosen[last] in chosen && forall act | act in chosen[..last] :: act in chosen;
      BatchGrowsByTargets(log, acts, chosen[..last]);
      var p := Refract(chosen[last]);
      assert log + Emissions(chosen) == log + Emissions(chosen[..last]) + [p];
      InflightGrowsByDispatch(log + Emissions(chosen[..last]), p);
      if p.StepDispatched? {
        var i :| 0 <= i < |acts| && acts[i] == chosen[last];
        assert p.node in Targets(acts);
      }
    }
  }

  lemma TargetsFit(d: Definition, s: State, acts: seq<Act>)
    requires Acceptable(d.nodes) && Within(d, s.inflight) && IsView(d, s, Proposes(acts))
    ensures Within(d, s.inflight + Targets(acts))
  {
    hide Within, Acceptable, Finished, FirstBlocking, IsFirst, Unrecorded, Uncompensated;
    AcceptableIsDistinct(d.nodes);
    StepsFitTogether(d, s, 0, s.inflight);
    if acts != StepsFrom(d, s, 0, s.inflight) {
      assert s.inflight + Targets(acts) == s.inflight;
    }
  }

  /** Executing any acts of one view together, in any order, keeps to the limits. */
  lemma BatchKeepsLimits(d: Definition, log: seq<Photon>, acts: seq<Act>, chosen: seq<Act>)
    requires Acceptable(d.nodes) && Reachable(d, log) && IsView(d, Current(log), Proposes(acts))
    requires forall act | act in chosen :: act in acts
    ensures var inflight := Current(log + Emissions(chosen)).inflight;
      && |inflight| <= MaxParallel(d)
      && forall group: Id | group != [] :: |InGroup(d, inflight, group)| <= GroupLimit(d, group)
  {
    LimitsHold(d, log);
    assert Within(d, Current(log + Emissions(chosen)).inflight) by {
      hide Acceptable, Reachable, IsView, Current, Within;
      TargetsFit(d, Current(log), acts);
      BatchGrowsByTargets(log, acts, chosen);
      FewerFit(d, Current(log + Emissions(chosen)).inflight, Current(log).inflight + Targets(acts));
    }
  }

  // ----- retries -----

  /** The dispatches of a node so far; a node that may start anew has one in hand. */
  ghost predicate Budget(d: Definition, log: seq<Photon>, s: State, node: Node) {
    var spent, granted := DispatchCount(log, node.id), MaxAttempts(node) + RetryCount(log, node.id);
    && spent <= granted
    && (node.id !in s.succeeded && node.id !in s.skipped && node.id !in s.failed && node.id !in s.inflight ==>
          spent < granted)
  }

  lemma BudgetStep(d: Definition, log: seq<Photon>, m: Move, k: nat)
    requires Acceptable(d.nodes) && Allowed(d, log, m) && k < |d.nodes|
    requires Budget(d, log, Fold(log).state, d.nodes[k])
    ensures Budget(d, log + [Emitted(m)], Apply(Fold(log), Emitted(m)).state, d.nodes[k])
  {
    hide Acceptable, Apply, Fold, IsView, Attempts, DispatchCount, RetryCount;
    var p, id := Emitted(m), d.nodes[k].id;
    OnePhoton(Fold(log), p, id);
    CountsOneMore(log, p, id);
    if p == StepDispatched(id) {
      DispatchHasAttempt(d, log, m, k);
      StateMeaning(log, id);
    }
  }

  lemma CountsOneMore(log: seq<Photon>, p: Photon, id: Id)
    ensures DispatchCount(log + [p], id) == DispatchCount(log, id) + if p == StepDispatched(id) then 1 else 0
    ensures RetryCount(log + [p], id) == RetryCount(log, id) + if p == RetryRequested(Some(id)) then 1 else 0
  {
    assert (log + [p])[..|log|] == log;
  }

  lemma DispatchHasAttempt(d: Definition, log: seq<Photon>, m: Move, k: nat)
    requires Acceptable(d.nodes) && Allowed(d, log, m) && k < |d.nodes| && Emitted(m) == StepDispatched(d.nodes[k].id)
    ensures var s, node := Fold(log).state, d.nodes[k];
      && node.id !in s.succeeded && node.id !in s.skipped
      && (node.id in s.failed ==> Attempts(s, node.id) < MaxAttempts(node))
      && (node.id in s.inflight ==> node.id in s.failed)
  {
    hide Acceptable, Fold, IsView, HasRoom, Clear;
    ExecutedIsDue(d, log, m.proposed);
    AcceptableIsDistinct(d.nodes);
    var i: nat :| StepDue(d, Current(log), m.proposed, i);
    assert i == k;
  }

  lemma {:induction false} BudgetHolds(d: Definition, log: seq<Photon>, k: nat)
    requires Acceptable(d.nodes) && Reachable(d, log) && k < |d.nodes|
    ensures Budget(d, log, Fold(log).state, d.nodes[k])
  {
    if log == [] {
      assert !FaultAt(d.nodes, k);
    } else {
      hide Acceptable, Allowed, Budget, Emitted;
      var last := |log| - 1;
      BudgetHolds(d, log[..last], k);
      var m := MoveAt(d, log, last);
      BudgetStep(d, log[..last], m, k);
      assert log == log[..last] + [log[last]];
    }
  }

  /** A node is dispatched at most max_attempts times and once more for each retry asked for it. */
  lemma RetriesAreBounded(d: Definition, log: seq<Photon>, k: nat)
    requires Acceptable(d.nodes) && Reachable(d, log) && k < |d.nodes|
    ensures match d.nodes[k].maxAttempts
      case None => DispatchCount(log, d.nodes[k].id) <= 1 + RetryCount(log, d.nodes[k].id)
      case Some(n) => 1 <= n <= 100 && DispatchCount(log, d.nodes[k].id) <= n + RetryCount(log, d.nodes[k].id)
  {
    BudgetHolds(d, log, k);
    assert !FaultAt(d.nodes, k);
  }

  // ----- progress -----

  /** The node has an outcome the workflow can live with. */
  ghost predicate Over(d: Definition, s: State, id: Id) {
    id in s.succeeded || id in s.skipped || ToleratedFailure(d, s, id)
  }

  /** Of the nodes that are not over, one of least rank waits for nothing. */
  lemma {:induction false} SomeNodeIsClear(d: Definition, s: State, rank: map<Id, nat>, i: nat) returns (j: nat)
    requires KnownNeeds(d.nodes) && Ranks(d.nodes, rank) && i < |d.nodes| && !Over(d, s, d.nodes[i].id)
    ensures j < |d.nodes| && !Over(d, s, d.nodes[j].id)
    ensures forall k | 0 <= k < |d.nodes[j].needs| :: Clear(d, s, d.nodes[j].needs[k])
    decreases rank[d.nodes[i].id]
  {
    hide ToleratedFailure;
    j := i;
    if !forall k | 0 <= k < |d.nodes[i].needs| :: Clear(d, s, d.nodes[i].needs[k]) {
      var k :| 0 <= k < |d.nodes[i].needs| && !Clear(d, s, d.nodes[i].needs[k]);
      var n :| 0 <= n < |d.nodes| && d.nodes[n].id == d.nodes[i].needs[k];
      j := SomeNodeIsClear(d, s, rank, n);
    }
  }

  /** Every failure may be tried again or is one the workflow carries on after. */
  ghost predicate FailuresPass(d: Definition, s: State) {
    forall i | 0 <= i < |d.nodes| && d.nodes[i].id in s.failed ::
      !Exhausted(s, d.nodes[i]) || Tolerated(d, s, d.nodes[i])
  }

  /**
   * With nothing in flight, no failure in the way and the finished count short of the nodes, a node that
   * is not over makes the view propose something.
   */
  lemma WorkIsProposed(d: Definition, s: State, r: Outcome, i: nat)
    requires Acceptable(d.nodes) && IsView(d, s, r)
    requires !s.paused && !s.cancelled && s.inflight == {} && FailuresPass(d, s)
    requires Finished(d, s) != |d.nodes| && i < |d.nodes| && !Over(d, s, d.nodes[i].id)
    ensures r.Proposes? && r.acts != []
  {
    hide Finished, StepsFrom, IsFirst;
    if Unrecorded(s) == {} && Uncompensated(s) == {} {
      assert forall j: nat :: !FirstBlocking(d, s, j);
      var rank :| Ranks(d.nodes, rank);
      var j := SomeNodeIsClear(d, s, rank, i);
      assert Eligible(d, s, d.nodes[j]);
      assert InGroup(d, s.inflight, d.nodes[j].group) == {};
      SomeStepIsProposed(d, s, 0, s.inflight, j);
    }
  }

  /** In a reachable log with nothing in flight and nothing failed, an unfinished node makes the view propose. */
  lemma ProgressIsProposed(d: Definition, log: seq<Photon>, r: Outcome, i: nat)
    requires Acceptable(d.nodes) && Reachable(d, log) && IsView(d, Current(log), r)
    requires var s := Current(log); !s.paused && !s.cancelled && s.inflight == {} && s.failed == {}
    requires i < |d.nodes| && d.nodes[i].id !in Current(log).succeeded && d.nodes[i].id !in Current(log).skipped
    ensures r.Proposes? && r.acts != []
  {
    var s := Current(log);
    assert Finished(d, s) != |d.nodes| by {
      hide Acceptable, Reachable, Current, IsView, ToleratedFailure;
      OutcomesAreExclusive(d, log);
      assert ContinuedFailures(d, s) == {};
      assert |s.succeeded| + |s.skipped| == |s.succeeded + s.skipped|;
      assert d.nodes[i].id in Ids(d.nodes);
      SubsetSize(s.succeeded + s.skipped, Ids(d.nodes));
      AcceptableIsDistinct(d.nodes);
      DistinctIdsCount(d.nodes);
    }
    hide Acceptable, Reachable, Current, IsView, Finished;
    WorkIsProposed(d, s, r, i);
  }

  // ----- cancelling -----

  lemma CancelledIsKept(log: seq<Photon>, i: nat)
    requires i < |log| && log[i] == Cancelled
    ensures Current(log).cancelled
  {
    hide Fold;
    StateMeaning(log, []);
  }

  /** Once cancelled, nothing is executed any more. */
  lemma NothingRunsOnceCancelled(d: Definition, log: seq<Photon>, i: nat, j: nat, id: Id)
    requires Reachable(d, log) && i < j < |log| && log[i] == Cancelled
    ensures !Touches(log[j], id) && log[j] != CompensationDispatched(id)
  {
    hide IsView, Reachable, Current;
    var m := MoveAt(d, log, j);
    CancelledIsKept(log[..j], i);
    if m.Execute? {
      ExecutedIsDue(d, log[..j], m.proposed);
    }
  }

  // ----- finality -----

  /** Once a node completed or was skipped, no photon ever touches it again. */
  lemma OutcomeIsFinal(d: Definition, log: seq<Photon>, i: nat, j: nat, id: Id)
    requires Acceptable(d.nodes) && Reachable(d, log) && i < j < |log|
    requires log[i] == StepCompleted(id) || log[i] == StepSkipped(id)
    ensures !Touches(log[j], id)
  {
    hide IsView, Acceptable, Due, StepFor, Fold, Reachable, DispatchCount, Since;
    var m := MoveAt(d, log, j);
    assert log[..j][i] == log[i];
    StateMeaning(log[..j], id);
    if m.Execute? {
      ExecutedIsDue(d, log[..j], m.proposed);
      SettledIsLeftAlone(d, Current(log[..j]), m.proposed, id);
    }
  }

  lemma SettledIsLeftAlone(d: Definition, s: State, act: Act, id: Id)
    requires Acceptable(d.nodes) && Due(d, s, act) && (id in s.succeeded || id in s.skipped)
    ensures !Touches(Refract(act), id)
  {
    hide Acceptable, Due;
    DueIsSane(d, s, act, id);
  }

  // ----- records tell the truth -----

  /** An act started for `id` ended with `success`, and `id` was neither dispatched nor retried since. */
  ghost predicate Reported(log: seq<Photon>, id: Id, success: bool) {
    exists j | 0 <= j < |log| :: ReportedAt(log, j, id, success)
  }

  ghost predicate ReportedAt(log: seq<Photon>, j: nat, id: Id, success: bool)
    requires j < |log|
  {
    && log[j].ActEnded? && log[j].success == success
    && ActStarted(log[j].act, Some(Work(id, false))) in log[..j]
    && forall k | j < k < |log| :: log[k] !in {StepDispatched(id), RetryRequested(Some(id))}
  }

  ghost predicate TerminalIsReported(log: seq<Photon>, f: Folding, id: Id) {
    && (forall a | a in f.acts :: ActStarted(a, Some(f.acts[a])) in log)
    && (id in f.state.terminal ==> Reported(log, id, f.state.terminal[id]))
  }

  lemma ReportStays(log: seq<Photon>, p: Photon, id: Id, success: bool)
    requires Reported(log, id, success) && p !in {StepDispatched(id), RetryRequested(Some(id))}
    ensures Reported(log + [p], id, success)
  {
    var j :| 0 <= j < |log| && ReportedAt(log, j, id, success);
    assert (log + [p])[..j] == log[..j];
    assert ReportedAt(log + [p], j, id, success);
  }

  lemma ReportArrives(log: seq<Photon>, act: nat, id: Id, success: bool)
    requires ActStarted(act, Some(Work(id, false))) in log
    ensures Reported(log + [ActEnded(act, success)], id, success)
  {
    var more := log + [ActEnded(act, success)];
    assert more[..|log|] == log;
    assert ReportedAt(more, |log|, id, success);
  }

  lemma TerminalStep(log: seq<Photon>, f: Folding, p: Photon, id: Id)
    requires TerminalIsReported(log, f, id)
    ensures TerminalIsReported(log + [p], Apply(f, p), id)
  {
    hide Reported;
    assert forall q | q in log :: q in log + [p];
    if id in f.state.terminal && p !in {StepDispatched(id), RetryRequested(Some(id))} {
      ReportStays(log, p, id, f.state.terminal[id]);
    }
    match p {
      case ActEnded(act, success) =>
        if act in f.acts && f.acts[act] == Work(id, false) {
          ReportArrives(log, act, id, success);
        }
      case ActStarted(_, _) =>
      case _ =>
    }
  }

  lemma {:induction false} TerminalMeaning(log: seq<Photon>, id: Id)
    ensures TerminalIsReported(log, Fold(log), id)
  {
    if log != [] {
      var last := |log| - 1;
      TerminalMeaning(log[..last], id);
      TerminalStep(log[..last], Fold(log[..last]), log[last], id);
      assert log == log[..last] + [log[last]];
    }
  }

  /**
   * A node with work of its own is recorded as completed or failed only as an act started for it ended so,
   * after the latest dispatch and the latest retry of the node.
   */
  lemma RecordsAreTrue(d: Definition, log: seq<Photon>, i: nat, k: nat)
    requires Acceptable(d.nodes) && Reachable(d, log) && i < |log| && k < |d.nodes|
    requires (d.nodes[k].act || d.nodes[k].child) && !d.nodes[k].join
    requires log[i] == StepCompleted(d.nodes[k].id) || log[i] == StepFailed(d.nodes[k].id)
    ensures Reported(log[..i], d.nodes[k].id, log[i].StepCompleted?)
  {
    hide Acceptable, Reachable, IsView, Reported, Fold, Eligible, HasRoom, FirstBlocking;
    var id := d.nodes[k].id;
    var m := MoveAt(d, log, i);
    assert m.Execute?;
    ExecutedIsDue(d, log[..i], m.proposed);
    TerminalMeaning(log[..i], id);
    AcceptableIsDistinct(d.nodes);
    WorkersAreKnown(d, k);
    DueIsSane(d, Current(log[..i]), m.proposed, id);
    assert m.proposed.RecordStep?;
  }

  // ----- conditions -----

  /** What the node's `when` asks of the photons. */
  ghost predicate Met(log: seq<Photon>, when: When) {
    match when
    case Always => true
    case Fixed(holds) => holds
    case StepIs(step, StatusSucceeded) => StepCompleted(step) in log
    case StepIs(step, StatusSkipped) => StepSkipped(step) in log
    case StepIs(step, StatusFailed) => Since(log, StepFailed(step), {StepDispatched(step), RetryRequested(Some(step))})
    case StepIs(_, StatusOther) => false
  }

  lemma ConditionIsMet(node: Node, log: seq<Photon>)
    ensures Condition(node, Current(log)) <==> Met(log, node.when)
  {
    hide Fold, Since;
    if node.when.StepIs? {
      StateMeaning(log, node.when.step);
    }
  }

  /**
   * A node is skipped only while the photons so far do not meet its condition, and dispatched, or completed without
   * work of its own, only while they do. So a node without a condition is never skipped, and one that waits for
   * another step to have succeeded is dispatched only after that step has completed.
   */
  lemma ConditionDecides(d: Definition, log: seq<Photon>, i: nat, k: nat)
    requires Acceptable(d.nodes) && Reachable(d, log) && i < |log| && k < |d.nodes|
    ensures log[i] == StepSkipped(d.nodes[k].id) ==> !Met(log[..i], d.nodes[k].when)
    ensures var works := (d.nodes[k].act || d.nodes[k].child) && !d.nodes[k].join;
      && (log[i] == StepDispatched(d.nodes[k].id) ==> Met(log[..i], d.nodes[k].when) && works)
      && (log[i] == StepCompleted(d.nodes[k].id) && !works ==> Met(log[..i], d.nodes[k].when))
  {
    hide Acceptable, Reachable, IsView, Fold, Eligible, HasRoom, Condition, FirstBlocking, Met;
    var id := d.nodes[k].id;
    if Touches(log[i], id) && !log[i].StepFailed? {
      var m := MoveAt(d, log, i);
      ExecutedIsDue(d, log[..i], m.proposed);
      AcceptableIsDistinct(d.nodes);
      if m.proposed.Step? {
        var j: nat :| StepDue(d, Current(log[..i]), m.proposed, j);
        assert d.nodes[j].id == d.nodes[k].id ==> j == k;
        ConditionIsMet(d.nodes[k], log[..i]);
      } else {
        DueIsSane(d, Current(log[..i]), m.proposed, id);
        EndsAnswerDispatches(d, log[..i]);
        WorkersAreKnown(d, k);
        ReachableIsSane(d, log[..i], id);
      }
    }
  }
}
