/** The view in terms of the photons alone: which acts it proposes on a log, and which it passes over. */
module ClothoPhotons {
  import opened Basics
  import opened Bytes
  import opened ClothoGraph
  import opened ClothoLog
  import opened ClothoView
  import opened ClothoSteps
  import opened ClothoRuns
  import opened ClothoTheorems

  // ----- acts that have ended -----

  predicate StartsAs(p: Photon, act: nat) {
    p.ActStarted? && p.act == act && p.work.Some?
  }

  /** The latest start of the act says that it works for `w`. */
  ghost predicate WorksFor(log: seq<Photon>, act: nat, w: Work) {
    exists i | 0 <= i < |log| :: LatestStart(log, i, act, w)
  }

  ghost predicate LatestStart(log: seq<Photon>, i: nat, act: nat, w: Work)
    requires i < |log|
  {
    log[i] == ActStarted(act, Some(w)) && forall j | i < j < |log| :: !StartsAs(log[j], act)
  }

  lemma WorksForOneMore(log: seq<Photon>, p: Photon, act: nat, w: Work)
    ensures WorksFor(log + [p], act, w) <==>
      p == ActStarted(act, Some(w)) || (WorksFor(log, act, w) && !StartsAs(p, act))
  {
    var more := log + [p];
    if p == ActStarted(act, Some(w)) {
      assert LatestStart(more, |log|, act, w);
    }
    if WorksFor(log, act, w) && !StartsAs(p, act) {
      var i :| 0 <= i < |log| && LatestStart(log, i, act, w);
      assert LatestStart(more, i, act, w);
    }
    if WorksFor(more, act, w) && p != ActStarted(act, Some(w)) {
      var i :| 0 <= i < |more| && LatestStart(more, i, act, w);
      assert forall j | i < j < |log| :: log[j] == more[j];
      assert LatestStart(log, i, act, w);
      assert more[|log|] == p;
    }
  }

  lemma {:induction false} ActsMeaning(log: seq<Photon>, act: nat, w: Work)
    ensures act in Fold(log).acts && Fold(log).acts[act] == w <==> WorksFor(log, act, w)
  {
    hide WorksFor;
    if log != [] {
      var init, p := log[..|log| - 1], log[|log| - 1];
      assert log == init + [p];
      ActsMeaning(init, act, w);
      WorksForOneMore(init, p, act, w);
      ActsOneMore(Fold(init), p, act, w);
    } else {
      NoWorkYet(act, w);
    }
  }

  lemma NoWorkYet(act: nat, w: Work)
    ensures !WorksFor([], act, w)
  {
  }

  lemma ActsOneMore(f: Folding, p: Photon, act: nat, w: Work)
    ensures var g := Apply(f, p);
      act in g.acts && g.acts[act] == w <==>
      p == ActStarted(act, Some(w)) || (act in f.acts && f.acts[act] == w && !StartsAs(p, act))
  {
  }

  /** An act that works for `w` ends here. */
  ghost predicate EndsAt(log: seq<Photon>, i: nat, w: Work)
    requires i < |log|
  {
    log[i].ActEnded? && WorksFor(log[..i], log[i].act, w)
  }

  /** The node is dispatched again, or its retry is asked for. */
  predicate Renews(p: Photon, id: Id) {
    p == StepDispatched(id) || p == RetryRequested(Some(id))
  }

  /** The last act that ended for `w` ended with `success`, and nothing has renewed a node's own work since. */
  ghost predicate Stands(log: seq<Photon>, w: Work, success: bool) {
    exists i | 0 <= i < |log| :: StandsAt(log, i, w, success)
  }

  ghost predicate StandsAt(log: seq<Photon>, i: nat, w: Work, success: bool)
    requires i < |log|
  {
    && EndsAt(log, i, w) && log[i].success == success
    && forall j | i < j < |log| :: !EndsAt(log, j, w) && (!w.compensation ==> !Renews(log[j], w.node))
  }

  lemma EndsAtOneMore(log: seq<Photon>, p: Photon, i: nat, w: Work)
    requires i < |log|
    ensures EndsAt(log + [p], i, w) <==> EndsAt(log, i, w)
  {
    assert (log + [p])[..i] == log[..i];
  }

  lemma StandsOneMore(log: seq<Photon>, p: Photon, w: Work, success: bool)
    ensures var ends := p.ActEnded? && WorksFor(log, p.act, w);
      Stands(log + [p], w, success) <==>
      if ends then p.success == success
      else Stands(log, w, success) && (w.compensation || !Renews(p, w.node))
  {
    hide WorksFor;
    var more := log + [p];
    assert more[..|log|] == log;
    forall i | 0 <= i < |log| ensures EndsAt(more, i, w) <==> EndsAt(log, i, w) {
      EndsAtOneMore(log, p, i, w);
    }
    var ends := p.ActEnded? && WorksFor(log, p.act, w);
    assert ends <==> EndsAt(more, |log|, w);
    hide EndsAt;
    if ends && p.success == success {
      assert StandsAt(more, |log|, w, success);
    }
    if Stands(log, w, success) && !ends && (w.compensation || !Renews(p, w.node)) {
      var i :| 0 <= i < |log| && StandsAt(log, i, w, success);
      assert StandsAt(more, i, w, success);
    }
    if Stands(more, w, success) {
      var i :| 0 <= i < |more| && StandsAt(more, i, w, success);
      if i < |log| {
        assert StandsAt(log, i, w, success);
        assert !EndsAt(more, |log|, w);
      }
    }
  }

  /** The last end that `state` remembers for `w`. */
  function Remembered(s: State, w: Work): map<Id, bool> {
    if w.compensation then s.compensation else s.terminal
  }

  /** For every log: what is remembered of acts that ended is what the photons say. */
  lemma {:induction false} EndsMeaning(log: seq<Photon>, w: Work, success: bool)
    ensures var m := Remembered(Fold(log).state, w);
      w.node in m && m[w.node] == success <==> Stands(log, w, success)
  {
    hide Stands, WorksFor;
    if log != [] {
      var init, p := log[..|log| - 1], log[|log| - 1];
      assert log == init + [p];
      EndsMeaning(init, w, success);
      StandsOneMore(init, p, w, success);
      if p.ActEnded? {
        ActsMeaning(init, p.act, w);
        EndOneMore(Fold(init), p, w);
      } else {
        OtherOneMore(Fold(init), p, w);
      }
    } else {
      NothingStands(w, success);
    }
  }

  lemma NothingStands(w: Work, success: bool)
    ensures !Stands([], w, success)
  {
  }

  lemma EndOneMore(f: Folding, p: Photon, w: Work)
    requires p.ActEnded?
    ensures var m, n := Remembered(f.state, w), Remembered(Apply(f, p).state, w);
      if p.act in f.acts && f.acts[p.act] == w then w.node in n && n[w.node] == p.success
      else (w.node in n <==> w.node in m) && (w.node in n ==> n[w.node] == m[w.node])
  {
  }

  lemma OtherOneMore(f: Folding, p: Photon, w: Work)
    requires !p.ActEnded?
    ensures var m, n := Remembered(f.state, w), Remembered(Apply(f, p).state, w);
      && (w.node in n <==> w.node in m && (w.compensation || !Renews(p, w.node)))
      && (w.node in n ==> n[w.node] == m[w.node])
  {
    match p {
      case StepDispatched(_) =>
      case RetryRequested(_) =>
      case _ =>
    }
  }

  // ----- nodes -----

  /** The last that is known of the node is that it failed. */
  ghost predicate Fails(log: seq<Photon>, id: Id) {
    Since(log, StepFailed(id), {StepDispatched(id), RetryRequested(Some(id))})
  }

  /** The node is over: it completed, was skipped, or last failed. */
  ghost predicate IsOver(log: seq<Photon>, id: Id) {
    StepCompleted(id) in log || StepSkipped(id) in log || Fails(log, id)
  }

  ghost predicate Runs(log: seq<Photon>, id: Id) {
    Since(log, StepDispatched(id), {RetryRequested(Some(id))}) && !IsOver(log, id)
  }

  /** The node was dispatched as often as it may be: once, or as often as it says. */
  predicate Spent(log: seq<Photon>, node: Node) {
    || (node.maxAttempts == None && DispatchCount(log, node.id) >= 1)
    || (node.maxAttempts.Some? && DispatchCount(log, node.id) >= node.maxAttempts.value)
  }

  /** The step is out of the way of those that need it. */
  ghost predicate Passed(d: Definition, log: seq<Photon>, need: Id) {
    || StepCompleted(need) in log
    || StepSkipped(need) in log
    || (Fails(log, need) && exists i | 0 <= i < |d.nodes| :: d.nodes[i].id == need && Carries(d, log, d.nodes[i]))
  }

  ghost predicate MayStart(d: Definition, log: seq<Photon>, node: Node) {
    && StepCompleted(node.id) !in log
    && StepSkipped(node.id) !in log
    && (Fails(log, node.id) ==> !Spent(log, node))
    && !Runs(log, node.id)
    && forall k | 0 <= k < |node.needs| :: Passed(d, log, node.needs[k])
  }

  /** The node failed for good, which stops the workflow or is to be compensated. */
  ghost predicate InTheWay(d: Definition, log: seq<Photon>, node: Node) {
    && Fails(log, node.id)
    && Spent(log, node)
    && (Says(d, node, Stop) || (Says(d, node, Compensate) && CompensationCompleted(node.id) !in log))
  }

  lemma IdByPhotons(log: seq<Photon>, id: Id)
    ensures var s := Current(log);
      && (id in s.succeeded <==> StepCompleted(id) in log)
      && (id in s.skipped <==> StepSkipped(id) in log)
      && (id in s.failed <==> Fails(log, id))
      && (id in s.inflight <==> Runs(log, id))
      && (id in s.compensated <==> CompensationCompleted(id) in log)
      && Attempts(s, id) == DispatchCount(log, id)
  {
    hide Fold, Since, DispatchCount;
    StateMeaning(log, id);
  }

  lemma PassedByPhotons(d: Definition, log: seq<Photon>, need: Id)
    ensures Clear(d, Current(log), need) <==> Passed(d, log, need)
  {
    hide Current, Fails;
    IdByPhotons(log, need);
    forall i | 0 <= i < |d.nodes| && d.nodes[i].id == need
      ensures Tolerated(d, Current(log), d.nodes[i]) <==> Carries(d, log, d.nodes[i])
    {
    }
    hide Tolerated, Carries;
  }

  /** Whether a node may start or stands in the way, read off the photons. */
  lemma NodeByPhotons(d: Definition, log: seq<Photon>, node: Node)
    ensures var s := Current(log);
      && (Eligible(d, s, node) <==> MayStart(d, log, node))
      && (Blocks(d, s, node) <==> InTheWay(d, log, node))
  {
    hide Current, Fails, Runs, Clear, Passed, DispatchCount;
    var s := Current(log);
    IdByPhotons(log, node.id);
    forall k | 0 <= k < |node.needs| ensures Clear(d, s, node.needs[k]) <==> Passed(d, log, node.needs[k]) {
      PassedByPhotons(d, log, node.needs[k]);
    }
  }

  // ----- steps -----

  /** The places of a workflow: those given, but one at least, and four where none are given. */
  predicate HasPlaces(d: Definition, n: nat) {
    || (d.maxParallel == None && n == 4)
    || (d.maxParallel.Some? && d.maxParallel.value >= 1 && n == d.maxParallel.value)
    || (d.maxParallel.Some? && d.maxParallel.value < 1 && n == 1)
  }

  /** The places of a group: those given, but one at least, and those of the workflow where none are given. */
  predicate GroupPlaces(d: Definition, group: Id, n: nat) {
    || (group !in d.groups && HasPlaces(d, n))
    || (group in d.groups && d.groups[group] >= 1 && n == d.groups[group])
    || (group in d.groups && d.groups[group] < 1 && n == 1)
  }

  lemma PlacesAreRead(d: Definition, group: Id)
    ensures HasPlaces(d, MaxParallel(d)) && GroupPlaces(d, group, GroupLimit(d, group))
  {
  }

  lemma PlacesAreOne(d: Definition, group: Id, m: nat, n: nat)
    ensures HasPlaces(d, m) && HasPlaces(d, n) ==> m == n
    ensures GroupPlaces(d, group, m) && GroupPlaces(d, group, n) ==> m == n
  {
  }

  /** The nodes of the group among `ids`. */
  function Members(d: Definition, ids: set<Id>, group: Id): set<Id> {
    set i | 0 <= i < |d.nodes| && d.nodes[i].group == group && d.nodes[i].id in ids :: d.nodes[i].id
  }

  /** No place is left, or the node belongs to a group that has none left. */
  ghost predicate Full(d: Definition, busy: set<Id>, group: Id) {
    || (exists n: nat | HasPlaces(d, n) :: |busy| >= n)
    || (group != [] && exists n: nat | GroupPlaces(d, group, n) :: |Members(d, busy, group)| >= n)
  }

  lemma FullByNumbers(d: Definition, busy: set<Id>, group: Id)
    ensures Full(d, busy, group) <==> |busy| >= MaxParallel(d) || !HasRoom(d, busy, group)
  {
    hide HasPlaces, GroupPlaces, MaxParallel, GroupLimit;
    PlacesAreRead(d, group);
    forall n: nat ensures HasPlaces(d, n) ==> n == MaxParallel(d)
      ensures GroupPlaces(d, group, n) ==> n == GroupLimit(d, group)
    {
      PlacesAreOne(d, group, n, MaxParallel(d));
      PlacesAreOne(d, group, n, GroupLimit(d, group));
    }
    assert Members(d, busy, group) == InGroup(d, busy, group);
  }

  lemma StaysFull(d: Definition, less: set<Id>, more: set<Id>, group: Id)
    requires less <= more && (|less| >= MaxParallel(d) || !HasRoom(d, less, group))
    ensures |more| >= MaxParallel(d) || !HasRoom(d, more, group)
  {
    hide MaxParallel, GroupLimit;
    SubsetSize(less, more);
    SubsetSize(InGroup(d, less, group), InGroup(d, more, group));
  }

  /** The steps of a state belong to nodes in their order. */
  lemma {:induction false} StepsInOrder(d: Definition, s: State, k: nat, busy: set<Id>) returns (ks: seq<nat>)
    requires k <= |d.nodes|
    ensures var acts := StepsFrom(d, s, k, busy);
      && |ks| == |acts|
      && (forall i | 0 <= i < |ks| ::
            k <= ks[i] < |d.nodes| && Eligible(d, s, d.nodes[ks[i]]) && acts[i] == StepFor(d.nodes[ks[i]], s))
      && (forall i, j | 0 <= i < j < |ks| :: ks[i] < ks[j])
    decreases |d.nodes| - k
  {
    hide Eligible, StepFor, MaxParallel, HasRoom;
    if k == |d.nodes| || |busy| >= MaxParallel(d) {
      ks := [];
    } else if Eligible(d, s, d.nodes[k]) && HasRoom(d, busy, d.nodes[k].group) {
      var rest := StepsInOrder(d, s, k + 1, busy + {d.nodes[k].id});
      ks := [k] + rest;
    } else {
      ks := StepsInOrder(d, s, k + 1, busy);
    }
  }

  /** A node that may start is passed over only when no place is left for it. */
  lemma {:induction false} NobodyIsPassedOver(d: Definition, s: State, k: nat, busy: set<Id>, j: nat)
    requires k <= j < |d.nodes| && Eligible(d, s, d.nodes[j])
    requires StepFor(d.nodes[j], s) !in StepsFrom(d, s, k, busy)
    ensures var all := busy + Targets(StepsFrom(d, s, k, busy));
      |all| >= MaxParallel(d) || !HasRoom(d, all, d.nodes[j].group)
    decreases |d.nodes| - k
  {
    hide Eligible, StepFor, MaxParallel, HasRoom, Targets;
    var acts := StepsFrom(d, s, k, busy);
    if |busy| >= MaxParallel(d) {
      StaysFull(d, busy, busy + Targets(acts), d.nodes[j].group);
    } else if Eligible(d, s, d.nodes[k]) && HasRoom(d, busy, d.nodes[k].group) {
      var later := StepsFrom(d, s, k + 1, busy + {d.nodes[k].id});
      TargetsOfStep(d.nodes[k], s, later);
      assert busy + Targets(acts) == busy + {d.nodes[k].id} + Targets(later);
      assert acts[0] == StepFor(d.nodes[k], s) && k != j;
      assert forall a | a in later :: a in acts;
      NobodyIsPassedOver(d, s, k + 1, busy + {d.nodes[k].id}, j);
    } else if k == j {
      StaysFull(d, busy, busy + Targets(acts), d.nodes[j].group);
    } else {
      NobodyIsPassedOver(d, s, k + 1, busy, j);
    }
  }

  /** A step of node `k`: its attempt, and whether it is to be skipped. */
  ghost predicate StepOf(d: Definition, log: seq<Photon>, act: Act, k: nat) {
    && k < |d.nodes|
    && MayStart(d, log, d.nodes[k])
    && act.Step? && act.node == d.nodes[k]
    && act.attempt == DispatchCount(log, d.nodes[k].id) + 1
    && (act.skip <==> !Met(log, d.nodes[k].when))
  }

  /** The steps, in the order of the nodes, with nobody passed over while there was a place. */
  ghost predicate AreSteps(d: Definition, log: seq<Photon>, acts: seq<Act>, ks: seq<nat>, busy: set<Id>) {
    && |ks| == |acts|
    && (forall i | 0 <= i < |ks| :: StepOf(d, log, acts[i], ks[i]))
    && (forall i, j | 0 <= i < j < |ks| :: ks[i] < ks[j])
    && (forall id :: id in busy <==> Runs(log, id) || exists i | 0 <= i < |ks| :: acts[i].node.id == id)
    && (forall k | 0 <= k < |d.nodes| && MayStart(d, log, d.nodes[k]) && k !in ks :: Full(d, busy, d.nodes[k].group))
  }

  lemma StepByPhotons(d: Definition, log: seq<Photon>, k: nat)
    requires k < |d.nodes| && Eligible(d, Current(log), d.nodes[k])
    ensures StepOf(d, log, StepFor(d.nodes[k], Current(log)), k)
  {
    hide Current, Eligible, MayStart, Condition, Met, DispatchCount;
    NodeByPhotons(d, log, d.nodes[k]);
    ConditionIsMet(d.nodes[k], log);
    IdByPhotons(log, d.nodes[k].id);
  }

  lemma StepsByPhotons(d: Definition, log: seq<Photon>, acts: seq<Act>) returns (ks: seq<nat>, busy: set<Id>)
    requires Distinct(d.nodes) && acts == StepsFrom(d, Current(log), 0, Current(log).inflight)
    ensures AreSteps(d, log, acts, ks, busy)
  {
    hide Current, Eligible, MayStart, StepFor, StepOf, StepsFrom, Runs, Full, MaxParallel, HasRoom;
    var s := Current(log);
    ks := StepsInOrder(d, s, 0, s.inflight);
    busy := s.inflight + Targets(acts);
    forall i | 0 <= i < |ks| ensures StepOf(d, log, acts[i], ks[i]) && acts[i].Step? {
      StepByPhotons(d, log, ks[i]);
      StepIsStep(d, log, acts[i], ks[i]);
    }
    forall id ensures id in s.inflight <==> Runs(log, id) {
      IdByPhotons(log, id);
    }
    forall k | 0 <= k < |d.nodes| && MayStart(d, log, d.nodes[k]) && k !in ks
      ensures Full(d, busy, d.nodes[k].group)
    {
      NodeByPhotons(d, log, d.nodes[k]);
      FullByNumbers(d, busy, d.nodes[k].group);
      if StepFor(d.nodes[k], s) in acts {
        var i :| 0 <= i < |acts| && acts[i] == StepFor(d.nodes[k], s);
        StepKeepsNode(d.nodes[k], s);
        StepKeepsNode(d.nodes[ks[i]], s);
      }
      NobodyIsPassedOver(d, s, 0, s.inflight, k);
    }
  }

  lemma StepIsStep(d: Definition, log: seq<Photon>, act: Act, k: nat)
    requires StepOf(d, log, act, k)
    ensures act.Step?
  {
  }

  // ----- the view -----

  /** An act that works for `w` has ended, and the outcome is not recorded. */
  ghost predicate Awaits(log: seq<Photon>, w: Work) {
    && (Stands(log, w, true) || Stands(log, w, false))
    && if w.compensation then CompensationCompleted(w.node) !in log else !IsOver(log, w.node)
  }

  /** Of all that await a record the least in byte order, with how its act ended. */
  ghost predicate IsFirstAwaiting(log: seq<Photon>, compensation: bool, id: Id, success: bool) {
    && Awaits(log, Work(id, compensation))
    && Stands(log, Work(id, compensation), success)
    && forall o: Id | Awaits(log, Work(o, compensation)) && o != id :: BytesBefore(id, o)
  }

  ghost predicate IsFirstInTheWay(d: Definition, log: seq<Photon>, k: nat) {
    && k < |d.nodes|
    && InTheWay(d, log, d.nodes[k])
    && forall j | 0 <= j < k :: !InTheWay(d, log, d.nodes[j])
  }

  /** What a node in the way leads to. */
  predicate AnswersFailure(d: Definition, node: Node, r: Outcome) {
    if Says(d, node, Stop) then r == Proposes([])
    else if node.compensation then r == Proposes([CompensateNode(node.id)])
    else r == NoCompensation(node.id)
  }

  /** The view of a log: records first, then compensations, then a failure in the way, and then steps. */
  ghost predicate Answers(d: Definition, log: seq<Photon>, r: Outcome) {
    if exists id: Id :: Awaits(log, Work(id, false)) then
      exists id, success | IsFirstAwaiting(log, false, id, success) :: r == Proposes([RecordStep(id, success)])
    else if exists id: Id :: Awaits(log, Work(id, true)) then
      exists id, success | IsFirstAwaiting(log, true, id, success) :: r == Proposes([RecordCompensation(id, success)])
    else if exists k: nat :: IsFirstInTheWay(d, log, k) then
      exists k: nat | IsFirstInTheWay(d, log, k) :: AnswersFailure(d, d.nodes[k], r)
    else r.Proposes? && exists ks, busy :: AreSteps(d, log, r.acts, ks, busy)
  }

  lemma AwaitsByPhotons(log: seq<Photon>, id: Id)
    ensures var s := Current(log);
      && (id in Unrecorded(s) <==> Awaits(log, Work(id, false)))
      && (id in Uncompensated(s) <==> Awaits(log, Work(id, true)))
      && (id in s.terminal ==> Stands(log, Work(id, false), s.terminal[id]))
      && (id in s.compensation ==> Stands(log, Work(id, true), s.compensation[id]))
  {
    IdByPhotons(log, id);
    EndsMeaning(log, Work(id, false), true);
    EndsMeaning(log, Work(id, false), false);
    EndsMeaning(log, Work(id, true), true);
    EndsMeaning(log, Work(id, true), false);
    hide Fold, Stands, Fails;
  }

  lemma FirstByPhotons(log: seq<Photon>, id: Id)
    ensures var s := Current(log);
      && (IsFirst(id, Unrecorded(s)) ==> IsFirstAwaiting(log, false, id, s.terminal[id]))
      && (IsFirst(id, Uncompensated(s)) ==> IsFirstAwaiting(log, true, id, s.compensation[id]))
  {
    hide Current, Awaits, Stands, BytesBefore, LexLess;
    AwaitsByPhotons(log, id);
    forall o: Id
      ensures o in Unrecorded(Current(log)) <==> Awaits(log, Work(o, false))
      ensures o in Uncompensated(Current(log)) <==> Awaits(log, Work(o, true))
      ensures LexLess(id, o) <==> BytesBefore(id, o)
    {
      AwaitsByPhotons(log, o);
      LexDecides(id, o);
    }
  }

  lemma InTheWayByPhotons(d: Definition, log: seq<Photon>, k: nat)
    ensures FirstBlocking(d, Current(log), k) <==> IsFirstInTheWay(d, log, k)
    ensures k < |d.nodes| ==> AnswersFailure(d, d.nodes[k], OnBlocking(d, d.nodes[k]))
  {
    hide Current, Blocks, InTheWay;
    forall j | 0 <= j < |d.nodes| ensures Blocks(d, Current(log), d.nodes[j]) <==> InTheWay(d, log, d.nodes[j]) {
      NodeByPhotons(d, log, d.nodes[j]);
    }
  }

  lemma RecordsByPhotons(d: Definition, log: seq<Photon>, r: Outcome)
    requires var s := Current(log); Unrecorded(s) != {} || Uncompensated(s) != {}
    requires var s := Current(log);
      if Unrecorded(s) != {} then
        exists id :: IsFirst(id, Unrecorded(s)) && r == Proposes([RecordStep(id, s.terminal[id])])
      else exists id :: IsFirst(id, Uncompensated(s)) && r == Proposes([RecordCompensation(id, s.compensation[id])])
    ensures Answers(d, log, r)
  {
    hide Fold, Current, LexLess, Awaits, IsFirstAwaiting, IsFirstInTheWay, AreSteps;
    var s := Current(log);
    forall id: Id
      ensures id in Unrecorded(s) <==> Awaits(log, Work(id, false))
      ensures id in Uncompensated(s) <==> Awaits(log, Work(id, true))
    {
      AwaitsByPhotons(log, id);
    }
    if Unrecorded(s) != {} {
      var id :| IsFirst(id, Unrecorded(s)) && r == Proposes([RecordStep(id, s.terminal[id])]);
      FirstByPhotons(log, id);
    } else {
      var id :| IsFirst(id, Uncompensated(s)) && r == Proposes([RecordCompensation(id, s.compensation[id])]);
      FirstByPhotons(log, id);
    }
  }

  lemma FailuresByPhotons(d: Definition, log: seq<Photon>, r: Outcome)
    requires var s := Current(log); Unrecorded(s) == {} && Uncompensated(s) == {}
    requires Distinct(d.nodes)
    requires var s := Current(log);
      if exists k: nat :: FirstBlocking(d, s, k) then
        exists k: nat :: FirstBlocking(d, s, k) && r == OnBlocking(d, d.nodes[k])
      else r == Proposes(StepsFrom(d, s, 0, s.inflight))
    ensures Answers(d, log, r)
  {
    hide Fold, Current, Unrecorded, Uncompensated, Blocks, StepsFrom, Distinct, OnBlocking;
    hide Awaits, IsFirstAwaiting, InTheWay, AnswersFailure, AreSteps;
    var s := Current(log);
    forall id: Id ensures !Awaits(log, Work(id, false)) && !Awaits(log, Work(id, true)) {
      AwaitsByPhotons(log, id);
    }
    forall k: nat ensures FirstBlocking(d, s, k) <==> IsFirstInTheWay(d, log, k) {
      InTheWayByPhotons(d, log, k);
    }
    if exists k: nat :: FirstBlocking(d, s, k) {
      var k: nat :| FirstBlocking(d, s, k) && r == OnBlocking(d, d.nodes[k]);
      InTheWayByPhotons(d, log, k);
    } else {
      var ks, busy := StepsByPhotons(d, log, r.acts);
    }
  }

  /** For every log of an accepted workflow, reachable or not: what its view proposes, told by the photons. */
  lemma ViewByPhotons(d: Definition, log: seq<Photon>, r: Outcome)
    requires Acceptable(d.nodes) && IsView(d, Current(log), r)
    ensures if Cancelled in log || Since(log, Paused, {Resumed}) || Finished(d, Current(log)) == |d.nodes| then
        r == Proposes([])
      else Answers(d, log, r)
  {
    AcceptableIsDistinct(d.nodes);
    hide Acceptable, Finished, Unrecorded, Uncompensated, FirstBlocking, StepsFrom, Distinct, Fold, Since, IsFirst;
    hide Answers, OnBlocking;
    var s := Current(log);
    StateMeaning(log, []);
    if !s.cancelled && !s.paused && Finished(d, s) != |d.nodes| {
      if Unrecorded(s) != {} || Uncompensated(s) != {} {
        RecordsByPhotons(d, log, r);
      } else {
        FailuresByPhotons(d, log, r);
      }
    }
  }

  // ----- the status -----

  /** The finished count: what completed, was skipped, or failed and is carried on after, each kind counted. */
  lemma CountByPhotons(d: Definition, log: seq<Photon>) returns (done: set<Id>, skipped: set<Id>, carried: set<Id>)
    ensures forall id :: id in done <==> StepCompleted(id) in log
    ensures forall id :: id in skipped <==> StepSkipped(id) in log
    ensures forall id :: id in carried <==>
      Fails(log, id) && exists i | 0 <= i < |d.nodes| :: d.nodes[i].id == id && Carries(d, log, d.nodes[i])
    ensures Finished(d, Current(log)) == |done| + |skipped| + |carried|
  {
    var s := Current(log);
    done, skipped, carried := s.succeeded, s.skipped, ContinuedFailures(d, s);
    hide Current, Fails, Tolerated, Carries;
    forall id: Id
      ensures id in done <==> StepCompleted(id) in log
      ensures id in skipped <==> StepSkipped(id) in log
      ensures id in carried <==>
        Fails(log, id) && exists i | 0 <= i < |d.nodes| :: d.nodes[i].id == id && Carries(d, log, d.nodes[i])
    {
      IdByPhotons(log, id);
      forall i | 0 <= i < |d.nodes| && d.nodes[i].id == id
        ensures Tolerated(d, s, d.nodes[i]) <==> Carries(d, log, d.nodes[i])
      {
        CarriesByPhotons(d, log, d.nodes[i]);
      }
    }
  }

  lemma CarriesByPhotons(d: Definition, log: seq<Photon>, node: Node)
    ensures Tolerated(d, Current(log), node) <==> Carries(d, log, node)
  {
    hide Current;
    IdByPhotons(log, node.id);
  }

  /** The status cell, by the photons and the finished count. */
  lemma ReportByPhotons(d: Definition, log: seq<Photon>) returns (running: set<Id>)
    ensures forall id :: id in running <==> Runs(log, id)
    ensures var report, full := ReportOf(d, Current(log)), Finished(d, Current(log)) == |d.nodes|;
      var paused := Since(log, Paused, {Resumed});
      && report.completed == Finished(d, Current(log)) && report.total == |d.nodes| && report.inflight == |running|
      && (report.state.WasCancelled? <==> Cancelled in log)
      && (report.state.IsPaused? <==> Cancelled !in log && paused)
      && (report.state.IsCompleted? <==> Cancelled !in log && !paused && full)
      && (report.state.HasFailed? <==> Cancelled !in log && !paused && !full && exists id :: Fails(log, id))
  {
    hide Finished, Fold, Since, Fails, Runs;
    var s := Current(log);
    running := s.inflight;
    StateMeaning(log, []);
    forall id: Id ensures id in s.failed <==> Fails(log, id)
      ensures id in s.inflight <==> Runs(log, id)
    {
      IdByPhotons(log, id);
    }
    if s.failed != {} {
      var id :| id in s.failed;
    }
  }

  // ----- reachable logs -----

  /** In every reachable log the nodes that run number at most the places, in all and of each group. */
  lemma LimitsByPhotons(d: Definition, log: seq<Photon>, group: Id, n: nat) returns (running: set<Id>)
    requires Acceptable(d.nodes) && Reachable(d, log)
    ensures forall id :: id in running <==> Runs(log, id)
    ensures HasPlaces(d, n) ==> |running| <= n
    ensures group != [] && GroupPlaces(d, group, n) ==> |Members(d, running, group)| <= n
  {
    hide Acceptable, Reachable, Current, Runs, HasPlaces, GroupPlaces, MaxParallel, GroupLimit;
    running := Current(log).inflight;
    forall id ensures id in running <==> Runs(log, id) {
      IdByPhotons(log, id);
    }
    LimitsHold(d, log);
    PlacesAreRead(d, group);
    PlacesAreOne(d, group, n, MaxParallel(d));
    PlacesAreOne(d, group, n, GroupLimit(d, group));
    assert Members(d, running, group) == InGroup(d, running, group);
  }

  /** A compensation is recorded as completed or failed only as the last act compensating the node ended so. */
  lemma CompensationRecordsAreTrue(d: Definition, log: seq<Photon>, i: nat, id: Id)
    requires Reachable(d, log) && i < |log|
    requires log[i] == CompensationCompleted(id) || log[i] == CompensationFailed(id)
    ensures Stands(log[..i], Work(id, true), log[i].CompensationCompleted?)
  {
    hide Reachable, IsView, Current, Stands;
    var m := MoveAt(d, log, i);
    assert m.Execute?;
    ExecutedIsDue(d, log[..i], m.proposed);
    AwaitsByPhotons(log[..i], id);
  }

  /** A compensation is dispatched only for a failure for good that the node's policy answers by compensating. */
  lemma CompensationIsOwed(d: Definition, log: seq<Photon>, i: nat, id: Id) returns (k: nat)
    requires Reachable(d, log) && i < |log| && log[i] == CompensationDispatched(id)
    ensures k < |d.nodes| && d.nodes[k].id == id && d.nodes[k].compensation && InTheWay(d, log[..i], d.nodes[k])
  {
    hide Reachable, IsView, Current, InTheWay, Blocks;
    var m := MoveAt(d, log, i);
    assert m.Execute?;
    ExecutedIsDue(d, log[..i], m.proposed);
    k :| FirstBlocking(d, Current(log[..i]), k) && d.nodes[k].id == id && d.nodes[k].compensation;
    InTheWayByPhotons(d, log[..i], k);
  }
}
