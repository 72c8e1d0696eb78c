/** Runs of one workflow: the logs its scheduler, its acts and its operator can produce, and what all of them keep. */
module ClothoRuns {
  import opened Basics
  import opened ClothoGraph
  import opened ClothoLog
  import opened ClothoView
  import opened ClothoSteps

  /** One step: a proposed act is executed, an act starts or ends outside, or the operator intervenes. */
  datatype Move =
    | Execute(proposed: Act)
    | Start(act: nat, work: Option<Work>)
    | End(act: nat, success: bool)
    | Control(request: Act)

  function Emitted(m: Move): Photon {
    match m
    case Execute(act) => Refract(act)
    case Start(act, work) => ActStarted(act, work)
    case End(act, success) => ActEnded(act, success)
    case Control(act) => Refract(act)
  }

  /** The dispatch that a tagged act answers. */
  function DispatchFor(w: Work): Photon {
    if w.compensation then CompensationDispatched(w.node) else StepDispatched(w.node)
  }

  ghost predicate Allowed(d: Definition, log: seq<Photon>, m: Move) {
    match m
    case Execute(act) => exists acts :: IsView(d, Current(log), Proposes(acts)) && act in acts
    case Start(_, work) => work.Some? ==> DispatchFor(work.value) in log
    case End(_, _) => true
    case Control(act) => act.Pause? || act.Resume? || act.Cancel? || act.RetryNode?
  }

  ghost predicate Reachable(d: Definition, log: seq<Photon>) {
    log == []
    || (Reachable(d, log[..|log| - 1])
        && exists m :: Allowed(d, log[..|log| - 1], m) && Emitted(m) == log[|log| - 1])
  }

  lemma {:induction false} PrefixIsReachable(d: Definition, log: seq<Photon>, n: nat)
    requires Reachable(d, log) && n <= |log|
    ensures Reachable(d, log[..n])
  {
    if n == |log| {
      assert log[..n] == log;
    } else {
      PrefixIsReachable(d, log[..|log| - 1], n);
      assert log[..|log| - 1][..n] == log[..n];
    }
  }

  /** The move that put photon `i` into the log. */
  lemma MoveAt(d: Definition, log: seq<Photon>, i: nat) returns (m: Move)
    requires Reachable(d, log) && i < |log|
    ensures Reachable(d, log[..i]) && Allowed(d, log[..i], m) && Emitted(m) == log[i]
  {
    PrefixIsReachable(d, log, i + 1);
    var part := log[..i + 1];
    assert part[..|part| - 1] == log[..i] && part[|part| - 1] == log[i];
    m :| Allowed(d, part[..|part| - 1], m) && Emitted(m) == part[|part| - 1];
  }

  lemma ExecutedIsDue(d: Definition, log: seq<Photon>, act: Act)
    requires Allowed(d, log, Execute(act))
    ensures Due(d, Current(log), act)
  {
    hide IsView, Due;
    var acts :| IsView(d, Current(log), Proposes(acts)) && act in acts;
    ProposedIsDue(d, Current(log), acts, act);
  }

  // ----- building a run -----

  /** An allowed move makes the log longer. */
  lemma Extend(d: Definition, log: seq<Photon>, f: Folding, m: Move)
    requires Reachable(d, log) && Fold(log) == f && Allowed(d, log, m)
    ensures Reachable(d, log + [Emitted(m)]) && Fold(log + [Emitted(m)]) == Apply(f, Emitted(m))
  {
    hide Allowed, Emitted;
    assert (log + [Emitted(m)])[..|log|] == log;
    FoldOneMore(log, Emitted(m));
  }

  /** An act that answers a dispatch starts and ends. */
  lemma RunWork(d: Definition, log: seq<Photon>, f: Folding, act: nat, w: Work, success: bool)
    requires Reachable(d, log) && Fold(log) == f && DispatchFor(w) in log
    ensures var start, end := ActStarted(act, Some(w)), ActEnded(act, success);
      Reachable(d, log + [start] + [end]) && Fold(log + [start] + [end]) == Apply(Apply(f, start), end)
  {
    hide Reachable, Fold, Apply;
    var start := Start(act, Some(w));
    Extend(d, log, f, start);
    Extend(d, log + [Emitted(start)], Apply(f, Emitted(start)), End(act, success));
  }

  /** The one act of a view is executed. */
  lemma RunProposed(d: Definition, log: seq<Photon>, f: Folding, act: Act)
    requires Reachable(d, log) && Fold(log) == f && IsView(d, Settled(f.state), Proposes([act]))
    ensures Reachable(d, log + [Refract(act)]) && Fold(log + [Refract(act)]) == Apply(f, Refract(act))
  {
    hide Reachable, IsView;
    var acts := [act];
    assert IsView(d, Current(log), Proposes(acts)) && act in acts;
    Extend(d, log, f, Execute(act));
  }

  // ----- where outcomes come from -----

  /** The nodes with work of their own. */
  function Workers(d: Definition): set<Id> {
    set i | 0 <= i < |d.nodes| && Dispatches(d.nodes[i]) :: d.nodes[i].id
  }

  /** An act ends for a node only after the node was dispatched. */
  ghost predicate EndsAnswer(log: seq<Photon>, f: Folding) {
    && (forall a | a in f.acts :: !f.acts[a].compensation ==> StepDispatched(f.acts[a].node) in log)
    && (forall id | id in f.state.terminal :: StepDispatched(id) in log)
  }

  lemma EndsAnswerStep(d: Definition, log: seq<Photon>, f: Folding, m: Move)
    requires EndsAnswer(log, f) && Allowed(d, log, m)
    ensures EndsAnswer(log + [Emitted(m)], Apply(f, Emitted(m)))
  {
    hide IsView, Current;
    var p := Emitted(m);
    assert forall q | q in log :: q in log + [p];
    match p {
      case ActStarted(_, _) =>
      case ActEnded(_, _) =>
      case _ =>
    }
  }

  lemma {:induction false} EndsAnswerDispatches(d: Definition, log: seq<Photon>)
    requires Reachable(d, log)
    ensures EndsAnswer(log, Fold(log))
  {
    if log != [] {
      var last := |log| - 1;
      EndsAnswerDispatches(d, log[..last]);
      var m := MoveAt(d, log, last);
      EndsAnswerStep(d, log[..last], Fold(log[..last]), m);
      assert log == log[..last] + [log[last]];
    }
  }

  /** What holds of one node in every reachable log. */
  ghost predicate SaneFor(d: Definition, log: seq<Photon>, s: State, id: Id) {
    && (id in s.succeeded || id in s.skipped ==> id in Ids(d.nodes))
    && (StepDispatched(id) in log ==> id in Workers(d))
    && (id in s.failed || id in s.inflight ==> StepDispatched(id) in log)
    && !(id in s.succeeded && id in s.skipped)
    && !(id in s.succeeded && id in s.failed)
  }

  lemma SaneStep(d: Definition, log: seq<Photon>, m: Move, id: Id)
    requires Acceptable(d.nodes) && Allowed(d, log, m)
    requires EndsAnswer(log, Fold(log)) && SaneFor(d, log, Fold(log).state, id)
    ensures SaneFor(d, log + [Emitted(m)], Apply(Fold(log), Emitted(m)).state, id)
  {
    hide Apply, Fold, Acceptable, Ids, Workers, IsView;
    var p := Emitted(m);
    OnePhoton(Fold(log), p, id);
    assert forall q :: q in log + [p] <==> q in log || q == p;
    WorkersAreNodes(d);
    if m.Execute? {
      ExecutedIsDue(d, log, m.proposed);
      DueIsSane(d, Current(log), m.proposed, id);
    }
  }

  /** What a due act relies on, as far as one node is concerned. */
  lemma DueIsSane(d: Definition, s: State, act: Act, id: Id)
    requires Acceptable(d.nodes) && Due(d, s, act)
    ensures var p := Refract(act);
      && (p in {StepCompleted(id), StepSkipped(id), StepDispatched(id)} && act.Step? ==>
            id in Ids(d.nodes) && id !in s.succeeded && id !in s.skipped)
      && (p == StepDispatched(id) ==> id in Workers(d))
      && (p == StepCompleted(id) && act.Step? ==> id !in Workers(d))
      && (p in {StepCompleted(id), StepFailed(id)} && !act.Step? ==> id in Unrecorded(s))
      && (p == StepFailed(id) ==> !act.Step?)
  {
    hide Eligible, FirstBlocking, HasRoom;
    AcceptableIsDistinct(d.nodes);
    if act.Step? {
      var i: nat :| StepDue(d, s, act, i);
      assert act.node == d.nodes[i] && d.nodes[i].id in Ids(d.nodes);
      EligibleIsOpen(d, s, d.nodes[i]);
      WorkersAreKnown(d, i);
    }
  }

  lemma WorkersAreNodes(d: Definition)
    ensures Workers(d) <= Ids(d.nodes)
  {
  }

  lemma EligibleIsOpen(d: Definition, s: State, node: Node)
    requires Eligible(d, s, node)
    ensures node.id !in s.succeeded && node.id !in s.skipped && node.id !in s.inflight
    ensures node.id in s.failed ==> !Exhausted(s, node)
  {
  }

  lemma WorkersAreKnown(d: Definition, i: nat)
    requires Distinct(d.nodes) && i < |d.nodes|
    ensures d.nodes[i].id in Workers(d) <==> Dispatches(d.nodes[i])
  {
    if d.nodes[i].id in Workers(d) {
      var j :| 0 <= j < |d.nodes| && Dispatches(d.nodes[j]) && d.nodes[j].id == d.nodes[i].id;
      assert i == j;
    }
  }

  lemma {:induction false} ReachableIsSane(d: Definition, log: seq<Photon>, id: Id)
    requires Acceptable(d.nodes) && Reachable(d, log)
    ensures SaneFor(d, log, Fold(log).state, id)
  {
    hide Acceptable, Allowed, SaneFor, Emitted;
    if log == [] {
      NothingIsSane(d, id);
    } else {
      var last := |log| - 1;
      ReachableIsSane(d, log[..last], id);
      EndsAnswerDispatches(d, log[..last]);
      var m := MoveAt(d, log, last);
      SaneStep(d, log[..last], m, id);
      assert log == log[..last] + [log[last]];
    }
  }

  lemma NothingIsSane(d: Definition, id: Id)
    ensures SaneFor(d, [], Fold([]).state, id)
  {
  }

  // ----- succeeded, skipped and failed -----

  /** No node both succeeds and is skipped, and none both succeeds and stays failed. */
  lemma OutcomesAreExclusive(d: Definition, log: seq<Photon>)
    requires Acceptable(d.nodes) && Reachable(d, log)
    ensures var s := Current(log);
      && s.succeeded !! s.skipped
      && s.succeeded !! s.failed
      && s.succeeded + s.skipped + s.failed + s.inflight <= Ids(d.nodes)
      && s.failed + s.inflight <= Workers(d)
  {
    hide Fold, Ids, Workers, Acceptable, Reachable;
    var s := Fold(log).state;
    WorkersAreNodes(d);
    forall id
      ensures id in s.succeeded ==> id in Ids(d.nodes) && id !in s.skipped && id !in s.failed
      ensures id in s.skipped ==> id in Ids(d.nodes)
      ensures id in s.failed || id in s.inflight ==> id in Workers(d)
    {
      ReachableIsSane(d, log, id);
    }
  }

  /** A join or an empty node is never dispatched and never fails. */
  lemma EmptyNodesNeverRun(d: Definition, log: seq<Photon>, i: nat)
    requires Acceptable(d.nodes) && Reachable(d, log) && i < |d.nodes|
    requires d.nodes[i].join || (!d.nodes[i].act && !d.nodes[i].child)
    ensures StepDispatched(d.nodes[i].id) !in log && StepFailed(d.nodes[i].id) !in log
    ensures DispatchCount(log, d.nodes[i].id) == 0
  {
    var id := d.nodes[i].id;
    AcceptableIsDistinct(d.nodes);
    WorkersAreKnown(d, i);
    ReachableIsSane(d, log, id);
    NeverDispatched(log, id);
    if StepFailed(id) in log {
      var j :| 0 <= j < |log| && log[j] == StepFailed(id);
      FailureAnswersDispatch(d, log, j, id);
    }
  }

  lemma {:induction false} NeverDispatched(log: seq<Photon>, id: Id)
    requires StepDispatched(id) !in log
    ensures DispatchCount(log, id) == 0
  {
    if log != [] {
      assert log[|log| - 1] in log;
      assert forall p | p in log[..|log| - 1] :: p in log;
      NeverDispatched(log[..|log| - 1], id);
    }
  }

  /** A recorded failure answers an earlier dispatch of the same node. */
  lemma FailureAnswersDispatch(d: Definition, log: seq<Photon>, i: nat, id: Id)
    requires Acceptable(d.nodes) && Reachable(d, log) && i < |log| && log[i] == StepFailed(id)
    ensures StepDispatched(id) in log[..i]
  {
    hide Acceptable, Due, IsView, StepFor;
    var m := MoveAt(d, log, i);
    assert m.Execute?;
    ExecutedIsDue(d, log[..i], m.proposed);
    DueIsSane(d, Current(log[..i]), m.proposed, id);
    EndsAnswerDispatches(d, log[..i]);
  }
}
