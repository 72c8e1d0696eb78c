/** The acts that run: dispatches whose act has not ended, against the places the scheduler believes are taken. */
module ClothoPlaces {
  import opened Basics
  import opened ClothoGraph
  import opened ClothoLog
  import opened ClothoView
  import opened ClothoSteps
  import opened ClothoRuns
  import opened ClothoTheorems

  // ----- counting photons -----

  function One(condition: bool): nat {
    if condition then 1 else 0
  }

  function DispatchTotal(log: seq<Photon>): nat {
    if log == [] then 0 else DispatchTotal(log[..|log| - 1]) + One(log[|log| - 1].StepDispatched?)
  }

  /** The photon ends an act started for a node. */
  predicate EndsAct(f: Folding, p: Photon) {
    p.ActEnded? && p.act in f.acts && !f.acts[p.act].compensation
  }

  /** The acts started for nodes that have ended. */
  function EndTotal(log: seq<Photon>): nat {
    if log == [] then 0
    else
      var init := log[..|log| - 1];
      EndTotal(init) + One(EndsAct(Fold(init), log[|log| - 1]))
  }

  /** The photon asks to retry a node in flight, and so frees its place while its act still runs. */
  predicate Frees(s: State, p: Photon) {
    p.RetryRequested? && p.retried.Some? && p.retried.value in s.inflight
  }

  /** The retries asked for nodes in flight. */
  function RetriesInFlight(log: seq<Photon>): nat {
    if log == [] then 0
    else
      var init := log[..|log| - 1];
      RetriesInFlight(init) + One(Frees(Current(init), log[|log| - 1]))
  }

  /** The photon is the outcome of a node in flight. */
  predicate Settles(s: State, p: Photon) {
    (p.StepCompleted? || p.StepSkipped? || p.StepFailed?) && p.node in s.inflight
  }

  function OutcomesInFlight(log: seq<Photon>): nat {
    if log == [] then 0
    else
      var init := log[..|log| - 1];
      OutcomesInFlight(init) + One(Settles(Current(init), log[|log| - 1]))
  }

  lemma CountsGrow(log: seq<Photon>, p: Photon)
    ensures DispatchTotal(log + [p]) == DispatchTotal(log) + One(p.StepDispatched?)
    ensures EndTotal(log + [p]) == EndTotal(log) + One(EndsAct(Fold(log), p))
    ensures RetriesInFlight(log + [p]) == RetriesInFlight(log) + One(Frees(Current(log), p))
    ensures OutcomesInFlight(log + [p]) == OutcomesInFlight(log) + One(Settles(Current(log), p))
  {
    hide Fold, EndsAct, Frees, Settles, Current;
    assert (log + [p])[..|log|] == log;
  }

  // ----- the nodes in flight -----

  /** The node whose place the photon frees, if it has one. */
  function Leaving(p: Photon): set<Id> {
    match p
    case StepCompleted(n) => {n}
    case StepSkipped(n) => {n}
    case StepFailed(n) => {n}
    case RetryRequested(Some(n)) => {n}
    case _ => {}
  }

  function Entering(p: Photon): set<Id> {
    if p.StepDispatched? then {p.node} else {}
  }

  /** What one photon does to the nodes in flight; a dispatched node has no final outcome. */
  lemma InflightChange(f: Folding, p: Photon)
    requires p.StepDispatched? ==> p.node !in f.state.succeeded && p.node !in f.state.skipped
    ensures Settled(Apply(f, p).state).inflight == Settled(f.state).inflight - Leaving(p) + Entering(p)
  {
    hide Apply;
    var s, t := Settled(f.state), Settled(Apply(f, p).state);
    forall id ensures id in t.inflight <==> id in s.inflight - Leaving(p) + Entering(p) {
      OnePhoton(f, p, id);
    }
  }

  /** The nodes in flight whose act has ended. */
  function Pending(s: State): set<Id> {
    set id | id in s.inflight && id in s.terminal
  }

  lemma TerminalChange(f: Folding, p: Photon)
    ensures var s, t := f.state, Apply(f, p).state;
      && (forall id | id in t.terminal :: id in s.terminal || (EndsAct(f, p) && id == f.acts[p.act].node))
      && (p.StepDispatched? ==> p.node !in t.terminal)
      && (Leaving(p) == {} && !p.StepDispatched? ==> s.terminal.Keys <= t.terminal.Keys)
  {
    match p {
      case ActEnded(_, _) =>
      case StepDispatched(_) =>
      case RetryRequested(_) =>
      case _ =>
    }
  }

  // ----- the account of places -----

  /** Every dispatch is in flight, settled from there, or freed by a retry; and every settled one has ended. */
  ghost predicate Account(log: seq<Photon>) {
    var s := Current(log);
    && DispatchTotal(log) == |s.inflight| + OutcomesInFlight(log) + RetriesInFlight(log)
    && OutcomesInFlight(log) + |Pending(s)| <= EndTotal(log)
  }

  /** What a move may do to a node in flight. */
  lemma MoveAndPlaces(d: Definition, log: seq<Photon>, m: Move)
    requires Acceptable(d.nodes) && Allowed(d, log, m)
    ensures var s, p := Current(log), Emitted(m);
      && (p.StepDispatched? ==> p.node !in s.inflight && p.node !in s.succeeded && p.node !in s.skipped)
      && (Settles(s, p) ==> p.node in s.terminal)
  {
    hide Acceptable, IsView, Fold, HasRoom, Clear, FirstBlocking;
    if m.Execute? {
      ExecutedIsDue(d, log, m.proposed);
    }
  }

  lemma PlacesMove(inflight: set<Id>, leaving: set<Id>, entering: set<Id>)
    requires leaving == {} || entering == {}
    requires inflight !! entering
    ensures |inflight - leaving + entering| + |inflight * leaving| == |inflight| + |entering|
  {
    if leaving == {} {
      assert inflight - leaving + entering == inflight + entering;
    } else {
      assert inflight - leaving + entering == inflight - leaving;
      assert inflight == inflight - leaving + inflight * leaving;
    }
  }

  lemma OneOf(inflight: set<Id>, n: Id)
    ensures |inflight * {n}| == One(n in inflight)
  {
    assert inflight * {n} == if n in inflight then {n} else {};
  }

  lemma LeavingCount(s: State, p: Photon)
    ensures |s.inflight * Leaving(p)| == One(Settles(s, p)) + One(Frees(s, p))
  {
    if p.StepCompleted? || p.StepSkipped? || p.StepFailed? {
      OneOf(s.inflight, p.node);
    } else if p.RetryRequested? && p.retried.Some? {
      OneOf(s.inflight, p.retried.value);
    }
  }

  lemma EnteringCount(p: Photon)
    ensures |Entering(p)| == One(p.StepDispatched?)
    ensures Leaving(p) == {} || Entering(p) == {}
  {
  }

  lemma PlacesOfPhoton(s: State, p: Photon)
    requires p.StepDispatched? ==> p.node !in s.inflight
    ensures |s.inflight - Leaving(p) + Entering(p)| + One(Settles(s, p)) + One(Frees(s, p))
         == |s.inflight| + One(p.StepDispatched?)
  {
    LeavingCount(s, p);
    EnteringCount(p);
    assert s.inflight !! Entering(p);
    hide Leaving, Entering, Settles, Frees, One;
    PlacesMove(s.inflight, Leaving(p), Entering(p));
  }

  lemma PlacesStep(d: Definition, log: seq<Photon>, m: Move)
    requires Acceptable(d.nodes) && Allowed(d, log, m)
    ensures var s, t, p := Current(log), Current(log + [Emitted(m)]), Emitted(m);
      && |t.inflight| + One(Settles(s, p)) + One(Frees(s, p)) == |s.inflight| + One(p.StepDispatched?)
  {
    hide Acceptable, Allowed, Emitted, Apply, Fold, Leaving, Entering, Settles, Frees;
    MoveAndPlaces(d, log, m);
    FoldOneMore(log, Emitted(m));
    InflightChange(Fold(log), Emitted(m));
    PlacesOfPhoton(Current(log), Emitted(m));
  }

  lemma PendingStep(d: Definition, log: seq<Photon>, m: Move)
    requires Acceptable(d.nodes) && Allowed(d, log, m)
    ensures var s, t, p := Current(log), Current(log + [Emitted(m)]), Emitted(m);
      |Pending(t)| + One(Settles(s, p)) <= |Pending(s)| + One(EndsAct(Fold(log), p))
  {
    hide Acceptable, Allowed, Emitted, Apply, Fold;
    var f, p := Fold(log), Emitted(m);
    var s, t := Current(log), Current(log + [p]);
    MoveAndPlaces(d, log, m);
    FoldOneMore(log, p);
    InflightChange(f, p);
    TerminalChange(f, p);
    if EndsAct(f, p) {
      var n := f.acts[p.act].node;
      assert Pending(t) <= Pending(s) + {n};
      SubsetSize(Pending(t), Pending(s) + {n});
      UnionSize(Pending(s), {n});
    } else if Settles(s, p) {
      assert p.node in Pending(s) && Pending(t) <= Pending(s) - {p.node};
      SubsetSize(Pending(t), Pending(s) - {p.node});
    } else {
      assert Pending(t) <= Pending(s);
      SubsetSize(Pending(t), Pending(s));
    }
  }

  lemma {:induction false} AccountIsKept(d: Definition, log: seq<Photon>)
    requires Acceptable(d.nodes) && Reachable(d, log)
    ensures Account(log)
  {
    hide Acceptable, Allowed, Current, Fold, Pending, Settles, Frees, EndsAct, Emitted;
    if log == [] {
      NothingRuns();
    } else {
      var last := |log| - 1;
      AccountIsKept(d, log[..last]);
      var m := MoveAt(d, log, last);
      assert log == log[..last] + [Emitted(m)];
      CountsGrow(log[..last], Emitted(m));
      PlacesStep(d, log[..last], m);
      PendingStep(d, log[..last], m);
    }
  }

  lemma NothingRuns()
    ensures Account([]) && Current([]).inflight == {} && Pending(Current([])) == {}
  {
    assert Pending(Current([])) == {};
  }

  /**
   * In every reachable log the acts dispatched and not ended number at most max_parallel and one more for each
   * retry that was asked for a node in flight.
   */
  lemma RunningActsAreBounded(d: Definition, log: seq<Photon>)
    requires Acceptable(d.nodes) && Reachable(d, log)
    ensures DispatchTotal(log) - EndTotal(log) <= MaxParallel(d) + RetriesInFlight(log)
    ensures d.maxParallel == None ==> DispatchTotal(log) - EndTotal(log) <= 4 + RetriesInFlight(log)
    ensures d.maxParallel.Some? && d.maxParallel.value >= 1 ==>
      DispatchTotal(log) - EndTotal(log) <= d.maxParallel.value + RetriesInFlight(log)
  {
    hide Acceptable, Reachable, Current, Pending, Within;
    AccountIsKept(d, log);
    LimitsHold(d, log);
  }

  // ----- one place, two acts -----

  const N: Id := [110]

  const NODE := Node(N, [], true, false, false, None, None, [], Always, false)

  const SINGLE := Definition([NODE], None, Some(1), map[])

  const TWICE: seq<Photon> := [StepDispatched(N), RetryRequested(Some(N)), StepDispatched(N)]

  lemma SingleIsAcceptable()
    ensures Acceptable(SINGLE.nodes) && SortedById(SINGLE.nodes)
  {
    assert SINGLE.nodes[0] == NODE;
    assert Ranks(SINGLE.nodes, map[N := 0]);
  }

  /** Without an outcome and out of flight, the node is the one proposed. */
  lemma NodeIsNext(s: State)
    requires !s.paused && !s.cancelled && s.succeeded == {} && s.skipped == {} && s.failed == {} && s.inflight == {}
    requires s.terminal == map[] && s.compensation == map[]
    ensures IsView(SINGLE, s, Proposes([StepFor(NODE, s)]))
  {
    assert SINGLE.nodes[0] == NODE;
    assert ContinuedFailures(SINGLE, s) == {};
    assert Unrecorded(s) == {} && Uncompensated(s) == {};
    assert {} + {N} == {N};
    assert StepsFrom(SINGLE, s, 1, {N}) == [];
    assert StepsFrom(SINGLE, s, 0, {}) == [StepFor(NODE, s)];
  }

  lemma DispatchedOnce()
    ensures Reachable(SINGLE, [StepDispatched(N)])
    ensures Fold([StepDispatched(N)]) == Apply(EMPTY, StepDispatched(N))
  {
    assert Reachable(SINGLE, []) && Fold([]) == EMPTY && Settled(EMPTY.state) == EMPTY.state;
    hide Reachable, Fold, IsView, Apply;
    NodeIsNext(EMPTY.state);
    RunProposed(SINGLE, [], EMPTY, StepFor(NODE, EMPTY.state));
    assert [] + [StepDispatched(N)] == [StepDispatched(N)];
  }

  /** The state after the retry: one attempt spent, nothing in flight. */
  lemma RetryFrees(f: Folding)
    requires f == Apply(EMPTY, StepDispatched(N))
    ensures var g := Apply(f, RetryRequested(Some(N)));
      g == EMPTY.(state := EMPTY.state.(attempts := map[N := 1])) && Settled(g.state) == g.state
    ensures N in Settled(f.state).inflight
  {
  }

  /** A reachable run of a workflow with one place in which two acts run at once. */
  lemma TwoActsInOnePlace()
    ensures Acceptable(SINGLE.nodes) && Reachable(SINGLE, TWICE) && MaxParallel(SINGLE) == 1
    ensures DispatchTotal(TWICE) - EndTotal(TWICE) == 2 && RetriesInFlight(TWICE) == 1
  {
    hide Acceptable;
    SingleIsAcceptable();
    DispatchedOnce();
    var first := [StepDispatched(N)];
    var f := Apply(EMPTY, StepDispatched(N));
    RetryFrees(f);
    hide Reachable, Fold, IsView, Apply;
    var g := Apply(f, RetryRequested(Some(N)));
    Extend(SINGLE, first, f, Control(RetryNode(Some(N))));
    var second := first + [RetryRequested(Some(N))];
    NodeIsNext(g.state);
    RunProposed(SINGLE, second, g, StepFor(NODE, g.state));
    assert TWICE == second + [StepDispatched(N)];
    CountsGrow([], StepDispatched(N));
    assert [] + [StepDispatched(N)] == first;
    CountsGrow(first, RetryRequested(Some(N)));
    CountsGrow(second, StepDispatched(N));
  }
}
