/** The workflow's photons and the state the scheduler folds from them. */
module ClothoLog {
  import opened Basics
  import opened ClothoGraph

  /** What a tagged act works for: a node's own act, or the act compensating it. */
  datatype Work = Work(node: Id, compensation: bool)

  datatype Photon =
    | Paused
    | Resumed
    | Cancelled
    | StepCompleted(node: Id)
    | StepSkipped(node: Id)
    | StepFailed(node: Id)
    | StepDispatched(node: Id)
    | RetryRequested(retried: Option<Id>)
    | CompensationDispatched(node: Id)
    | CompensationCompleted(node: Id)
    | CompensationFailed(node: Id)
    | ActStarted(act: nat, work: Option<Work>)
    | ActEnded(act: nat, success: bool)

  /** `terminal` and `compensation` hold whether the last act that ended for a node succeeded. */
  datatype State = State(
    succeeded: set<Id>, skipped: set<Id>, failed: set<Id>, attempts: map<Id, nat>, inflight: set<Id>,
    terminal: map<Id, bool>, compensation: map<Id, bool>, compensated: set<Id>, paused: bool, cancelled: bool)

  /** The state while folding, with the node each act works for. */
  datatype Folding = Folding(state: State, acts: map<nat, Work>)

  const EMPTY := Folding(State({}, {}, {}, map[], {}, map[], map[], {}, false, false), map[])

  function Attempts(s: State, id: Id): nat {
    if id in s.attempts then s.attempts[id] else 0
  }

  function Apply(f: Folding, p: Photon): Folding {
    var s := f.state;
    match p
    case Paused => f.(state := s.(paused := true))
    case Resumed => f.(state := s.(paused := false))
    case Cancelled => f.(state := s.(cancelled := true))
    case StepCompleted(n) => f.(state := s.(succeeded := s.succeeded + {n}))
    case StepSkipped(n) => f.(state := s.(skipped := s.skipped + {n}))
    case StepFailed(n) => f.(state := s.(failed := s.failed + {n}))
    case StepDispatched(n) =>
      f.(state := s.(failed := s.failed - {n}, terminal := s.terminal - {n},
                     attempts := s.attempts[n := Attempts(s, n) + 1], inflight := s.inflight + {n}))
    case RetryRequested(None) => f
    case RetryRequested(Some(n)) =>
      f.(state := s.(failed := s.failed - {n}, terminal := s.terminal - {n}, inflight := s.inflight - {n}))
    case CompensationDispatched(_) => f
    case CompensationCompleted(n) => f.(state := s.(compensated := s.compensated + {n}))
    case CompensationFailed(_) => f
    case ActStarted(_, None) => f
    case ActStarted(a, Some(w)) => f.(acts := f.acts[a := w])
    case ActEnded(a, success) =>
      if a !in f.acts then f
      else if f.acts[a].compensation then
        f.(state := s.(compensation := s.compensation[f.acts[a].node := success]))
      else f.(state := s.(terminal := s.terminal[f.acts[a].node := success]))
  }

  function Fold(log: seq<Photon>): Folding {
    if log == [] then EMPTY else Apply(Fold(log[..|log| - 1]), log[|log| - 1])
  }

  /** A node with an outcome is no longer in flight. */
  function Settled(s: State): State {
    s.(inflight := s.inflight - s.succeeded - s.skipped - s.failed)
  }

  function Current(log: seq<Photon>): State {
    Settled(Fold(log).state)
  }

  lemma FoldOneMore(log: seq<Photon>, p: Photon)
    ensures Fold(log + [p]) == Apply(Fold(log), p)
  {
    assert (log + [p])[..|log|] == log;
  }

  /** `state`: one pass over the photons, then the settled nodes leave the nodes in flight. */
  method ReadState(log: seq<Photon>) returns (s: State)
    ensures s == Current(log)
  {
    s := EMPTY.state;
    var acts: map<nat, Work> := map[];
    for i := 0 to |log|
      invariant Folding(s, acts) == Fold(log[..i])
    {
      assert log[..i + 1] == log[..i] + [log[i]];
      FoldOneMore(log[..i], log[i]);
      match log[i] {
        case Paused => s := s.(paused := true);
        case Resumed => s := s.(paused := false);
        case Cancelled => s := s.(cancelled := true);
        case StepCompleted(n) => s := s.(succeeded := s.succeeded + {n});
        case StepSkipped(n) => s := s.(skipped := s.skipped + {n});
        case StepFailed(n) => s := s.(failed := s.failed + {n});
        case CompensationCompleted(n) => s := s.(compensated := s.compensated + {n});
        case RetryRequested(retried) =>
          if retried.Some? {
            s := s.(failed := s.failed - {retried.value});
            s := s.(terminal := s.terminal - {retried.value});
            s := s.(inflight := s.inflight - {retried.value});
          }
        case StepDispatched(n) =>
          s := s.(failed := s.failed - {n});
          s := s.(terminal := s.terminal - {n});
          s := s.(attempts := s.attempts[n := Attempts(s, n) + 1]);
          s := s.(inflight := s.inflight + {n});
        case ActStarted(a, work) =>
          if work.Some? {
            acts := acts[a := work.value];
          }
        case ActEnded(a, success) =>
          if a in acts {
            if acts[a].compensation {
              s := s.(compensation := s.compensation[acts[a].node := success]);
            } else {
              s := s.(terminal := s.terminal[acts[a].node := success]);
            }
          }
        case CompensationDispatched(_) =>
        case CompensationFailed(_) =>
      }
    }
    assert log[..|log|] == log;
    s := s.(inflight := s.inflight - s.succeeded);
    s := s.(inflight := s.inflight - s.skipped);
    s := s.(inflight := s.inflight - s.failed);
  }

  // ----- what the fold means, for every log -----

  function DispatchCount(log: seq<Photon>, id: Id): nat {
    if log == [] then 0
    else DispatchCount(log[..|log| - 1], id) + if log[|log| - 1] == StepDispatched(id) then 1 else 0
  }

  function RetryCount(log: seq<Photon>, id: Id): nat {
    if log == [] then 0
    else RetryCount(log[..|log| - 1], id) + if log[|log| - 1] == RetryRequested(Some(id)) then 1 else 0
  }

  /** `on` is in the log with none of `off` after it. */
  ghost predicate Since(log: seq<Photon>, on: Photon, off: set<Photon>) {
    exists i | 0 <= i < |log| :: log[i] == on && forall j | i < j < |log| :: log[j] !in off
  }

  /** What each part of the state says about the log that was folded. */
  ghost predicate Means(s: State, log: seq<Photon>, id: Id) {
    && (id in s.succeeded <==> StepCompleted(id) in log)
    && (id in s.skipped <==> StepSkipped(id) in log)
    && (id in s.compensated <==> CompensationCompleted(id) in log)
    && (s.cancelled <==> Cancelled in log)
    && (s.paused <==> Since(log, Paused, {Resumed}))
    && Attempts(s, id) == DispatchCount(log, id)
    && (id in s.failed <==> Since(log, StepFailed(id), {StepDispatched(id), RetryRequested(Some(id))}))
    && (id in s.inflight <==> Since(log, StepDispatched(id), {RetryRequested(Some(id))}))
  }

  lemma {:induction false} StateMeaning(log: seq<Photon>, id: Id)
    ensures Means(Fold(log).state, log, id)
  {
    if log != [] {
      StateMeaning(log[..|log| - 1], id);
      MeaningOneMore(Fold(log[..|log| - 1]), log[..|log| - 1], log[|log| - 1], id);
      assert log == log[..|log| - 1] + [log[|log| - 1]];
    }
  }

  /** What one photon changes, as `id` sees it. */
  lemma OnePhoton(f: Folding, p: Photon, id: Id)
    ensures var s, t := f.state, Apply(f, p).state;
      && (id in t.succeeded <==> id in s.succeeded || p == StepCompleted(id))
      && (id in t.skipped <==> id in s.skipped || p == StepSkipped(id))
      && (id in t.compensated <==> id in s.compensated || p == CompensationCompleted(id))
      && (t.cancelled <==> s.cancelled || p == Cancelled)
      && (t.paused <==> p == Paused || (s.paused && p != Resumed))
      && Attempts(t, id) == Attempts(s, id) + (if p == StepDispatched(id) then 1 else 0)
      && (id in t.failed <==>
          p == StepFailed(id) || (id in s.failed && p !in {StepDispatched(id), RetryRequested(Some(id))}))
      && (id in t.inflight <==> p == StepDispatched(id) || (id in s.inflight && p != RetryRequested(Some(id))))
  {
    match p {
      case StepDispatched(n) =>
      case RetryRequested(retried) =>
      case _ =>
    }
  }

  lemma MeaningOneMore(f: Folding, log: seq<Photon>, p: Photon, id: Id)
    requires Means(f.state, log, id)
    ensures Means(Apply(f, p).state, log + [p], id)
  {
    hide Since, Apply, Attempts;
    OnePhoton(f, p, id);
    SinceOneMore(log, p, Paused, {Resumed});
    SinceOneMore(log, p, StepFailed(id), {StepDispatched(id), RetryRequested(Some(id))});
    SinceOneMore(log, p, StepDispatched(id), {RetryRequested(Some(id))});
    assert (log + [p])[..|log|] == log;
  }

  lemma SinceOneMore(log: seq<Photon>, p: Photon, on: Photon, off: set<Photon>)
    requires on !in off
    ensures Since(log + [p], on, off) <==> p == on || (Since(log, on, off) && p !in off)
  {
    var more := log + [p];
    if p == on {
      assert more[|log|] == on;
    }
    if Since(log, on, off) && p !in off {
      var i :| 0 <= i < |log| && log[i] == on && forall j | i < j < |log| :: log[j] !in off;
      assert more[i] == on && forall j | i < j < |more| :: more[j] !in off;
    }
    if Since(more, on, off) && p != on {
      var i :| 0 <= i < |more| && more[i] == on && forall j | i < j < |more| :: more[j] !in off;
      assert log[i] == on;
      assert forall j | i < j < |log| :: log[j] == more[j];
      assert more[|log|] == p;
    }
  }
}
