/**
 * The agreement between request handlers, which ask for the configuration to be validated, and the
 * one worker that validates it. Each block under the mutex is one step; steps interleave freely.
 */
module Handshake {
  import opened Basics

  datatype Startup = Starting | Ready | Failed

  /** What a check of the configuration came to. */
  datatype Checked = Accepted | Rejected(error: string)

  /** The variables behind the mutex. */
  datatype Shared = Shared(requested: nat, completed: nat, startup: Startup, error: Option<string>)

  const INITIAL := Shared(0, 0, Starting, None)

  // ----- the blocks under the mutex -----

  function Requested(s: Shared, force: bool): Shared {
    if !force && s.requested != 0 then s
    else s.(requested := s.requested + 1, startup := Starting, error := None)
  }

  /** The worker's wait is over when there is something it has not completed. */
  predicate HasWork(s: Shared) {
    s.requested != s.completed
  }

  function Published(s: Shared, generation: nat, checked: Checked): Shared {
    var done := s.(completed := generation);
    if s.requested != generation then done
    else if checked.Accepted? then done.(startup := Ready, error := None)
    else done.(startup := Failed, error := Some(checked.error))
  }

  /** The daemon's variables, changed in place. */
  class Boot {
    var requested: nat
    var completed: nat
    var startup: Startup
    var error: Option<string>

    function Now(): Shared
      reads this
    {
      Shared(requested, completed, startup, error)
    }

    constructor ()
      ensures Now() == INITIAL
    {
      requested, completed, startup, error := 0, 0, Starting, None;
    }

    method RequestValidation(force: bool)
      modifies this
      ensures Now() == Requested(old(Now()), force)
      ensures force || old(requested) == 0 ==>
        requested == old(requested) + 1 && completed == old(completed) && startup == Starting && error == None
      ensures !force && old(requested) > 0 ==> Now() == old(Now())
    {
      if !force && requested != 0 { return; }
      requested := requested + 1;
      startup := Starting;
      error := None;
    }

    /** The block after the wait: the worker takes the newest generation. */
    method Take() returns (generation: nat)
      requires HasWork(Now())
      ensures generation == requested
    {
      generation := requested;
    }

    method Publish(generation: nat, checked: Checked) returns (published: bool)
      modifies this
      ensures Now() == Published(old(Now()), generation, checked)
      ensures published <==> old(requested) == generation
    {
      published := false;
      completed := generation;
      if requested == generation {
        startup := if checked.Accepted? then Ready else Failed;
        error := if checked.Accepted? then None else Some(checked.error);
        published := true;
      }
    }

    /** One turn of the worker, on the object: the loop body cut where other threads may run in between. */
    method Turn(worker: Worker, clock: nat, checked: Checked, ghost s: System) returns (next: Worker)
      requires s.shared == Now() && s.worker == worker && s.clock == clock
      modifies this
      ensures Now() == WorkerStep(s, checked).shared && next == WorkerStep(s, checked).worker
    {
      match worker
      case Waiting =>
        if requested == completed { return Waiting; }
        var generation := Take();
        next := Taken(generation);
      case Taken(generation) => next := Checking(generation, clock);
      case Checking(generation, began) => next := Judged(generation, began, checked);
      case Judged(generation, _, result) =>
        var published := Publish(generation, result);
        next := Waiting;
    }
  }

  // ----- interleavings -----

  /** Where the worker is in its loop, with the moments at which it took and began. */
  datatype Worker =
    | Waiting
    | Taken(generation: nat)
    | Checking(generation: nat, began: nat)
    | Judged(generation: nat, began: nat, checked: Checked)

  /** The whole daemon; `clock`, `lastRequest` and `verdict` record when things happened. */
  datatype System = System(shared: Shared, worker: Worker, clock: nat, lastRequest: nat, verdict: Option<Verdict>)

  /** The last verdict published: when its check began and what it came to. */
  datatype Verdict = Verdict(began: nat, checked: Checked)

  const START := System(INITIAL, Waiting, 0, 0, None)

  datatype Event = Request(force: bool) | Work(checked: Checked)

  /** One step; a worker with nothing to do waits. `checked` is used where a check ends. */
  function Step(s: System, e: Event): System {
    var t := s.(clock := s.clock + 1);
    match e
    case Request(force) =>
      var shared := Requested(s.shared, force);
      t.(shared := shared, lastRequest := if shared == s.shared then s.lastRequest else t.clock)
    case Work(checked) => WorkerStep(t, checked)
  }

  function WorkerStep(s: System, checked: Checked): System {
    match s.worker
    case Waiting => if HasWork(s.shared) then s.(worker := Taken(s.shared.requested)) else s
    case Taken(g) => s.(worker := Checking(g, s.clock))
    case Checking(g, began) => s.(worker := Judged(g, began, checked))
    case Judged(g, began, result) =>
      s.(shared := Published(s.shared, g, result), worker := Waiting,
         verdict := if s.shared.requested == g then Some(Verdict(began, result)) else s.verdict)
  }

  function Run(s: System, events: seq<Event>): System
    decreases |events|
  {
    if events == [] then s else Run(Step(s, events[0]), events[1..])
  }

  // ----- what every step keeps -----

  /** The generation the worker holds is newer than the last completed one and was asked for. */
  ghost predicate Holds(s: System, g: nat) {
    s.shared.completed < g <= s.shared.requested
  }

  ghost predicate Inv(s: System) {
    && s.shared.completed <= s.shared.requested
    && s.lastRequest <= s.clock
    && (s.shared.requested == 0 ==> s.shared.startup == Starting && s.worker == Waiting)
    && (s.shared.requested > 0 ==> (s.shared.startup == Starting <==> HasWork(s.shared)))
    && (match s.worker
        case Waiting => true
        case Taken(g) => Holds(s, g)
        case Checking(g, began) => Holds(s, g) && (g == s.shared.requested ==> s.lastRequest < began)
        case Judged(g, began, _) => Holds(s, g) && (g == s.shared.requested ==> s.lastRequest < began))
    && (s.shared.startup != Starting ==> PublishedFresh(s))
  }

  /** What is published is the outcome of a check that began after the latest request. */
  ghost predicate PublishedFresh(s: System) {
    && s.verdict.Some? && s.lastRequest < s.verdict.value.began
    && match s.verdict.value.checked
       case Accepted => s.shared.startup == Ready && s.shared.error == None
       case Rejected(e) => s.shared.startup == Failed && s.shared.error == Some(e)
  }

  lemma StepKeepsInv(s: System, e: Event)
    requires Inv(s)
    ensures Inv(Step(s, e))
  {
  }

  lemma {:induction false} RunKeepsInv(s: System, events: seq<Event>)
    requires Inv(s)
    ensures Inv(Run(s, events))
    decreases |events|
  {
    if events != [] {
      StepKeepsInv(s, events[0]);
      RunKeepsInv(Step(s, events[0]), events[1..]);
    }
  }

  /** In every interleaving, a verdict that is visible comes from a check begun after the latest request. */
  lemma NoStaleVerdict(events: seq<Event>)
    ensures var s := Run(START, events);
      && s.shared.completed <= s.shared.requested
      && (s.shared.startup != Starting ==> PublishedFresh(s))
      && (s.shared.requested > 0 ==> (s.shared.startup == Starting <==> s.shared.requested != s.shared.completed))
  {
    RunKeepsInv(START, events);
  }

  // ----- what a request does -----

  /** A forced request and the very first one start a new generation and hide what was published. */
  lemma RequestStarts(s: System, force: bool)
    requires force || s.shared.requested == 0
    ensures var t := Step(s, Request(force));
      && t.shared.requested == s.shared.requested + 1 && t.shared.completed == s.shared.completed
      && t.shared.startup == Starting && t.shared.error == None && t.lastRequest == t.clock
      && t.worker == s.worker && t.verdict == s.verdict
  {
  }

  /** Any later unforced request only takes time. */
  lemma RequestIsIdle(s: System)
    requires s.shared.requested > 0
    ensures Step(s, Request(false)) == s.(clock := s.clock + 1)
  {
  }

  /** The event at `i` is a request that is forced or that none came before. */
  predicate StartsGeneration(events: seq<Event>, i: nat)
    requires i < |events|
  {
    events[i].Request? && (events[i].force || forall j | 0 <= j < i :: !events[j].Request?)
  }

  lemma {:induction false} RunOneMore(s: System, events: seq<Event>, e: Event)
    ensures Run(s, events + [e]) == Step(Run(s, events), e)
    decreases |events|
  {
    if events == [] {
      assert [] + [e] == [e] && Run(Step(s, e), [e][1..]) == Step(s, e);
    } else {
      assert (events + [e])[0] == events[0] && (events + [e])[1..] == events[1..] + [e];
      RunOneMore(Step(s, events[0]), events[1..], e);
    }
  }

  /** In every interleaving the generations asked for are the forced requests and the first one. */
  lemma {:induction false} GenerationsAreRequests(events: seq<Event>)
    ensures Run(START, events).shared.requested == |set i | 0 <= i < |events| && StartsGeneration(events, i)|
    ensures Run(START, events).shared.requested > 0 <==> exists i | 0 <= i < |events| :: events[i].Request?
  {
    if events != [] {
      var last := |events| - 1;
      var init, e := events[..last], events[last];
      assert events == init + [e];
      GenerationsAreRequests(init);
      RunOneMore(START, init, e);
      assert forall i | 0 <= i < last :: init[i] == events[i];
      assert forall i | 0 <= i < last :: StartsGeneration(init, i) <==> StartsGeneration(events, i);
      var before := set i | 0 <= i < last && StartsGeneration(init, i);
      var now := set i | 0 <= i < |events| && StartsGeneration(events, i);
      assert now == if StartsGeneration(events, last) then before + {last} else before;
      var s := Run(START, init);
      if e.Request? {
        if e.force || s.shared.requested == 0 {
          RequestStarts(s, e.force);
        } else {
          RequestIsIdle(s);
        }
        assert events[last].Request?;
      } else {
        WorkAsksNothing(s, e);
      }
    }
  }

  lemma WorkAsksNothing(s: System, e: Event)
    requires e.Work?
    ensures Step(s, e).shared.requested == s.shared.requested
  {
  }

  // ----- no request is lost -----

  /** Steps the worker still needs before everything asked for is completed. */
  function Remaining(s: System): nat {
    match s.worker
    case Waiting => if HasWork(s.shared) then 4 else 0
    case Taken(g) => if g == s.shared.requested then 3 else 7
    case Checking(g, _) => if g == s.shared.requested then 2 else 6
    case Judged(g, _, _) => if g == s.shared.requested then 1 else 5
  }

  ghost predicate OnlyWork(events: seq<Event>) {
    forall i | 0 <= i < |events| :: events[i].Work?
  }

  lemma WorkMakesProgress(s: System, e: Event)
    requires Inv(s) && e.Work? && Remaining(s) > 0
    ensures Remaining(Step(s, e)) == Remaining(s) - 1
    ensures Step(s, e).shared.requested == s.shared.requested
  {
  }

  lemma {:induction false} WorkSettles(s: System, events: seq<Event>)
    requires Inv(s) && OnlyWork(events) && |events| == Remaining(s)
    ensures Remaining(Run(s, events)) == 0 && Run(s, events).shared.requested == s.shared.requested
    decreases |events|
  {
    if events != [] {
      WorkMakesProgress(s, events[0]);
      StepKeepsInv(s, events[0]);
      WorkSettles(Step(s, events[0]), events[1..]);
    }
  }

  /**
   * After any history with a request in it, once no further request arrives the worker publishes a
   * verdict within seven of its own steps, and that verdict is fresh.
   */
  lemma NoRequestIsLost(events: seq<Event>, later: seq<Event>)
    requires exists i | 0 <= i < |events| :: events[i].Request?
    requires OnlyWork(later) && |later| == Remaining(Run(START, events))
    ensures |later| <= 7
    ensures var s := Run(Run(START, events), later);
      s.shared.startup != Starting && PublishedFresh(s) && s.shared.completed == s.shared.requested
  {
    GenerationsAreRequests(events);
    RunKeepsInv(START, events);
    WorkSettles(Run(START, events), later);
    RunKeepsInv(Run(START, events), later);
  }

  /** A forced request during a check hides the verdict of that check: it is not published. */
  lemma RequestDuringCheckOutdatesIt(s: System, checked: Checked)
    requires Inv(s) && s.worker.Checking?
    ensures var t := Step(Step(Step(s, Request(true)), Work(checked)), Work(checked));
      t.shared.startup == Starting && t.verdict == s.verdict && HasWork(t.shared)
  {
  }
}
