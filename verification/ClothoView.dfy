/** What the scheduler proposes on a state, and what executing a proposal appends to the log. */
module ClothoView {
  import opened Basics
  import opened Bytes
  import opened ClothoGraph
  import opened ClothoLog

  datatype Act =
    | Step(node: Node, attempt: nat, skip: bool)
    | RecordStep(id: Id, success: bool)
    | RecordCompensation(id: Id, success: bool)
    | CompensateNode(id: Id)
    | Pause
    | Resume
    | Cancel
    | RetryNode(request: Option<Id>)

  /** The acts proposed in order, or the schema error of a compensating node without an act. */
  datatype Outcome = Proposes(acts: seq<Act>) | NoCompensation(id: Id) | Invalid(error: Error)

  datatype Progress = WasCancelled | IsPaused | IsCompleted | HasFailed | IsActive

  /** The status cell of the workflow. */
  datatype Report = Report(state: Progress, completed: nat, inflight: nat, total: nat)

  // ----- reading the definition -----

  function ById(nodes: seq<Node>): (m: map<Id, Node>)
    requires Distinct(nodes)
    ensures m.Keys == Ids(nodes)
    ensures forall i | 0 <= i < |nodes| :: m[nodes[i].id] == nodes[i]
  {
    map i | 0 <= i < |nodes| :: nodes[i].id := nodes[i]
  }

  function FailurePolicy(d: Definition, node: Node): Policy {
    if node.onFailure.Some? then node.onFailure.value
    else if d.failure.Some? then d.failure.value
    else Stop
  }

  function MaxAttempts(node: Node): int {
    if node.maxAttempts.Some? then node.maxAttempts.value else 1
  }

  function AtLeastOne(n: int): (m: nat)
    ensures m >= 1
  {
    if n < 1 then 1 else n
  }

  function MaxParallel(d: Definition): (m: nat)
    ensures m >= 1
  {
    AtLeastOne(if d.maxParallel.Some? then d.maxParallel.value else 4)
  }

  function GroupLimit(d: Definition, group: Id): (m: nat)
    ensures m >= 1
  {
    if group in d.groups then AtLeastOne(d.groups[group]) else MaxParallel(d)
  }

  /** `condition`: does the node's `when` hold? */
  predicate Condition(node: Node, s: State) {
    match node.when
    case Always => true
    case Fixed(holds) => holds
    case StepIs(step, StatusSucceeded) => step in s.succeeded
    case StepIs(step, StatusFailed) => step in s.failed
    case StepIs(step, StatusSkipped) => step in s.skipped
    case StepIs(_, StatusOther) => false
  }

  // ----- what is proposed -----

  /** A failure the workflow carries on after. */
  predicate Tolerated(d: Definition, s: State, node: Node) {
    var policy := FailurePolicy(d, node);
    policy == Continue || (policy == Compensate && node.id in s.compensated)
  }

  ghost predicate ToleratedFailure(d: Definition, s: State, id: Id) {
    id in s.failed && exists i | 0 <= i < |d.nodes| :: d.nodes[i].id == id && Tolerated(d, s, d.nodes[i])
  }

  predicate Exhausted(s: State, node: Node) {
    Attempts(s, node.id) >= MaxAttempts(node)
  }

  ghost function ContinuedFailures(d: Definition, s: State): set<Id> {
    set id | id in s.failed && ToleratedFailure(d, s, id)
  }

  ghost function Finished(d: Definition, s: State): nat {
    |s.succeeded| + |s.skipped| + |ContinuedFailures(d, s)|
  }

  ghost function ReportOf(d: Definition, s: State): Report {
    var finished := Finished(d, s);
    var progress :=
      if s.cancelled then WasCancelled
      else if s.paused then IsPaused
      else if finished == |d.nodes| then IsCompleted
      else if s.failed != {} then HasFailed
      else IsActive;
    Report(progress, finished, |s.inflight|, |d.nodes|)
  }

  /** The nodes whose act has ended and whose outcome is not recorded. */
  function Unrecorded(s: State): set<Id> {
    set id | id in s.terminal && id !in s.succeeded && id !in s.skipped && id !in s.failed
  }

  function Uncompensated(s: State): set<Id> {
    set id | id in s.compensation && id !in s.compensated
  }

  /** A node that failed for good and must be compensated, or stops the workflow. */
  predicate Blocks(d: Definition, s: State, node: Node) {
    && node.id in s.failed
    && Exhausted(s, node)
    && (FailurePolicy(d, node) == Stop || (FailurePolicy(d, node) == Compensate && node.id !in s.compensated))
  }

  ghost predicate FirstBlocking(d: Definition, s: State, i: nat) {
    && i < |d.nodes|
    && Blocks(d, s, d.nodes[i])
    && forall j | 0 <= j < i :: !Blocks(d, s, d.nodes[j])
  }

  /** Nothing that the node needs stands in its way. */
  ghost predicate Clear(d: Definition, s: State, need: Id) {
    need in s.succeeded || need in s.skipped || ToleratedFailure(d, s, need)
  }

  ghost predicate Eligible(d: Definition, s: State, node: Node) {
    && node.id !in s.succeeded
    && node.id !in s.skipped
    && (node.id in s.failed ==> !Exhausted(s, node))
    && node.id !in s.inflight
    && forall k | 0 <= k < |node.needs| :: Clear(d, s, node.needs[k])
  }

  /** The nodes of `busy` that are in `group`. */
  function InGroup(d: Definition, busy: set<Id>, group: Id): set<Id> {
    set i | 0 <= i < |d.nodes| && d.nodes[i].id in busy && d.nodes[i].group == group :: d.nodes[i].id
  }

  predicate HasRoom(d: Definition, busy: set<Id>, group: Id) {
    group == [] || |InGroup(d, busy, group)| < GroupLimit(d, group)
  }

  function StepFor(node: Node, s: State): Act {
    Step(node, Attempts(s, node.id) + 1, !Condition(node, s))
  }

  /** The steps proposed for the nodes from `k` on, when the nodes in `busy` already take a place. */
  ghost function StepsFrom(d: Definition, s: State, k: nat, busy: set<Id>): seq<Act>
    requires k <= |d.nodes|
    decreases |d.nodes| - k
  {
    if k == |d.nodes| || |busy| >= MaxParallel(d) then []
    else if Eligible(d, s, d.nodes[k]) && HasRoom(d, busy, d.nodes[k].group) then
      [StepFor(d.nodes[k], s)] + StepsFrom(d, s, k + 1, busy + {d.nodes[k].id})
    else StepsFrom(d, s, k + 1, busy)
  }

  ghost predicate IsFirst(id: Id, ids: set<Id>) {
    id in ids && forall o | o in ids && o != id :: LexLess(id, o)
  }

  /** What `view` makes of an accepted definition: recording comes first, then compensation, then steps. */
  ghost predicate IsView(d: Definition, s: State, r: Outcome) {
    if s.cancelled || s.paused || Finished(d, s) == |d.nodes| then r == Proposes([])
    else if Unrecorded(s) != {} then
      exists id :: IsFirst(id, Unrecorded(s)) && r == Proposes([RecordStep(id, s.terminal[id])])
    else if Uncompensated(s) != {} then
      exists id :: IsFirst(id, Uncompensated(s)) && r == Proposes([RecordCompensation(id, s.compensation[id])])
    else if exists i: nat :: FirstBlocking(d, s, i) then
      exists i: nat :: FirstBlocking(d, s, i) && r == OnBlocking(d, d.nodes[i])
    else r == Proposes(StepsFrom(d, s, 0, s.inflight))
  }

  function OnBlocking(d: Definition, node: Node): Outcome {
    if FailurePolicy(d, node) == Stop then Proposes([])
    else if node.compensation then Proposes([CompensateNode(node.id)])
    else NoCompensation(node.id)
  }

  /** `refract`: the photon an executed act emits. */
  function Refract(act: Act): Photon {
    match act
    case Pause => Paused
    case Resume => Resumed
    case Cancel => Cancelled
    case RetryNode(request) => RetryRequested(request)
    case RecordCompensation(id, success) => if success then CompensationCompleted(id) else CompensationFailed(id)
    case CompensateNode(id) => CompensationDispatched(id)
    case RecordStep(id, success) => if success then StepCompleted(id) else StepFailed(id)
    case Step(node, _, skip) =>
      if skip then StepSkipped(node.id)
      else if Dispatches(node) then StepDispatched(node.id)
      else StepCompleted(node.id)
  }

  /** A node with work of its own; a join or an empty node completes at once. */
  predicate Dispatches(node: Node) {
    (node.act || node.child) && !node.join
  }

  // ----- view, step by step -----

  /** The smallest of `ids`: where iterating a sorted container begins. */
  method First(ids: set<Id>) returns (first: Id)
    requires ids != {}
    ensures IsFirst(first, ids)
  {
    hide LexLess;
    first :| first in ids;
    var left := ids - {first};
    while left != {}
      invariant first in ids && left <= ids
      invariant forall o | o in ids && o !in left && o != first :: LexLess(first, o)
    {
      var other :| other in left;
      LexTrichotomy(first, other);
      if LexLess(other, first) {
        forall o | o in ids && o !in left - {other} && o != other ensures LexLess(other, o) {
          if o != first {
            LexTransitive(other, first, o);
          }
        }
        first := other;
      }
      left := left - {other};
    }
  }

  /** How many nodes count as finished. */
  method CountFinished(d: Definition, byId: map<Id, Node>, s: State) returns (finished: nat)
    requires Distinct(d.nodes) && byId == ById(d.nodes)
    ensures finished == Finished(d, s)
  {
    hide ToleratedFailure;
    var continued := 0;
    var left := s.failed;
    ghost var counted: set<Id> := {};
    while left != {}
      invariant left <= s.failed && counted == ContinuedFailures(d, s) - left && continued == |counted|
    {
      var id :| id in left;
      var counts := IsTolerated(d, byId, s, id);
      if counts {
        continued := continued + 1;
        counted := counted + {id};
      }
      left := left - {id};
    }
    assert counted == ContinuedFailures(d, s);
    finished := |s.succeeded| + |s.skipped| + continued;
  }

  method IsTolerated(d: Definition, byId: map<Id, Node>, s: State, id: Id) returns (tolerated: bool)
    requires Distinct(d.nodes) && byId == ById(d.nodes)
    ensures tolerated <==> ToleratedFailure(d, s, id)
  {
    tolerated := id in s.failed && id in byId && Tolerated(d, s, byId[id]);
    if id in byId {
      var i :| 0 <= i < |d.nodes| && d.nodes[i].id == id;
      assert byId[id] == d.nodes[i];
    }
  }

  method IsEligible(d: Definition, byId: map<Id, Node>, s: State, node: Node) returns (eligible: bool)
    requires Distinct(d.nodes) && byId == ById(d.nodes)
    ensures eligible <==> Eligible(d, s, node)
  {
    hide ToleratedFailure;
    if node.id in s.succeeded || node.id in s.skipped || (node.id in s.failed && Exhausted(s, node))
      || node.id in s.inflight { return false; }
    for k := 0 to |node.needs|
      invariant forall m | 0 <= m < k :: Clear(d, s, node.needs[m])
    {
      if node.needs[k] !in s.succeeded && node.needs[k] !in s.skipped {
        var tolerated := IsTolerated(d, byId, s, node.needs[k]);
        if !tolerated {
          assert !Clear(d, s, node.needs[k]);
          return false;
        }
      }
    }
    return true;
  }

  /** The number of nodes in flight for each group. */
  method CountGroups(d: Definition, byId: map<Id, Node>, s: State) returns (used: map<Id, nat>)
    requires Distinct(d.nodes) && byId == ById(d.nodes)
    ensures Counts(d, used, s.inflight)
  {
    used := map[];
    var left := s.inflight;
    NothingCounted(d);
    while left != {}
      invariant left <= s.inflight && Counts(d, used, s.inflight - left)
    {
      hide Counts;
      var id :| id in left;
      ghost var counted := s.inflight - left;
      assert s.inflight - (left - {id}) == counted + {id};
      CountOneMore(d, used, counted, id);
      if id in byId && byId[id].group != [] {
        var group := byId[id].group;
        used := used[group := Used(used, group) + 1];
      }
      left := left - {id};
    }
    assert s.inflight - left == s.inflight;
  }

  function Used(used: map<Id, nat>, group: Id): nat {
    if group in used then used[group] else 0
  }

  /** `used` counts the nodes of `busy` in each group. */
  ghost predicate Counts(d: Definition, used: map<Id, nat>, busy: set<Id>) {
    forall group: Id | group != [] :: Used(used, group) == |InGroup(d, busy, group)|
  }

  lemma NothingCounted(d: Definition)
    ensures Counts(d, map[], {})
  {
    forall group: Id ensures InGroup(d, {}, group) == {} {
    }
  }

  lemma CountOneMore(d: Definition, used: map<Id, nat>, busy: set<Id>, id: Id)
    requires Distinct(d.nodes) && Counts(d, used, busy) && id !in busy
    ensures id !in ById(d.nodes) || ById(d.nodes)[id].group == [] ==> Counts(d, used, busy + {id})
    ensures id in ById(d.nodes) ==>
      var g := ById(d.nodes)[id].group; Counts(d, used[g := Used(used, g) + 1], busy + {id})
  {
    forall group: Id | group != []
      ensures var more := InGroup(d, busy + {id}, group);
        if id in ById(d.nodes) && ById(d.nodes)[id].group == group
        then id !in InGroup(d, busy, group) && more == InGroup(d, busy, group) + {id}
        else more == InGroup(d, busy, group)
    {
      GroupOneMore(d, busy, id, group);
    }
  }

  lemma GroupOneMore(d: Definition, busy: set<Id>, id: Id, group: Id)
    requires Distinct(d.nodes)
    ensures var more := InGroup(d, busy + {id}, group);
      if id in ById(d.nodes) && ById(d.nodes)[id].group == group
      then more == InGroup(d, busy, group) + {id}
      else more == InGroup(d, busy, group)
  {
    var here := id in ById(d.nodes) && ById(d.nodes)[id].group == group;
    forall o ensures o in InGroup(d, busy + {id}, group) <==> o in InGroup(d, busy, group) || (here && o == id) {
      if here {
        var i :| 0 <= i < |d.nodes| && d.nodes[i].id == id;
        assert d.nodes[i].group == group;
      }
    }
  }

  /** The loop over the nodes, with its counters. */
  method ProposeSteps(d: Definition, byId: map<Id, Node>, s: State) returns (acts: seq<Act>)
    requires Distinct(d.nodes) && byId == ById(d.nodes)
    ensures acts == StepsFrom(d, s, 0, s.inflight)
  {
    hide Eligible, Counts, StepFor, InGroup, HasRoom, StepsFrom, MaxParallel, GroupLimit, Distinct, ById;
    var maxParallel := MaxParallel(d);
    var available := if maxParallel > |s.inflight| then maxParallel - |s.inflight| else 0;
    var used: map<Id, nat> := CountGroups(d, byId, s);
    acts := [];
    ghost var busy := s.inflight;
    ghost var all := StepsFrom(d, s, 0, s.inflight);
    var k := 0;
    while k < |d.nodes| && available != 0
      invariant 0 <= k <= |d.nodes|
      invariant acts + StepsFrom(d, s, k, busy) == all
      invariant available == if maxParallel > |busy| then maxParallel - |busy| else 0
      invariant Counts(d, used, busy)
      invariant LaterAreIdle(d, s, k, busy)
    {
      var node := d.nodes[k];
      var eligible := IsEligible(d, byId, s, node);
      RoomIsCounted(d, used, busy, node.group);
      if eligible && (node.group == [] || Used(used, node.group) < GroupLimit(d, node.group)) {
        StepTaken(d, s, k, busy, acts);
        CountOneMore(d, used, busy, node.id);
        acts := acts + [StepFor(node, s)];
        if node.group != [] {
          used := used[node.group := Used(used, node.group) + 1];
        }
        busy := busy + {node.id};
        available := available - 1;
      } else {
        StepPassed(d, s, k, busy);
      }
      k := k + 1;
    }
    NoMoreSteps(d, s, k, busy);
    assert acts + [] == acts;
  }

  lemma RoomIsCounted(d: Definition, used: map<Id, nat>, busy: set<Id>, group: Id)
    requires Counts(d, used, busy)
    ensures HasRoom(d, busy, group) <==> group == [] || Used(used, group) < GroupLimit(d, group)
  {
  }

  /** No node from `k` on was taken in by this round. */
  ghost predicate LaterAreIdle(d: Definition, s: State, k: nat, busy: set<Id>) {
    forall j | k <= j < |d.nodes| :: d.nodes[j].id in busy ==> d.nodes[j].id in s.inflight
  }

  lemma StepTaken(d: Definition, s: State, k: nat, busy: set<Id>, acts: seq<Act>)
    requires Distinct(d.nodes) && k < |d.nodes| && |busy| < MaxParallel(d)
    requires Eligible(d, s, d.nodes[k]) && HasRoom(d, busy, d.nodes[k].group) && LaterAreIdle(d, s, k, busy)
    ensures d.nodes[k].id in ById(d.nodes) && ById(d.nodes)[d.nodes[k].id] == d.nodes[k]
    ensures d.nodes[k].id !in busy && LaterAreIdle(d, s, k + 1, busy + {d.nodes[k].id})
    ensures acts + StepsFrom(d, s, k, busy)
         == acts + [StepFor(d.nodes[k], s)] + StepsFrom(d, s, k + 1, busy + {d.nodes[k].id})
  {
  }

  lemma StepPassed(d: Definition, s: State, k: nat, busy: set<Id>)
    requires k < |d.nodes| && !(Eligible(d, s, d.nodes[k]) && HasRoom(d, busy, d.nodes[k].group))
    requires |busy| < MaxParallel(d) && LaterAreIdle(d, s, k, busy)
    ensures StepsFrom(d, s, k, busy) == StepsFrom(d, s, k + 1, busy) && LaterAreIdle(d, s, k + 1, busy)
  {
  }

  lemma NoMoreSteps(d: Definition, s: State, k: nat, busy: set<Id>)
    requires k <= |d.nodes| && (k == |d.nodes| || |busy| >= MaxParallel(d))
    ensures StepsFrom(d, s, k, busy) == []
  {
  }

  /** The first node in id order that failed for good and is to be compensated or stops the workflow. */
  method FindBlocking(d: Definition, s: State) returns (at: Option<nat>)
    ensures at.Some? ==> FirstBlocking(d, s, at.value)
    ensures at.None? ==> !exists i: nat :: FirstBlocking(d, s, i)
  {
    for i := 0 to |d.nodes|
      invariant forall j | 0 <= j < i :: !Blocks(d, s, d.nodes[j])
    {
      var node := d.nodes[i];
      if node.id !in s.failed { continue; }
      if !Exhausted(s, node) { continue; }
      var policy := FailurePolicy(d, node);
      if policy == Stop || (policy == Compensate && node.id !in s.compensated) { return Some(i); }
    }
    return None;
  }

  /** `view` on a definition and a log; `plan` is the definition with its nodes in order. */
  method View(d: Definition, log: seq<Photon>) returns (r: Outcome, report: Option<Report>, ghost plan: Definition)
    ensures r.Invalid? <==> !Acceptable(d.nodes)
    ensures !r.Invalid? ==>
      && plan == d.(nodes := plan.nodes)
      && multiset(plan.nodes) == multiset(d.nodes) && SortedById(plan.nodes) && Acceptable(plan.nodes)
      && IsView(plan, Current(log), r) && report == Some(ReportOf(plan, Current(log)))
    ensures r.Invalid? ==> report == None
  {
    hide *;
    var checked := WorkflowNodes(d.nodes);
    if checked.Refused? { return Invalid(checked.error), None, d; }
    var p := d.(nodes := checked.nodes);
    var s := ReadState(log);
    var status;
    r, status := Propose(p, s);
    report, plan := Some(status), p;
  }

  /** `view` from the accepted nodes and the folded state on. */
  method Propose(d: Definition, s: State) returns (r: Outcome, report: Report)
    requires Acceptable(d.nodes)
    ensures IsView(d, s, r) && !r.Invalid?
    ensures report == ReportOf(d, s)
  {
    hide Acceptable, Finished, Unrecorded, Uncompensated, FirstBlocking, StepsFrom, Distinct;
    assert Distinct(d.nodes) by { AcceptableIsDistinct(d.nodes); }
    var byId := ById(d.nodes);
    var finished := CountFinished(d, byId, s);
    var progress :=
      if s.cancelled then WasCancelled
      else if s.paused then IsPaused
      else if finished == |d.nodes| then IsCompleted
      else if s.failed != {} then HasFailed
      else IsActive;
    report := Report(progress, finished, |s.inflight|, |d.nodes|);
    if s.cancelled || s.paused || finished == |d.nodes| { return Proposes([]), report; }
    var unrecorded := Unrecorded(s);
    if unrecorded != {} {
      var id := First(unrecorded);
      UnrecordedHasEnded(s, id);
      return Proposes([RecordStep(id, s.terminal[id])]), report;
    }
    var uncompensated := Uncompensated(s);
    if uncompensated != {} {
      var id := First(uncompensated);
      UncompensatedHasEnded(s, id);
      return Proposes([RecordCompensation(id, s.compensation[id])]), report;
    }
    var blocking := FindBlocking(d, s);
    if blocking.Some? {
      FirstBlockingIsANode(d, s, blocking.value);
      return OnBlocking(d, d.nodes[blocking.value]), report;
    }
    var acts := ProposeSteps(d, byId, s);
    return Proposes(acts), report;
  }

  lemma AcceptableIsDistinct(nodes: seq<Node>)
    requires Acceptable(nodes)
    ensures Distinct(nodes)
  {
    WellFormedIsDistinct(nodes);
  }

  lemma UnrecordedHasEnded(s: State, id: Id)
    requires id in Unrecorded(s)
    ensures id in s.terminal
  {
  }

  lemma UncompensatedHasEnded(s: State, id: Id)
    requires id in Uncompensated(s)
    ensures id in s.compensation
  {
  }

  lemma FirstBlockingIsANode(d: Definition, s: State, i: nat)
    requires FirstBlocking(d, s, i)
    ensures i < |d.nodes|
  {
  }
}
