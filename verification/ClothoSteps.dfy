/** What the steps of one view have in common: they are due, they fit the limits together, and none is missed. */
module ClothoSteps {
  import opened Basics
  import opened Bytes
  import opened ClothoGraph
  import opened ClothoLog
  import opened ClothoView

  /** When an act may be proposed: the part of the view that its execution relies on. */
  ghost predicate Due(d: Definition, s: State, act: Act) {
    && !s.cancelled
    && !s.paused
    && match act
       case Step(_, _, _) => exists i: nat :: StepDue(d, s, act, i)
       case RecordStep(id, success) => id in Unrecorded(s) && success == s.terminal[id]
       case RecordCompensation(id, success) => id in Uncompensated(s) && success == s.compensation[id]
       case CompensateNode(id) =>
         exists i: nat :: FirstBlocking(d, s, i) && d.nodes[i].id == id && d.nodes[i].compensation
       case _ => false
  }

  ghost predicate StepDue(d: Definition, s: State, act: Act, i: nat) {
    && i < |d.nodes|
    && act == StepFor(d.nodes[i], s)
    && Eligible(d, s, d.nodes[i])
    && |s.inflight| < MaxParallel(d)
    && HasRoom(d, s.inflight, d.nodes[i].group)
  }

  lemma {:induction false} StepsAreDue(d: Definition, s: State, k: nat, busy: set<Id>, act: Act)
    requires k <= |d.nodes| && act in StepsFrom(d, s, k, busy) && s.inflight <= busy
    ensures exists i: nat :: StepDue(d, s, act, i)
    decreases |d.nodes| - k
  {
    hide Eligible, StepFor, MaxParallel, GroupLimit;
    if Eligible(d, s, d.nodes[k]) && HasRoom(d, busy, d.nodes[k].group) {
      if act == StepFor(d.nodes[k], s) {
        SubsetSize(s.inflight, busy);
        SubsetSize(InGroup(d, s.inflight, d.nodes[k].group), InGroup(d, busy, d.nodes[k].group));
        assert StepDue(d, s, act, k);
      } else {
        StepsAreDue(d, s, k + 1, busy + {d.nodes[k].id}, act);
      }
    } else {
      StepsAreDue(d, s, k + 1, busy, act);
    }
  }

  /** Every act of a view is due. */
  lemma ProposedIsDue(d: Definition, s: State, acts: seq<Act>, act: Act)
    requires IsView(d, s, Proposes(acts)) && act in acts
    ensures Due(d, s, act)
  {
    hide Finished, StepsFrom, StepDue, Blocks, LexLess;
    if Unrecorded(s) != {} {
      var id :| IsFirst(id, Unrecorded(s)) && acts == [RecordStep(id, s.terminal[id])];
    } else if Uncompensated(s) != {} {
      var id :| IsFirst(id, Uncompensated(s)) && acts == [RecordCompensation(id, s.compensation[id])];
    } else if exists i: nat :: FirstBlocking(d, s, i) {
      var i: nat :| FirstBlocking(d, s, i) && Proposes(acts) == OnBlocking(d, d.nodes[i]);
    } else {
      StepsAreDue(d, s, 0, s.inflight, act);
      var i: nat :| StepDue(d, s, act, i);
      StepDueIsStep(d, s, act, i);
    }
  }

  lemma StepDueIsStep(d: Definition, s: State, act: Act, i: nat)
    requires StepDue(d, s, act, i)
    ensures act.Step?
  {
  }

  // ----- one view's steps together -----

  function Targets(acts: seq<Act>): set<Id> {
    set i | 0 <= i < |acts| && acts[i].Step? :: acts[i].node.id
  }

  ghost predicate Within(d: Definition, busy: set<Id>) {
    && |busy| <= MaxParallel(d)
    && forall group: Id | group != [] :: |InGroup(d, busy, group)| <= GroupLimit(d, group)
  }

  /** Whatever part of one view's steps is executed, the limits hold: they are shared out in the view. */
  lemma {:induction false} StepsFitTogether(d: Definition, s: State, k: nat, busy: set<Id>)
    requires Distinct(d.nodes) && k <= |d.nodes| && Within(d, busy)
    ensures Within(d, busy + Targets(StepsFrom(d, s, k, busy)))
    decreases |d.nodes| - k
  {
    hide Eligible, Within, Distinct, StepFor, MaxParallel, HasRoom;
    var acts := StepsFrom(d, s, k, busy);
    if acts == [] {
      assert busy + Targets(acts) == busy;
    } else if Eligible(d, s, d.nodes[k]) && HasRoom(d, busy, d.nodes[k].group) {
      var id := d.nodes[k].id;
      var rest := StepsFrom(d, s, k + 1, busy + {id});
      OneMoreFits(d, busy, k);
      StepsFitTogether(d, s, k + 1, busy + {id});
      TargetsOfStep(d.nodes[k], s, rest);
      assert busy + Targets(acts) == busy + {id} + Targets(rest);
    } else {
      StepsFitTogether(d, s, k + 1, busy);
    }
  }

  lemma TargetsOfStep(node: Node, s: State, rest: seq<Act>)
    ensures Targets([StepFor(node, s)] + rest) == {node.id} + Targets(rest)
  {
    var all := [StepFor(node, s)] + rest;
    assert all[0] == StepFor(node, s);
    assert forall i | 0 <= i < |rest| :: all[i + 1] == rest[i];
    assert forall i | 1 <= i < |all| :: all[i] == rest[i - 1];
  }

  lemma OneMoreFits(d: Definition, busy: set<Id>, k: nat)
    requires Distinct(d.nodes) && Within(d, busy) && k < |d.nodes|
    requires |busy| < MaxParallel(d) && HasRoom(d, busy, d.nodes[k].group)
    ensures Within(d, busy + {d.nodes[k].id})
  {
    hide MaxParallel, GroupLimit, InGroup;
    var node := d.nodes[k];
    assert ById(d.nodes)[node.id] == node;
    forall group: Id | group != []
      ensures |InGroup(d, busy + {node.id}, group)| <= GroupLimit(d, group)
    {
      GroupOneMore(d, busy, node.id, group);
    }
  }

  /** A node that may start, with room, is not passed over for nothing. */
  lemma {:induction false} SomeStepIsProposed(d: Definition, s: State, k: nat, busy: set<Id>, j: nat)
    requires k <= j < |d.nodes| && |busy| < MaxParallel(d)
    requires Eligible(d, s, d.nodes[j]) && HasRoom(d, busy, d.nodes[j].group)
    ensures StepsFrom(d, s, k, busy) != []
    decreases |d.nodes| - k
  {
    hide Eligible, HasRoom, MaxParallel;
    if !(Eligible(d, s, d.nodes[k]) && HasRoom(d, busy, d.nodes[k].group)) {
      SomeStepIsProposed(d, s, k + 1, busy, j);
    }
  }
}
