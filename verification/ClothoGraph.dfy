/** Workflow definitions: which graphs of nodes are accepted, and the order their execution follows. */
module ClothoGraph {
  import opened Basics
  import opened Bytes

  type Id = bytes

  /** What a node's failure means; `Unknown` is any other text. */
  datatype Policy = Retry | Continue | Stop | Compensate | Unknown

  datatype Status = StatusSucceeded | StatusFailed | StatusSkipped | StatusOther

  /** A node's `when`: absent, a test of another step, or a test that no step can change. */
  datatype When = Always | StepIs(step: Id, status: Status) | Fixed(holds: bool)

  /** A node; an empty `group` is none, `compensation` says whether a compensating act is given. */
  datatype Node = Node(
    id: Id, needs: seq<Id>, act: bool, child: bool, join: bool, onFailure: Option<Policy>,
    maxAttempts: Option<int>, group: Id, when: When, compensation: bool)

  datatype Definition = Definition(
    nodes: seq<Node>, failure: Option<Policy>, maxParallel: Option<int>, groups: map<Id, int>)

  datatype Error = NoNodes | Malformed(at: nat) | BadDependency | Cycle

  datatype Verdict = Accepted(nodes: seq<Node>) | Refused(error: Error)

  // ----- what an acceptable graph is -----

  function Ids(nodes: seq<Node>): set<Id> {
    set i | 0 <= i < |nodes| :: nodes[i].id
  }

  ghost predicate Distinct(nodes: seq<Node>) {
    forall i, j | 0 <= i < j < |nodes| :: nodes[i].id != nodes[j].id
  }

  predicate Flawed(node: Node) {
    || node.id == []
    || node.onFailure == Some(Unknown)
    || (node.maxAttempts.Some? && !(1 <= node.maxAttempts.value <= 100))
  }

  /** The node at `i` is flawed in itself or repeats an earlier id. */
  ghost predicate FaultAt(nodes: seq<Node>, i: nat)
    requires i < |nodes|
  {
    Flawed(nodes[i]) || exists j | 0 <= j < i :: nodes[j].id == nodes[i].id
  }

  ghost predicate WellFormed(nodes: seq<Node>) {
    nodes != [] && forall i | 0 <= i < |nodes| :: !FaultAt(nodes, i)
  }

  ghost predicate KnownNeeds(nodes: seq<Node>) {
    forall i, k | 0 <= i < |nodes| && 0 <= k < |nodes[i].needs| ::
      nodes[i].needs[k] in Ids(nodes) && nodes[i].needs[k] != nodes[i].id
  }

  /** `rank` puts every need of a node before the node. */
  ghost predicate Ranks(nodes: seq<Node>, rank: map<Id, nat>) {
    && Ids(nodes) <= rank.Keys
    && forall i, k | 0 <= i < |nodes| && 0 <= k < |nodes[i].needs| ::
         nodes[i].needs[k] in rank && rank[nodes[i].needs[k]] < rank[nodes[i].id]
  }

  ghost predicate HasRank(nodes: seq<Node>) {
    exists rank :: Ranks(nodes, rank)
  }

  ghost predicate Acceptable(nodes: seq<Node>) {
    WellFormed(nodes) && KnownNeeds(nodes) && HasRank(nodes)
  }

  ghost predicate SortedById(nodes: seq<Node>) {
    forall i, j | 0 <= i < j < |nodes| :: LexLess(nodes[i].id, nodes[j].id)
  }

  // ----- workflow_nodes -----

  /** The nodes in id order, or why the definition is refused. */
  method WorkflowNodes(nodes: seq<Node>) returns (r: Verdict)
    ensures r.Accepted? <==> Acceptable(nodes)
    ensures r.Accepted? ==> multiset(r.nodes) == multiset(nodes) && SortedById(r.nodes) && Acceptable(r.nodes)
    ensures r == Refused(NoNodes) <==> nodes == []
    ensures r.Refused? && r.error.Malformed? ==>
      r.error.at < |nodes| && FaultAt(nodes, r.error.at) && forall i | 0 <= i < r.error.at :: !FaultAt(nodes, i)
    ensures r == Refused(BadDependency) <==> WellFormed(nodes) && !KnownNeeds(nodes)
    ensures r == Refused(Cycle) <==> WellFormed(nodes) && KnownNeeds(nodes) && !HasRank(nodes)
  {
    if nodes == [] { return Refused(NoNodes); }
    var ids: set<Id> := {};
    for i := 0 to |nodes|
      invariant ids == Ids(nodes[..i])
      invariant forall j | 0 <= j < i :: !FaultAt(nodes, j)
    {
      if nodes[i].id in ids || Flawed(nodes[i]) {
        if nodes[i].id in ids {
          var j :| 0 <= j < |nodes[..i]| && nodes[..i][j].id == nodes[i].id;
          assert nodes[j].id == nodes[i].id;
        }
        assert FaultAt(nodes, i);
        return Refused(Malformed(i));
      }
      forall j | 0 <= j < i ensures nodes[j].id != nodes[i].id {
        assert nodes[..i][j] == nodes[j];
      }
      assert nodes[..i + 1] == nodes[..i] + [nodes[i]];
      IdsOfOneMore(nodes[..i], nodes[i]);
      ids := ids + {nodes[i].id};
    }
    assert nodes[..|nodes|] == nodes;
    for i := 0 to |nodes|
      invariant forall j, k | 0 <= j < i && 0 <= k < |nodes[j].needs| ::
          nodes[j].needs[k] in ids && nodes[j].needs[k] != nodes[j].id
    {
      for k := 0 to |nodes[i].needs|
        invariant forall m | 0 <= m < k :: nodes[i].needs[m] in ids && nodes[i].needs[m] != nodes[i].id
      {
        if nodes[i].needs[k] !in ids || nodes[i].needs[k] == nodes[i].id { return Refused(BadDependency); }
      }
    }
    WellFormedIsDistinct(nodes);
    var ok := Resolves(nodes);
    if !ok { return Refused(Cycle); }
    var sorted := SortNodes(nodes);
    OrderIsImmaterial(nodes, sorted);
    return Accepted(sorted);
  }

  /** The resolution loop: it ends, and resolves every node exactly when a rank exists. */
  method Resolves(nodes: seq<Node>) returns (ok: bool)
    requires Distinct(nodes) && KnownNeeds(nodes)
    ensures ok <==> HasRank(nodes)
  {
    hide Distinct, KnownNeeds, Ranks, OrdersSoFar, Waits;
    DistinctIdsCount(nodes);
    var resolved: set<Id> := {};
    ghost var rank: map<Id, nat> := map[];
    NothingOrdered(nodes);
    while |resolved| != |nodes|
      invariant resolved <= Ids(nodes) && OrdersSoFar(nodes, resolved, rank)
      decreases |Ids(nodes) - resolved|
    {
      ghost var before := resolved;
      var progress: bool;
      progress, resolved, rank := ResolutionPass(nodes, resolved, rank);
      if !progress {
        SubsetSize(resolved, Ids(nodes));
        NoRankWhenAllWait(nodes, resolved);
        return false;
      }
      SubsetSize(Ids(nodes) - resolved, Ids(nodes) - before);
    }
    SubsetSize(resolved, Ids(nodes));
    AllOrdered(nodes, rank);
    return true;
  }

  /** One pass over the nodes, resolving each whose needs are resolved by then. */
  method ResolutionPass(nodes: seq<Node>, resolved: set<Id>, ghost rank: map<Id, nat>)
      returns (progress: bool, after: set<Id>, ghost longer: map<Id, nat>)
    requires Distinct(nodes) && resolved <= Ids(nodes) && OrdersSoFar(nodes, resolved, rank)
    ensures resolved <= after <= Ids(nodes) && OrdersSoFar(nodes, after, longer)
    ensures progress <==> after != resolved
    ensures !progress ==> forall j | 0 <= j < |nodes| :: nodes[j].id in resolved || Waits(nodes[j], resolved)
  {
    hide OrdersSoFar, Distinct;
    progress, after, longer := false, resolved, rank;
    for i := 0 to |nodes|
      invariant resolved <= after <= Ids(nodes) && OrdersSoFar(nodes, after, longer)
      invariant progress <==> after != resolved
      invariant !progress ==> forall j | 0 <= j < i :: nodes[j].id in resolved || Waits(nodes[j], resolved)
    {
      if nodes[i].id !in after {
        if forall k | 0 <= k < |nodes[i].needs| :: nodes[i].needs[k] in after {
          OrderOneMore(nodes, after, longer, i);
          longer := longer[nodes[i].id := |after|];
          after := after + {nodes[i].id};
          progress := true;
        }
      }
    }
  }

  lemma NothingOrdered(nodes: seq<Node>)
    ensures OrdersSoFar(nodes, {}, map[])
  {
  }

  lemma AllOrdered(nodes: seq<Node>, rank: map<Id, nat>)
    requires OrdersSoFar(nodes, Ids(nodes), rank)
    ensures HasRank(nodes)
  {
    assert Ranks(nodes, rank);
  }

  lemma NoRankWhenAllWait(nodes: seq<Node>, resolved: set<Id>)
    requires KnownNeeds(nodes) && resolved < Ids(nodes)
    requires forall j | 0 <= j < |nodes| :: nodes[j].id in resolved || Waits(nodes[j], resolved)
    ensures !HasRank(nodes)
  {
    if HasRank(nodes) {
      var rank :| Ranks(nodes, rank);
      var id :| id in Ids(nodes) && id !in resolved;
      NoRankWhenStuck(nodes, resolved, rank, id);
    }
  }

  /** Some need of the node is not resolved. */
  ghost predicate Waits(node: Node, resolved: set<Id>) {
    exists k | 0 <= k < |node.needs| :: node.needs[k] !in resolved
  }

  /** `rank` orders the resolved nodes, each after its needs. */
  ghost predicate OrdersSoFar(nodes: seq<Node>, resolved: set<Id>, rank: map<Id, nat>) {
    && rank.Keys == resolved
    && (forall id | id in rank :: rank[id] < |resolved|)
    && forall i, k | 0 <= i < |nodes| && nodes[i].id in resolved && 0 <= k < |nodes[i].needs| ::
         nodes[i].needs[k] in rank && rank[nodes[i].needs[k]] < rank[nodes[i].id]
  }

  lemma OrderOneMore(nodes: seq<Node>, resolved: set<Id>, rank: map<Id, nat>, i: nat)
    requires Distinct(nodes) && OrdersSoFar(nodes, resolved, rank) && i < |nodes|
    requires nodes[i].id !in resolved && forall k | 0 <= k < |nodes[i].needs| :: nodes[i].needs[k] in resolved
    ensures OrdersSoFar(nodes, resolved + {nodes[i].id}, rank[nodes[i].id := |resolved|])
  {
    var more, longer := resolved + {nodes[i].id}, rank[nodes[i].id := |resolved|];
    forall j, k | 0 <= j < |nodes| && nodes[j].id in more && 0 <= k < |nodes[j].needs|
      ensures nodes[j].needs[k] in longer && longer[nodes[j].needs[k]] < longer[nodes[j].id]
    {
      if nodes[j].id == nodes[i].id {
        assert j == i;
      }
    }
  }

  /** When every unresolved node waits, following needs from one never ends, so no rank exists. */
  lemma {:induction false} NoRankWhenStuck(nodes: seq<Node>, resolved: set<Id>, rank: map<Id, nat>, id: Id)
    requires KnownNeeds(nodes) && Ranks(nodes, rank)
    requires forall j | 0 <= j < |nodes| :: nodes[j].id in resolved || Waits(nodes[j], resolved)
    requires id in Ids(nodes) && id !in resolved
    ensures false
    decreases rank[id]
  {
    var i :| 0 <= i < |nodes| && nodes[i].id == id;
    var k :| 0 <= k < |nodes[i].needs| && nodes[i].needs[k] !in resolved;
    NoRankWhenStuck(nodes, resolved, rank, nodes[i].needs[k]);
  }

  lemma WellFormedIsDistinct(nodes: seq<Node>)
    requires WellFormed(nodes)
    ensures Distinct(nodes)
  {
    forall i, j | 0 <= i < j < |nodes| ensures nodes[i].id != nodes[j].id {
      assert !FaultAt(nodes, j);
    }
  }

  lemma IdsOfOneMore(nodes: seq<Node>, node: Node)
    ensures Ids(nodes + [node]) == Ids(nodes) + {node.id}
  {
    var all := nodes + [node];
    assert forall i | 0 <= i < |nodes| :: all[i] == nodes[i];
    assert all[|nodes|] == node;
    forall id | id in Ids(nodes) + {node.id} ensures id in Ids(all) {
      if id in Ids(nodes) {
        var i :| 0 <= i < |nodes| && nodes[i].id == id;
        assert all[i].id == id;
      }
    }
  }

  lemma {:induction false} DistinctIdsCount(nodes: seq<Node>)
    requires Distinct(nodes)
    ensures |Ids(nodes)| == |nodes|
  {
    if nodes != [] {
      var last := |nodes| - 1;
      DistinctIdsCount(nodes[..last]);
      assert nodes == nodes[..last] + [nodes[last]];
      IdsOfOneMore(nodes[..last], nodes[last]);
    }
  }

  // ----- sorting by id -----

  /** `std::ranges::sort` by id. */
  method SortNodes(nodes: seq<Node>) returns (sorted: seq<Node>)
    requires Distinct(nodes)
    ensures multiset(sorted) == multiset(nodes) && SortedById(sorted)
  {
    hide LexLess;
    sorted := [];
    for i := 0 to |nodes|
      invariant multiset(sorted) == multiset(nodes[..i]) && SortedById(sorted)
    {
      var at := 0;
      while at < |sorted| && LexLess(sorted[at].id, nodes[i].id)
        invariant 0 <= at <= |sorted|
        invariant forall j | 0 <= j < at :: LexLess(sorted[j].id, nodes[i].id)
      {
        at := at + 1;
      }
      NotYetSorted(nodes, i, sorted);
      InsertNode(sorted, at, nodes[i]);
      assert sorted == sorted[..at] + sorted[at..];
      assert nodes[..i + 1] == nodes[..i] + [nodes[i]];
      sorted := sorted[..at] + [nodes[i]] + sorted[at..];
    }
    assert nodes[..|nodes|] == nodes;
  }

  lemma NotYetSorted(nodes: seq<Node>, i: nat, sorted: seq<Node>)
    requires Distinct(nodes) && i < |nodes| && multiset(sorted) == multiset(nodes[..i])
    ensures forall j | 0 <= j < |sorted| :: sorted[j].id != nodes[i].id
  {
    forall j | 0 <= j < |sorted| ensures sorted[j].id != nodes[i].id {
      assert sorted[j] in multiset(nodes[..i]);
      var k :| 0 <= k < i && nodes[k] == sorted[j];
    }
  }

  lemma InsertNode(sorted: seq<Node>, at: nat, node: Node)
    requires SortedById(sorted) && at <= |sorted|
    requires forall j | 0 <= j < at :: LexLess(sorted[j].id, node.id)
    requires at < |sorted| ==> !LexLess(sorted[at].id, node.id)
    requires forall j | 0 <= j < |sorted| :: sorted[j].id != node.id
    ensures SortedById(sorted[..at] + [node] + sorted[at..])
  {
    hide LexLess;
    var all := sorted[..at] + [node] + sorted[at..];
    forall j | at <= j < |sorted| ensures LexLess(node.id, sorted[j].id) {
      LexTrichotomy(sorted[at].id, node.id);
      if j != at {
        LexTransitive(node.id, sorted[at].id, sorted[j].id);
      }
    }
    assert forall j | 0 <= j < at :: all[j] == sorted[j];
    assert all[at] == node;
    assert forall j | at < j < |all| :: all[j] == sorted[j - 1];
  }

  /** Acceptance does not depend on the order of the nodes. */
  lemma OrderIsImmaterial(nodes: seq<Node>, sorted: seq<Node>)
    requires Acceptable(nodes) && multiset(sorted) == multiset(nodes) && SortedById(sorted)
    ensures Acceptable(sorted) && Ids(sorted) == Ids(nodes)
  {
    hide LexLess;
    SameElements(nodes, sorted);
    assert sorted != [] by { assert nodes[0] in multiset(sorted); }
    forall i | 0 <= i < |sorted| ensures !FaultAt(sorted, i) {
      assert sorted[i] in nodes;
      var k :| 0 <= k < |nodes| && nodes[k] == sorted[i];
      assert !FaultAt(nodes, k);
      forall j | 0 <= j < i ensures sorted[j].id != sorted[i].id {
        LexTrichotomy(sorted[j].id, sorted[i].id);
      }
    }
    var rank :| Ranks(nodes, rank);
    forall i, k | 0 <= i < |sorted| && 0 <= k < |sorted[i].needs|
      ensures sorted[i].needs[k] in Ids(sorted) && sorted[i].needs[k] != sorted[i].id
      ensures sorted[i].needs[k] in rank && rank[sorted[i].needs[k]] < rank[sorted[i].id]
    {
      assert sorted[i] in nodes;
      var j :| 0 <= j < |nodes| && nodes[j] == sorted[i];
      assert nodes[j].needs[k] in Ids(nodes);
    }
    assert Ranks(sorted, rank);
  }

  lemma SameElements(nodes: seq<Node>, sorted: seq<Node>)
    requires multiset(sorted) == multiset(nodes)
    ensures forall n :: n in sorted <==> n in nodes
    ensures Ids(sorted) == Ids(nodes)
  {
    forall n ensures n in sorted <==> n in nodes {
      assert n in sorted <==> n in multiset(sorted);
      assert n in nodes <==> n in multiset(nodes);
    }
    forall i | 0 <= i < |sorted| ensures sorted[i].id in Ids(nodes) {
      assert sorted[i] in nodes;
    }
    forall i | 0 <= i < |nodes| ensures nodes[i].id in Ids(sorted) {
      assert nodes[i] in sorted;
    }
  }

  // ----- the order of the nodes -----

  /** `path` leads from an ancestor, its first id, to a node, its last: each id is needed by the next. */
  ghost predicate Chain(nodes: seq<Node>, path: seq<Id>) {
    |path| >= 2 && forall k | 0 <= k < |path| - 1 :: Needs(nodes, path[k + 1], path[k])
  }

  ghost predicate Needs(nodes: seq<Node>, id: Id, need: Id) {
    exists i | 0 <= i < |nodes| :: nodes[i].id == id && need in nodes[i].needs
  }

  /** In a graph with a rank nothing is its own ancestor. */
  lemma {:induction false} NoCycles(nodes: seq<Node>, rank: map<Id, nat>, path: seq<Id>)
    requires Ranks(nodes, rank) && Chain(nodes, path)
    ensures path[0] in rank && path[|path| - 1] in rank
    ensures rank[path[0]] < rank[path[|path| - 1]]
    ensures path[0] != path[|path| - 1]
    decreases |path|
  {
    var last := |path| - 1;
    assert Needs(nodes, path[last - 1 + 1], path[last - 1]);
    var i :| 0 <= i < |nodes| && nodes[i].id == path[last] && path[last - 1] in nodes[i].needs;
    var k :| 0 <= k < |nodes[i].needs| && nodes[i].needs[k] == path[last - 1];
    assert rank[nodes[i].needs[k]] < rank[nodes[i].id];
    if |path| > 2 {
      assert forall m | 0 <= m < |path[..last]| - 1 :: Needs(nodes, path[..last][m + 1], path[..last][m]) by {
        forall m | 0 <= m < |path[..last]| - 1 ensures Needs(nodes, path[..last][m + 1], path[..last][m]) {
          assert Needs(nodes, path[m + 1], path[m]);
        }
      }
      NoCycles(nodes, rank, path[..last]);
    }
  }
}
