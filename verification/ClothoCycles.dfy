/** Which workflow definitions are accepted, in terms of the fields of their nodes and of the paths between them. */
module ClothoCycles {
  import opened Basics
  import opened Bytes
  import opened ClothoGraph

  // ----- a graph without a rank has a cycle -----

  /** A path from a node back to itself along what the nodes need. */
  ghost predicate IsCycle(nodes: seq<Node>, path: seq<Id>) {
    Chain(nodes, path) && path[0] == path[|path| - 1]
  }

  /** Either a rank exists, or some nodes all wait for one another. */
  lemma {:induction false} RankOrStuck(nodes: seq<Node>, resolved: set<Id>, rank: map<Id, nat>)
      returns (left: set<Id>)
    requires Distinct(nodes) && resolved <= Ids(nodes) && OrdersSoFar(nodes, resolved, rank)
    ensures HasRank(nodes) || (left != {} && left <= Ids(nodes))
    ensures HasRank(nodes) || forall i | 0 <= i < |nodes| && nodes[i].id in left :: Waits(nodes[i], Ids(nodes) - left)
    decreases |Ids(nodes) - resolved|
  {
    hide OrdersSoFar, Distinct, HasRank;
    left := Ids(nodes) - resolved;
    assert Ids(nodes) - left == resolved;
    if left == {} {
      assert resolved == Ids(nodes);
      AllOrdered(nodes, rank);
    } else if i: nat :| i < |nodes| && nodes[i].id !in resolved && !Waits(nodes[i], resolved) {
      OrderOneMore(nodes, resolved, rank, i);
      SubsetSize(Ids(nodes) - (resolved + {nodes[i].id}), left);
      left := RankOrStuck(nodes, resolved + {nodes[i].id}, rank[nodes[i].id := |resolved|]);
    }
  }

  lemma NextNeed(nodes: seq<Node>, left: set<Id>, id: Id) returns (next: Id)
    requires KnownNeeds(nodes) && left <= Ids(nodes) && id in left
    requires forall i | 0 <= i < |nodes| && nodes[i].id in left :: Waits(nodes[i], Ids(nodes) - left)
    ensures next in left && Needs(nodes, id, next)
  {
    var i :| 0 <= i < |nodes| && nodes[i].id == id;
    var k :| 0 <= k < |nodes[i].needs| && nodes[i].needs[k] !in Ids(nodes) - left;
    next := nodes[i].needs[k];
    assert next in Ids(nodes);
  }

  /** Among nodes that wait for one another, needs can be followed for ever. */
  lemma {:induction false} Walk(nodes: seq<Node>, left: set<Id>, id: Id, n: nat) returns (walk: seq<Id>)
    requires KnownNeeds(nodes) && left <= Ids(nodes) && id in left
    requires forall i | 0 <= i < |nodes| && nodes[i].id in left :: Waits(nodes[i], Ids(nodes) - left)
    ensures |walk| == n + 1 && walk[0] == id && forall i | 0 <= i < |walk| :: walk[i] in left
    ensures forall i | 0 <= i < n :: Needs(nodes, walk[i], walk[i + 1])
    decreases n
  {
    hide Needs, KnownNeeds, Waits, Ids;
    walk := [id];
    if n > 0 {
      var next := NextNeed(nodes, left, id);
      var rest := Walk(nodes, left, next, n - 1);
      walk := [id] + rest;
      forall j | 0 <= j < n ensures Needs(nodes, walk[j], walk[j + 1]) {
        if j > 0 { assert Needs(nodes, rest[j - 1], rest[j - 1 + 1]); }
      }
    }
  }

  /** A walk longer than the number of nodes comes back to one. */
  lemma {:induction false} ComesBack(walk: seq<Id>, left: set<Id>) returns (i: nat, j: nat)
    requires |walk| > |left| && forall k | 0 <= k < |walk| :: walk[k] in left
    ensures i < j < |walk| && walk[i] == walk[j]
  {
    if k: nat :| 0 < k < |walk| && walk[k] == walk[0] {
      i, j := 0, k;
    } else {
      var rest := walk[1..];
      i, j := ComesBack(rest, left - {walk[0]});
      i, j := i + 1, j + 1;
    }
  }

  /** The stretch of the walk from `i` to `j`, from what is needed to what needs it. */
  lemma Backwards(nodes: seq<Node>, walk: seq<Id>, i: nat, j: nat) returns (path: seq<Id>)
    requires i < j < |walk| && walk[i] == walk[j]
    requires forall k | 0 <= k < |walk| - 1 :: Needs(nodes, walk[k], walk[k + 1])
    ensures IsCycle(nodes, path)
  {
    hide Needs;
    path := seq(j - i + 1, k requires 0 <= k < j - i + 1 => walk[j - k]);
    forall k | 0 <= k < |path| - 1 ensures Needs(nodes, path[k + 1], path[k]) {
      assert Needs(nodes, walk[j - k - 1], walk[j - k - 1 + 1]);
    }
  }

  /** Needs that name nodes can be put into an order exactly when no path leads from a node back to itself. */
  lemma RankIffAcyclic(nodes: seq<Node>)
    requires Distinct(nodes) && KnownNeeds(nodes)
    ensures HasRank(nodes) <==> !exists path :: IsCycle(nodes, path)
  {
    hide Distinct, KnownNeeds, Chain;
    if HasRank(nodes) {
      var rank :| Ranks(nodes, rank);
      forall path ensures !IsCycle(nodes, path) {
        if IsCycle(nodes, path) { NoCycles(nodes, rank, path); }
      }
    } else {
      NothingOrdered(nodes);
      var left := RankOrStuck(nodes, {}, map[]);
      var id :| id in left;
      var walk := Walk(nodes, left, id, |left|);
      var i, j := ComesBack(walk, left);
      var path := Backwards(nodes, walk, i, j);
    }
  }

  // ----- acceptance -----

  /** The fields of a node by themselves. */
  predicate FieldsFit(node: Node) {
    && node.id != []
    && (node.onFailure == None || node.onFailure.value in {Retry, Continue, Stop, Compensate})
    && (node.maxAttempts == None || 1 <= node.maxAttempts.value <= 100)
  }

  /**
   * A definition is accepted exactly when it has nodes, whose fields fit and whose ids differ, which need other
   * nodes of the definition and nothing else, and on no path themselves.
   */
  lemma AcceptedByFields(nodes: seq<Node>)
    ensures Acceptable(nodes) <==>
      && nodes != []
      && (forall i | 0 <= i < |nodes| :: FieldsFit(nodes[i]))
      && (forall i, j | 0 <= i < j < |nodes| :: nodes[i].id != nodes[j].id)
      && (forall i, k | 0 <= i < |nodes| && 0 <= k < |nodes[i].needs| ::
            nodes[i].needs[k] != nodes[i].id && exists j | 0 <= j < |nodes| :: nodes[j].id == nodes[i].needs[k])
      && (forall path :: !IsCycle(nodes, path))
  {
    hide HasRank, IsCycle, KnownNeeds;
    WellFormedByFields(nodes);
    KnownByFields(nodes);
    if Distinct(nodes) && KnownNeeds(nodes) {
      RankIffAcyclic(nodes);
    }
  }

  lemma WellFormedByFields(nodes: seq<Node>)
    ensures WellFormed(nodes) <==>
      && nodes != []
      && (forall i | 0 <= i < |nodes| :: FieldsFit(nodes[i]))
      && (forall i, j | 0 <= i < j < |nodes| :: nodes[i].id != nodes[j].id)
  {
    forall i | 0 <= i < |nodes| ensures FieldsFit(nodes[i]) <==> !Flawed(nodes[i]) {
      FitOrFlawed(nodes[i]);
    }
    hide FieldsFit, Flawed;
    if WellFormed(nodes) {
      WellFormedIsDistinct(nodes);
      forall i | 0 <= i < |nodes| ensures FieldsFit(nodes[i]) {
        assert !FaultAt(nodes, i);
      }
    }
  }

  lemma FitOrFlawed(node: Node)
    ensures FieldsFit(node) <==> !Flawed(node)
  {
    if node.onFailure.Some? {
      match node.onFailure.value {
        case Unknown =>
        case _ =>
      }
    }
  }

  lemma KnownByFields(nodes: seq<Node>)
    ensures KnownNeeds(nodes) <==>
      forall i, k | 0 <= i < |nodes| && 0 <= k < |nodes[i].needs| ::
        nodes[i].needs[k] != nodes[i].id && exists j | 0 <= j < |nodes| :: nodes[j].id == nodes[i].needs[k]
  {
  }

  /** The nodes of an accepted definition are taken in the byte order of their ids. */
  lemma SortedByBytes(nodes: seq<Node>)
    ensures SortedById(nodes) <==> forall i, j | 0 <= i < j < |nodes| :: BytesBefore(nodes[i].id, nodes[j].id)
  {
    hide LexLess, BytesBefore;
    forall i, j | 0 <= i < j < |nodes|
      ensures LexLess(nodes[i].id, nodes[j].id) <==> BytesBefore(nodes[i].id, nodes[j].id)
    {
      LexDecides(nodes[i].id, nodes[j].id);
    }
  }
}
