/** The stable order in terms of the fields of a cell: what is kept, what is listed, and in which order. */
module CellOrder {
  import opened Bytes
  import CborValue
  import opened FieldCells
  import opened MergeLaws
  import opened MergeOrder
  import opened MergeRuns
  import opened IncidentWave
  import PortInput

  // ----- merging -----

  /**
   * Under `top_k` with a limit, every cell held comes before every cell that arrived and is not held: by falling
   * priority, then rising path, then key and id in byte order.
   */
  lemma KeptComeFirst(xs: seq<FieldCell>, policies: Policies, scope: Scope, x: FieldCell, y: FieldCell)
    requires IdsDetermine(Elements(xs)) && MergeAll(xs, policies).Held?
    requires policies(scope).law.TopK? && policies(scope).limit > 0 && OrderFree(Arrived(xs, scope), policies(scope))
    requires x in InScope(MergeAll(xs, policies).cells, scope)
    requires y in Arrived(xs, scope) && y !in MergeAll(xs, policies).cells
    ensures ComesFirst(x, y)
  {
    hide MergeAll, OrderFree;
    OnlineTopK(xs, policies, scope);
    StableOrderByFields(x, y);
  }

  /** Under `priority_then_path` the cell held for a key comes before every other cell of the key that arrived. */
  lemma HeldForKeyComesFirst(xs: seq<FieldCell>, policies: Policies, scope: Scope, y: FieldCell)
    requires IdsDetermine(Elements(xs)) && MergeAll(xs, policies).Held?
    requires policies(scope).law.PriorityThenPath? && y in Arrived(xs, scope)
    ensures exists x | x in InScope(MergeAll(xs, policies).cells, scope) ::
      x.key == y.key && (x == y || ComesFirst(x, y))
  {
    hide MergeAll, StableLess, ComesFirst;
    RunIsDetermined(xs, policies);
    var a := Arrived(xs, scope);
    assert OrderFree(a, policies(scope));
    assert Stored(InScope(MergeAll(xs, policies).cells, scope), a, policies(scope));
    LeastPerKeyCounts(a);
    assert y.key in Keys(a);
    var x :| x in LeastPerKey(a) && x.key == y.key;
    StableOrderByFields(x, y);
  }

  // ----- connecting -----

  /** A port lists its cells by falling priority, then rising path, then key and id in byte order. */
  lemma ConnectedInOrder(l: seq<FieldCell>, spec: PortSpec)
    requires Arranged(l) && IdsDetermine(Elements(l)) && ConnectArranged(l, spec).Fine?
    ensures var cells := ConnectArranged(l, spec).cells;
      forall i, j | 0 <= i < j < |cells| :: ComesFirst(cells[i], cells[j])
  {
    hide StableLess, ComesFirst, Arranged, Sorted;
    var cells := ConnectArranged(l, spec).cells;
    if Plural(spec) {
      hide ConnectArranged;
      ConnectIsDetermined(l, spec);
      SortedByFields(cells);
    }
  }

  // ----- what each field decides -----

  function Cell(priority: int32, path: CborValue.uint64, key: byte, id: byte): FieldCell {
    FieldCell([id], [], [], [key], CborValue.Int(id), priority, false, Public, 0, [], [], false, false,
              Provenance([], 0, 0, path, [], [], [], []))
  }

  /** With room for one, the one that comes first is kept in either order, and connecting lists it first. */
  lemma FirstIsKept(x: FieldCell, y: FieldCell, policies: Policies, spec: PortSpec)
    requires ComesFirst(x, y) && x.id != y.id && ScopeOf(x) == ScopeOf(y)
    requires !SameValue(x, y) && !SameValue(y, x)
    requires policies(ScopeOf(x)) == Policy(TopK, 1) && spec.law.TopK? && spec.maxCells == 1
    ensures MergeAll([x, y], policies) == Held({x}) == MergeAll([y, x], policies)
    ensures Arranged([x, y]) && !Arranged([y, x]) && ConnectArranged([x, y], spec) == Fine([x])
  {
    hide ComesFirst, SameValue, StableLess, MergeLaws.Merge, ConnectArranged;
    StableOrderByFields(x, y);
    StableOrderIsTotal(x, y);
    BetterWins(x, y, policies);
    assert MergeAll([], policies) == Held({});
    hide MergeAll;
    OnlyCell(x, policies);
    OnlyCell(y, policies);
    LastMerge([], x, policies);
    LastMerge([], y, policies);
    LastMerge([x], y, policies);
    LastMerge([y], x, policies);
    assert [] + [x] == [x] && [] + [y] == [y] && [x] + [y] == [x, y] && [y] + [x] == [y, x];
    PortInput.BetterOfTwoConnected(x, y, spec);
    assert StableLess([y, x][1], [y, x][0]);
  }

  lemma OnlyCell(c: FieldCell, policies: Policies)
    requires policies(ScopeOf(c)) == Policy(TopK, 1)
    ensures MergeLaws.Merge({}, c, policies(ScopeOf(c))) == Done(true, {c})
  {
    hide StableLess;
    assert {} + {c} == {c} && InScope({}, ScopeOf(c)) == {};
    assert |{c}| == 1;
  }

  /**
   * Four pairs of cells with room for one, each kept for the field named: the priority although the path is
   * later, the path although the key is greater, the key although the id is greater, and the id.
   */
  lemma EachFieldDecides(policies: Policies, spec: PortSpec, x: FieldCell, y: FieldCell)
    requires policies(ScopeOf(x)) == Policy(TopK, 1) && spec.law.TopK? && spec.maxCells == 1
    requires (x, y) in {(Cell(5, 9, 98, 2), Cell(4, 1, 97, 1)), (Cell(5, 1, 98, 2), Cell(5, 9, 97, 1)),
                        (Cell(5, 1, 97, 2), Cell(5, 1, 98, 1)), (Cell(5, 1, 97, 1), Cell(5, 1, 97, 2))}
    ensures MergeAll([x, y], policies) == Held({x}) == MergeAll([y, x], policies)
    ensures Arranged([x, y]) && !Arranged([y, x]) && ConnectArranged([x, y], spec) == Fine([x])
  {
    hide MergeAll, Arranged, ConnectArranged;
    assert FirstDifference(x.key, y.key, 0) || x.key == y.key || x.priority != y.priority
        || x.provenance.pathIndex != y.provenance.pathIndex;
    assert FirstDifference(x.id, y.id, 0) || x.key != y.key || x.priority != y.priority
        || x.provenance.pathIndex != y.provenance.pathIndex;
    assert x.value != y.value && x.id[0] != y.id[0];
    FirstIsKept(x, y, policies, spec);
  }

  /** A key that another one continues comes first. */
  lemma PrefixComesFirst(key: bytes, more: bytes)
    requires more != []
    ensures BytesBefore(key, key + more) && !BytesBefore(key + more, key)
  {
    assert FirstDifference(key, key + more, |key|);
    LexDecides(key, key + more);
    LexDecides(key + more, key);
    LexTrichotomy(key, key + more);
  }
}
