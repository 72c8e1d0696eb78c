/** What a port is connected to under `top_k`: its input is first cut down by priority and id alone. */
module PortInput {
  import opened Basics
  import opened Bytes
  import CborValue
  import opened FieldCells
  import opened MergeLaws
  import opened MergeOrder
  import MergeRuns
  import opened BandLists
  import opened IncidentWave

  // ----- the cut -----

  /** Higher priority first, then the id. */
  predicate RoughLess(left: FieldCell, right: FieldCell) {
    if left.priority != right.priority then left.priority > right.priority else LexLess(left.id, right.id)
  }

  lemma RoughOrderIsTotal(a: FieldCell, b: FieldCell)
    ensures a.id != b.id ==> RoughLess(a, b) || RoughLess(b, a)
    ensures !(RoughLess(a, b) && RoughLess(b, a)) && !RoughLess(a, a)
  {
    LexTrichotomy(a.id, b.id);
    LexTrichotomy(a.id, a.id);
  }

  lemma RoughOrderByFields(a: FieldCell, b: FieldCell)
    ensures RoughLess(a, b) <==>
      a.priority > b.priority || (a.priority == b.priority && BytesBefore(a.id, b.id))
  {
    LexDecides(a.id, b.id);
  }

  lemma RoughOrderIsTransitive(a: FieldCell, b: FieldCell, c: FieldCell)
    requires RoughLess(a, b) && !RoughLess(c, b)
    ensures RoughLess(a, c)
  {
    LexTrichotomy(b.id, c.id);
    if LexLess(a.id, b.id) && LexLess(b.id, c.id) {
      LexTransitive(a.id, b.id, c.id);
    }
  }

  ghost predicate RoughSorted(l: seq<FieldCell>) {
    forall i, j | 0 <= i < j < |l| :: !RoughLess(l[j], l[i])
  }

  /** `kept` is the front of `cells` once they are sorted as `sorted`. */
  ghost predicate IsFront(sorted: seq<FieldCell>, cells: seq<FieldCell>, kept: seq<FieldCell>, k: nat) {
    RoughSorted(sorted) && multiset(sorted) == multiset(cells) && k <= |sorted| == |cells| && kept == sorted[..k]
  }

  /** `kept` is what is left of `cells` before connecting. */
  ghost predicate IsCut(cells: seq<FieldCell>, kept: seq<FieldCell>, spec: PortSpec) {
    if spec.law.TopK? && |cells| > spec.maxCells then
      exists sorted :: IsFront(sorted, cells, kept, spec.maxCells)
    else kept == cells
  }

  /** `std::ranges::sort` by priority and id. */
  method SortRough(cells: seq<FieldCell>) returns (sorted: seq<FieldCell>)
    ensures RoughSorted(sorted) && multiset(sorted) == multiset(cells)
  {
    hide RoughLess;
    sorted := [];
    assert RoughSorted(sorted);
    hide RoughSorted;
    for i := 0 to |cells|
      invariant RoughSorted(sorted) && multiset(sorted) == multiset(cells[..i])
    {
      var c := cells[i];
      var at := |sorted|;
      while at > 0 && RoughLess(c, sorted[at - 1])
        invariant 0 <= at <= |sorted|
        invariant forall j | at <= j < |sorted| :: RoughLess(c, sorted[j])
      {
        at := at - 1;
      }
      InsertRough(sorted, at, c);
      InsertedOne(sorted, at, cells, i);
      sorted := sorted[..at] + [c] + sorted[at..];
    }
    assert cells[..|cells|] == cells;
  }

  lemma InsertRough(l: seq<FieldCell>, at: nat, c: FieldCell)
    requires RoughSorted(l) && at <= |l| && forall j | at <= j < |l| :: RoughLess(c, l[j])
    requires at > 0 ==> !RoughLess(c, l[at - 1])
    ensures RoughSorted(l[..at] + [c] + l[at..])
  {
    hide RoughLess;
    forall j | 0 <= j < at ensures !RoughLess(c, l[j]) {
      if j < at - 1 && RoughLess(c, l[j]) {
        RoughOrderIsTransitive(c, l[j], l[at - 1]);
      }
    }
    forall j | at <= j < |l| ensures !RoughLess(l[j], c) {
      RoughOrderIsTotal(c, l[j]);
    }
  }

  /** Connecting a port to the cells selected for it. */
  method ConnectSelected(wave: IncidentWave, cells: seq<FieldCell>, spec: PortSpec)
      returns (r: Connected, ghost kept: seq<FieldCell>, ghost arranged: seq<FieldCell>)
    requires AllRepresentable(Elements(cells))
    modifies wave
    ensures IsCut(cells, kept, spec)
    ensures Arranged(arranged) && multiset(arranged) == multiset(kept) && r == ConnectArranged(arranged, spec)
    ensures wave.ports == if r.Fine? then old(wave.ports)[spec.name := r.cells] else old(wave.ports)
  {
    hide RoughSorted;
    hide ConnectArranged;
    hide Arranged;
    var input := cells;
    if spec.law.TopK? && |cells| > spec.maxCells {
      var sorted := SortRough(cells);
      assert |multiset(sorted)| == |multiset(cells)|;
      input := sorted[..spec.maxCells];
      assert IsFront(sorted, cells, input, spec.maxCells);
      PartIsRepresentable(cells, sorted, spec.maxCells);
    }
    kept := input;
    r, arranged := wave.Connect(spec.name, input, spec, false);
  }

  lemma PartIsRepresentable(cells: seq<FieldCell>, sorted: seq<FieldCell>, k: nat)
    requires multiset(sorted) == multiset(cells) && k <= |sorted| && AllRepresentable(Elements(cells))
    ensures AllRepresentable(Elements(sorted[..k]))
  {
    SameElements(sorted, cells);
    assert Elements(sorted[..k]) <= Elements(sorted);
  }

  // ----- what the cut does to the cells that remain -----

  /** The cut keeps no cell that comes behind one it drops. */
  lemma CutKeepsTheFirst(cells: seq<FieldCell>, kept: seq<FieldCell>, spec: PortSpec)
    requires IsCut(cells, kept, spec) && IdsDetermine(Elements(cells))
    ensures Elements(kept) <= Elements(cells) && |Elements(kept)| <= |kept|
    ensures spec.law.TopK? ==> |kept| <= spec.maxCells
    ensures forall x, y | x in Elements(kept) && y in Elements(cells) && y !in Elements(kept) :: RoughLess(x, y)
    ensures forall x, y | x in Elements(kept) && y in Elements(cells) && y !in Elements(kept) ::
      x.priority > y.priority || (x.priority == y.priority && BytesBefore(x.id, y.id))
  {
    hide RoughLess, BytesBefore;
    AtMostAsMany(kept);
    forall x, y ensures RoughLess(x, y) <==>
      x.priority > y.priority || (x.priority == y.priority && BytesBefore(x.id, y.id))
    {
      RoughOrderByFields(x, y);
    }
    if spec.law.TopK? && |cells| > spec.maxCells {
      var sorted :| IsFront(sorted, cells, kept, spec.maxCells);
      SameElements(sorted, cells);
      forall x, y | x in Elements(kept) && y in Elements(cells) && y !in Elements(kept) ensures RoughLess(x, y) {
        var i :| 0 <= i < |kept| && kept[i] == x;
        var j :| 0 <= j < |sorted| && sorted[j] == y;
        assert forall m | 0 <= m < |kept| :: kept[m] == sorted[m] && kept[m] in Elements(kept);
        assert !RoughLess(sorted[j], sorted[i]);
        assert x in Elements(cells) && x != y;
        RoughOrderIsTotal(x, y);
      }
    }
  }

  lemma {:induction false} AtMostAsMany(l: seq<FieldCell>)
    ensures |Elements(l)| <= |l|
  {
    if l != [] {
      MergeRuns.ElementsSnoc(l);
      AtMostAsMany(l[..|l| - 1]);
      var init, c := l[..|l| - 1], l[|l| - 1];
      assert Elements(l) == Elements(init) + {c};
      UnionSize(Elements(init), {c});
    }
  }

  /** The cells a port that takes many then holds: the best of each value among those the cut left. */
  lemma HeldAfterCut(kept: seq<FieldCell>, arranged: seq<FieldCell>, spec: PortSpec)
    requires Arranged(arranged) && multiset(arranged) == multiset(kept) && IdsDetermine(Elements(kept))
    requires spec.law.TopK? && spec.cardinality.Many? && spec.maxCells > 0 && |Elements(kept)| <= spec.maxCells
    ensures var r := ConnectArranged(arranged, spec);
      r.Fine? && Sorted(r.cells) && Elements(r.cells) == LeastPerValue(Elements(kept))
  {
    hide StableLess;
    hide Sorted;
    hide Arranged;
    hide ConnectArranged;
    hide LeastPerValue;
    SameElements(arranged, kept);
    ConnectIsDetermined(arranged, spec);
    LeastAreSome(Elements(kept));
    SubsetSize(LeastPerValue(Elements(kept)), Elements(kept));
    assert TopKeep(LeastPerValue(Elements(kept)), spec.maxCells) == LeastPerValue(Elements(kept));
  }

  /** All of `best` is left, and whatever else is left shares its value with one of them. */
  ghost predicate Covers(left: set<FieldCell>, best: set<FieldCell>) {
    best <= left && forall c | c in left && c !in best :: HasValue(best, c)
  }

  lemma CoveredExactly(a: set<FieldCell>, left: set<FieldCell>, best: set<FieldCell>)
    requires IdsDetermine(a) && left <= a && best <= LeastPerValue(a)
    ensures LeastPerValue(left) == best <==> Covers(left, best)
  {
    hide StableLess;
    if LeastPerValue(left) == best {
      forall c | c in left && c !in best ensures HasValue(best, c) {
        var alike := set e | e in left && SameValue(e, c);
        assert c in alike;
        var e := Least(alike);
        assert e in LeastPerValue(left);
      }
    }
    if Covers(left, best) {
      forall c | c in LeastPerValue(left) ensures c in best {
        if c !in best {
          var d :| d in best && SameValue(d, c);
          assert SameValue(c, d);
          StableOrderIsTotal(c, d);
          assert false;
        }
      }
    }
  }

  /**
   * The cut changes nothing exactly when it leaves all the cells that connecting would hold, and of the others
   * only ones that share their schema, key and value with one of these.
   */
  lemma CutIsHarmlessExactly(cells: seq<FieldCell>, kept: seq<FieldCell>, arranged: seq<FieldCell>,
                             whole: seq<FieldCell>, spec: PortSpec)
    requires IdsDetermine(Elements(cells)) && IsCut(cells, kept, spec)
    requires spec.law.TopK? && spec.cardinality.Many? && spec.maxCells > 0
    requires Arranged(arranged) && multiset(arranged) == multiset(kept)
    requires Arranged(whole) && multiset(whole) == multiset(cells)
    ensures ConnectArranged(whole, spec).Fine?
    ensures ConnectArranged(arranged, spec) == ConnectArranged(whole, spec)
      <==> Covers(Elements(kept), Elements(ConnectArranged(whole, spec).cells))
  {
    hide StableLess;
    hide Sorted;
    hide Arranged;
    hide ConnectArranged;
    hide LeastPerValue;
    hide Covers;
    hide IsCut;
    hide TopKeep;
    var a := Elements(cells);
    CutKeepsTheFirst(cells, kept, spec);
    SameElements(whole, cells);
    ConnectIsDetermined(whole, spec);
    HeldAfterCut(kept, arranged, spec);
    var r, q := ConnectArranged(arranged, spec), ConnectArranged(whole, spec);
    LeastAreSome(a);
    CoveredExactly(a, Elements(kept), Elements(q.cells));
    if Elements(r.cells) == Elements(q.cells) {
      SortedListIsUnique(r.cells, q.cells);
    }
  }

  /** Each of the best cells comes before all others by priority and id as well. */
  ghost predicate OrdersAgree(a: set<FieldCell>, k: nat)
    requires IdsDetermine(a)
  {
    forall x, y | x in TopKeep(a, k) && y in a && y !in TopKeep(a, k) :: RoughLess(x, y)
  }

  /**
   * Where no cell is selected twice and no two share their schema, key and value, the cut changes nothing exactly
   * when path and key, which it does not look at, do not decide who is among the best.
   */
  lemma CutOfDistinctCells(cells: seq<FieldCell>, kept: seq<FieldCell>, arranged: seq<FieldCell>,
                           whole: seq<FieldCell>, spec: PortSpec)
    requires IdsDetermine(Elements(cells)) && DistinctValues(Elements(cells)) && |Elements(cells)| == |cells|
    requires spec.law.TopK? && spec.cardinality.Many? && 0 < spec.maxCells < |cells| && IsCut(cells, kept, spec)
    requires Arranged(arranged) && multiset(arranged) == multiset(kept)
    requires Arranged(whole) && multiset(whole) == multiset(cells)
    ensures ConnectArranged(arranged, spec) == ConnectArranged(whole, spec)
      <==> OrdersAgree(Elements(cells), spec.maxCells)
  {
    hide StableLess;
    hide RoughLess;
    hide Sorted;
    hide Arranged;
    hide ConnectArranged;
    hide IsCut;
    hide TopKeep;
    var a, left, k := Elements(cells), Elements(kept), spec.maxCells;
    CutKeepsTheFirst(cells, kept, spec);
    SameElements(whole, cells);
    ConnectIsDetermined(whole, spec);
    CutIsHarmlessExactly(cells, kept, arranged, whole, spec);
    DistinctAreLeast(a);
    TopKeepIsTop(a, k);
    var best := TopKeep(a, k);
    assert Elements(ConnectArranged(whole, spec).cells) == best;
    CutIsFull(cells, kept, spec);
    assert Covers(left, best) <==> left == best by {
      SubsetSize(left, a);
      if best <= left { SubsetSize(best, left); }
    }
    if OrdersAgree(a, k) {
      SameTop(a, left, best);
    }
  }

  lemma DistinctAreLeast(a: set<FieldCell>)
    requires DistinctValues(a)
    ensures LeastPerValue(a) == a
  {
    hide StableLess;
  }

  /** Of distinct cells the cut leaves as many as there is room for. */
  lemma CutIsFull(cells: seq<FieldCell>, kept: seq<FieldCell>, spec: PortSpec)
    requires spec.law.TopK? && spec.maxCells < |cells| && IsCut(cells, kept, spec) && |Elements(cells)| == |cells|
    ensures |Elements(kept)| == spec.maxCells
  {
    hide RoughLess;
    var sorted :| IsFront(sorted, cells, kept, spec.maxCells);
    SameElements(sorted, cells);
    var rest := sorted[spec.maxCells..];
    assert sorted == kept + rest;
    MergeRuns.ElementsOfBoth(kept, rest);
    AtMostAsMany(kept);
    AtMostAsMany(rest);
    UnionSize(Elements(kept), Elements(rest));
  }

  /** Two parts of one size that both come before what they leave out are one. */
  lemma SameTop(a: set<FieldCell>, left: set<FieldCell>, best: set<FieldCell>)
    requires left <= a && best <= a && |left| == |best|
    requires forall x, y | x in left && y in a && y !in left :: RoughLess(x, y)
    requires forall x, y | x in best && y in a && y !in best :: RoughLess(x, y)
    ensures left == best
  {
    hide RoughLess;
    if left != best {
      SameSizeDiffers(left, best);
      SameSizeDiffers(best, left);
      var x :| x in left && x !in best;
      var y :| y in best && y !in left;
      RoughOrderIsTotal(x, y);
    }
  }

  // ----- two inputs -----

  function OnPath(id: byte, path: nat, value: CborValue.int64): FieldCell
    requires path < 10
  {
    MergeRuns.Sample(id, 1, value).(provenance := Provenance([], 0, 0, path, [], [], [], []))
  }

  const EARLIER := OnPath(2, 0, 0)
  const LATER := OnPath(1, 1, 1)

  lemma OneMoreId(l: seq<FieldCell>, c: FieldCell)
    requires l == [] || UniqueIds(l)[|UniqueIds(l)| - 1].id != c.id
    ensures UniqueIds(l + [c]) == UniqueIds(l) + [c]
  {
    assert (l + [c])[..|l|] == l;
    assert UniqueIds([]) == [];
  }

  lemma OneMoreValue(l: seq<FieldCell>, c: FieldCell)
    ensures FirstPerValue(l + [c]) == if HasAlike(FirstPerValue(l), c) then FirstPerValue(l) else FirstPerValue(l) + [c]
  {
    assert (l + [c])[..|l|] == l;
  }

  lemma OneCellListed(c: FieldCell)
    ensures UniqueIds([c]) == [c] && FirstPerValue([c]) == [c]
  {
    hide SameValue;
    OneMoreId([], c);
    OneMoreValue([], c);
    assert [] + [c] == [c] && UniqueIds([]) == [] && FirstPerValue([]) == [];
  }

  lemma TwoCellsListed(c: FieldCell, d: FieldCell)
    requires c.id != d.id
    ensures UniqueIds([c, d]) == [c, d]
    ensures FirstPerValue([c, d]) == if SameValue(c, d) then [c] else [c, d]
  {
    hide SameValue;
    OneCellListed(c);
    hide UniqueIds;
    hide FirstPerValue;
    OneMoreId([c], d);
    OneMoreValue([c], d);
    assert [c] + [d] == [c, d];
    assert HasAlike([c], d) <==> SameValue(c, d) by {
      assert [c][0] == c;
    }
  }

  lemma OneCellConnected(c: FieldCell, spec: PortSpec)
    requires spec.law.TopK? && spec.maxCells > 0
    ensures ConnectArranged([c], spec) == Fine([c])
  {
    hide UniqueIds;
    hide FirstPerValue;
    OneCellListed(c);
  }

  lemma BetterOfTwoConnected(c: FieldCell, d: FieldCell, spec: PortSpec)
    requires spec.law.TopK? && spec.maxCells == 1 && c.id != d.id && !SameValue(c, d)
    ensures ConnectArranged([c, d], spec) == Fine([c])
  {
    hide UniqueIds;
    hide FirstPerValue;
    hide SameValue;
    TwoCellsListed(c, d);
    assert [c, d][..1] == [c];
  }

  /** With room for one, the cell of the earlier path is the best, and the cut drops it for a smaller id. */
  lemma CutDropsTheBest(spec: PortSpec)
    requires spec.law.TopK? && spec.cardinality.Many? && spec.maxCells == 1
    ensures StableLess(EARLIER, LATER) && IsCut([EARLIER, LATER], [LATER], spec)
    ensures ConnectArranged([EARLIER, LATER], spec) == Fine([EARLIER])
    ensures ConnectArranged([LATER], spec) == Fine([LATER])
  {
    hide ConnectArranged;
    assert RoughLess(LATER, EARLIER) && !RoughLess(EARLIER, LATER);
    var sorted, whole := [LATER, EARLIER], [EARLIER, LATER];
    assert IsFront(sorted, whole, [LATER], 1) by {
      assert multiset(sorted) == multiset(whole) && sorted[..1] == [LATER];
    }
    BetterOfTwoConnected(EARLIER, LATER, spec);
    OneCellConnected(LATER, spec);
  }

  /** With room for the first of each value, connecting keeps these. */
  lemma BestOfEachConnected(arranged: seq<FieldCell>, best: seq<FieldCell>, spec: PortSpec)
    requires spec.law.TopK? && spec.cardinality.Many? && spec.maxCells > 0
    requires FirstPerValue(UniqueIds(arranged)) == best && |best| <= spec.maxCells
    ensures ConnectArranged(arranged, spec) == Fine(best)
  {
    hide UniqueIds;
    hide FirstPerValue;
  }

  lemma TwinsListed(high: FieldCell, low: FieldCell, other: FieldCell)
    requires high.id != low.id && low.id != other.id
    requires SameValue(high, low) && !SameValue(high, other)
    ensures UniqueIds([high, low, other]) == [high, low, other]
    ensures FirstPerValue([high, low, other]) == [high, other]
  {
    TwoCellsListed(high, low);
    hide UniqueIds;
    hide FirstPerValue;
    hide SameValue;
    OneMoreId([high, low], other);
    OneMoreValue([high, low], other);
    assert [high, low] + [other] == [high, low, other];
    assert !HasAlike([high], other);
    assert [high] + [other] == [high, other];
  }

  lemma FrontOfThree(high: FieldCell, low: FieldCell, other: FieldCell, spec: PortSpec)
    requires spec.law.TopK? && spec.maxCells == 2
    requires RoughLess(high, low) && RoughLess(low, other) && RoughLess(high, other)
    ensures IsCut([high, low, other], [high, low], spec)
  {
    hide RoughLess;
    var whole := [high, low, other];
    RoughOrderIsTotal(high, low);
    RoughOrderIsTotal(low, other);
    RoughOrderIsTotal(high, other);
    assert whole[..2] == [high, low];
    assert IsFront(whole, whole, [high, low], 2);
  }

  /** Twins take the places of other cells: with room for two, twins at 5 and 4 leave no place for a cell at 3. */
  lemma TwinsTakePlaces(high: FieldCell, low: FieldCell, other: FieldCell, spec: PortSpec)
    requires spec.law.TopK? && spec.cardinality.Many? && spec.maxCells == 2
    requires high.priority == 5 && low.priority == 4 && other.priority == 3
    requires high.id != low.id && low.id != other.id
    requires SameValue(high, low) && !SameValue(high, other)
    ensures IsCut([high, low, other], [high, low], spec)
    ensures ConnectArranged([high, low], spec) == Fine([high])
    ensures ConnectArranged([high, low, other], spec) == Fine([high, other])
  {
    FrontOfThree(high, low, other, spec);
    hide IsCut;
    hide UniqueIds;
    hide FirstPerValue;
    hide SameValue;
    hide ConnectArranged;
    TwoCellsListed(high, low);
    TwinsListed(high, low, other);
    BestOfEachConnected([high, low], [high], spec);
    BestOfEachConnected([high, low, other], [high, other], spec);
  }
}
