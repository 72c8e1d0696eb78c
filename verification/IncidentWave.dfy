/** The batch form of merging: what a port is connected to, computed from all its cells at once. */
module IncidentWave {
  import opened Basics
  import opened Bytes
  import CborValue
  import opened FieldCells
  import opened MergeLaws
  import opened MergeOrder
  import MergeRuns
  import opened BandLists

  datatype Cardinality = One | Many

  datatype PortSpec = PortSpec(name: bytes, cardinality: Cardinality, law: Law, maxCells: nat)

  datatype Connected = Fine(cells: seq<FieldCell>) | MapConflict | TooMany | TooLarge

  // ----- the stages, on a list in stable order -----

  /** `std::sort` of any cells: no later cell is before an earlier one. */
  ghost predicate Arranged(l: seq<FieldCell>) {
    forall i, j | 0 <= i < j < |l| :: !StableLess(l[j], l[i])
  }

  /** `std::unique` by id: of neighbours with one id, the first stays. */
  function UniqueIds(l: seq<FieldCell>): (r: seq<FieldCell>)
    ensures l != [] ==> r != []
  {
    if l == [] then []
    else
      var kept, c := UniqueIds(l[..|l| - 1]), l[|l| - 1];
      if kept != [] && kept[|kept| - 1].id == c.id then kept else kept + [c]
  }

  predicate HasAlike(l: seq<FieldCell>, c: FieldCell) {
    exists i | 0 <= i < |l| :: SameValue(l[i], c)
  }

  predicate HasKey(l: seq<FieldCell>, key: bytes) {
    exists i | 0 <= i < |l| :: l[i].key == key
  }

  function FirstPerValue(l: seq<FieldCell>): seq<FieldCell> {
    if l == [] then []
    else
      var kept, c := FirstPerValue(l[..|l| - 1]), l[|l| - 1];
      if HasAlike(kept, c) then kept else kept + [c]
  }

  function FirstPerKey(l: seq<FieldCell>): seq<FieldCell> {
    if l == [] then []
    else
      var kept, c := FirstPerKey(l[..|l| - 1]), l[|l| - 1];
      if HasKey(kept, c.key) then kept else kept + [c]
  }

  /** Some cell differs in schema or value from the first of its key. */
  ghost predicate Conflicting(l: seq<FieldCell>) {
    exists i, j | 0 <= i < j < |l| :: l[i].key == l[j].key && !SameValue(l[i], l[j])
  }

  ghost function Reduce(l: seq<FieldCell>, law: Law): seq<FieldCell> {
    match law
    case SetUnion => FirstPerValue(l)
    case TopK => FirstPerValue(l)
    case MapUnionUnique => FirstPerKey(l)
    case PriorityThenPath => FirstPerKey(l)
    case _ => l
  }

  /** `IncidentWave::connect` on cells already sorted. */
  ghost function ConnectArranged(l: seq<FieldCell>, spec: PortSpec): Connected {
    var unique := UniqueIds(l);
    if spec.law.MapUnionUnique? && Conflicting(unique) then MapConflict
    else
      var reduced := Reduce(unique, spec.law);
      var kept := if spec.law.TopK? && |reduced| > spec.maxCells then reduced[..spec.maxCells] else reduced;
      if (spec.cardinality.One? || spec.law.OptionalSingle? || spec.law.Product?) && |kept| > 1 then TooMany
      else if |kept| > spec.maxCells then TooLarge
      else Fine(kept)
  }

  // ----- the object -----

  class IncidentWave {
    var ports: map<bytes, seq<FieldCell>>
    var sealedPorts: set<bytes>

    constructor ()
      ensures ports == map[] && sealedPorts == {}
    {
      ports, sealedPorts := map[], {};
    }

    /** Sort, drop repeated ids, apply the law, check the limits, store; nothing is stored on an error. */
    method Connect(port: bytes, cells: seq<FieldCell>, spec: PortSpec, sealedValue: bool)
        returns (r: Connected, ghost arranged: seq<FieldCell>)
      requires AllRepresentable(Elements(cells))
      modifies this
      ensures Arranged(arranged) && multiset(arranged) == multiset(cells)
      ensures r == ConnectArranged(arranged, spec)
      ensures r.Fine? ==> ports == old(ports)[port := r.cells]
      ensures r.Fine? ==> sealedPorts == old(sealedPorts) + (if sealedValue then {spec.name} else {})
      ensures !r.Fine? ==> ports == old(ports) && sealedPorts == old(sealedPorts)
    {
      hide StableLess;
      hide Arranged;
      hide UniqueIds;
      hide FirstPerKey;
      hide FirstPerValue;
      hide Conflicting;
      hide AllRepresentable;
      hide Elements;
      var sorted := SortAny(cells);
      arranged := sorted;
      SameElements(sorted, cells);
      var list := DropRepeatedIds(sorted);
      UniqueSubset(sorted);
      FewerAreRepresentable(Elements(list), Elements(cells));
      if spec.law.SetUnion? || spec.law.TopK? {
        list := KeepFirstPerValue(list);
      } else if spec.law.MapUnionUnique? {
        var conflict;
        conflict, list := KeepUniqueKeys(list);
        if conflict { return MapConflict, arranged; }
      } else if spec.law.PriorityThenPath? {
        list := KeepFirstPerKey(list);
      }
      if spec.law.TopK? && |list| > spec.maxCells { list := list[..spec.maxCells]; }
      if (spec.cardinality.One? || spec.law.OptionalSingle? || spec.law.Product?) && |list| > 1 {
        return TooMany, arranged;
      }
      if |list| > spec.maxCells { return TooLarge, arranged; }
      ports := ports[port := list];
      if sealedValue { sealedPorts := sealedPorts + {spec.name}; }
      r := Fine(list);
    }
  }

  lemma FewerAreRepresentable(some: set<FieldCell>, all: set<FieldCell>)
    requires some <= all && AllRepresentable(all)
    ensures AllRepresentable(some)
  {
    hide CborValue.Representable;
  }

  lemma SameElements(a: seq<FieldCell>, b: seq<FieldCell>)
    requires multiset(a) == multiset(b)
    ensures Elements(a) == Elements(b)
  {
    forall c ensures c in Elements(a) <==> c in Elements(b) {
      assert c in a <==> c in multiset(a);
      assert c in b <==> c in multiset(b);
    }
  }

  lemma {:induction false} UniqueSubset(l: seq<FieldCell>)
    ensures Elements(UniqueIds(l)) <= Elements(l)
  {
    if l != [] {
      UniqueSubset(l[..|l| - 1]);
      MergeRuns.ElementsSnoc(l);
      assert l[|l| - 1] in Elements(l);
    }
  }

  /** `std::sort`: in order, and the same cells as often as before. */
  method SortAny(cells: seq<FieldCell>) returns (sorted: seq<FieldCell>)
    ensures Arranged(sorted) && multiset(sorted) == multiset(cells)
  {
    hide StableLess;
    sorted := [];
    assert Arranged(sorted);
    hide Arranged;
    for i := 0 to |cells|
      invariant Arranged(sorted) && multiset(sorted) == multiset(cells[..i])
    {
      var c := cells[i];
      var at := |sorted|;
      while at > 0 && StableLess(c, sorted[at - 1])
        invariant 0 <= at <= |sorted|
        invariant forall j | at <= j < |sorted| :: StableLess(c, sorted[j])
      {
        at := at - 1;
      }
      InsertArranged(sorted, at, c);
      InsertedOne(sorted, at, cells, i);
      sorted := sorted[..at] + [c] + sorted[at..];
    }
    assert cells[..|cells|] == cells;
  }

  lemma InsertedOne(l: seq<FieldCell>, at: nat, cells: seq<FieldCell>, i: nat)
    requires i < |cells| && at <= |l| && multiset(l) == multiset(cells[..i])
    ensures multiset(l[..at] + [cells[i]] + l[at..]) == multiset(cells[..i + 1])
  {
    assert cells[..i + 1] == cells[..i] + [cells[i]];
    assert l == l[..at] + l[at..];
  }

  lemma InsertArranged(l: seq<FieldCell>, at: nat, c: FieldCell)
    requires Arranged(l) && at <= |l| && forall j | at <= j < |l| :: StableLess(c, l[j])
    requires at > 0 ==> !StableLess(c, l[at - 1])
    ensures Arranged(l[..at] + [c] + l[at..])
  {
    hide StableLess;
    forall j | 0 <= j < at ensures !StableLess(c, l[j]) {
      if j < at - 1 && StableLess(c, l[j]) {
        NotLessIsTransitive(c, l[j], l[at - 1]);
      }
    }
    forall j | at <= j < |l| ensures !StableLess(l[j], c) {
      StableOrderIsTotal(c, l[j]);
    }
  }

  /** If `c` is before `a` and `b` is not before `a`, then `c` is before `b`. */
  lemma NotLessIsTransitive(c: FieldCell, a: FieldCell, b: FieldCell)
    requires StableLess(c, a) && !StableLess(b, a)
    ensures StableLess(c, b)
  {
    LexTrichotomy(a.key, b.key);
    LexTrichotomy(a.id, b.id);
    if LexLess(c.key, a.key) && LexLess(a.key, b.key) {
      LexTransitive(c.key, a.key, b.key);
      LexTrichotomy(c.key, b.key);
    }
    if LexLess(c.id, a.id) && LexLess(a.id, b.id) { LexTransitive(c.id, a.id, b.id); }
    LexTrichotomy(c.key, a.key);
  }

  method DropRepeatedIds(l: seq<FieldCell>) returns (r: seq<FieldCell>)
    ensures r == UniqueIds(l)
  {
    r := [];
    for i := 0 to |l|
      invariant r == UniqueIds(l[..i])
    {
      assert l[..i + 1][..i] == l[..i];
      if !(r != [] && r[|r| - 1].id == l[i].id) { r := r + [l[i]]; }
    }
    assert l[..|l|] == l;
  }

  method KeepFirstPerValue(l: seq<FieldCell>) returns (unique: seq<FieldCell>)
    requires AllRepresentable(Elements(l))
    ensures unique == FirstPerValue(l)
  {
    hide CborValue.Representable;
    hide SameValue;
    unique := [];
    for i := 0 to |l|
      invariant unique == FirstPerValue(l[..i]) && Elements(unique) <= Elements(l)
    {
      assert l[..i + 1][..i] == l[..i];
      assert l[i] in Elements(l);
      var found := false;
      for j := 0 to |unique|
        invariant found <==> exists k | 0 <= k < j :: SameValue(unique[k], l[i])
      {
        assert unique[j] in Elements(unique);
        var alike := Alike(unique[j], l[i]);
        found := found || alike;
      }
      if !found { unique := unique + [l[i]]; }
    }
    assert l[..|l|] == l;
  }

  method KeepFirstPerKey(l: seq<FieldCell>) returns (selected: seq<FieldCell>)
    ensures selected == FirstPerKey(l)
  {
    selected := [];
    for i := 0 to |l|
      invariant selected == FirstPerKey(l[..i])
    {
      assert l[..i + 1][..i] == l[..i];
      if !HasKey(selected, l[i].key) { selected := selected + [l[i]]; }
    }
    assert l[..|l|] == l;
  }

  method KeepUniqueKeys(l: seq<FieldCell>) returns (conflict: bool, unique: seq<FieldCell>)
    requires AllRepresentable(Elements(l))
    ensures conflict <==> Conflicting(l)
    ensures !conflict ==> unique == FirstPerKey(l)
  {
    hide CborValue.Representable;
    hide SameValue;
    hide Conflicting;
    unique := [];
    NoConflictInNothing(l);
    for i := 0 to |l|
      invariant unique == FirstPerKey(l[..i]) && !Conflicting(l[..i])
    {
      assert l[..i + 1][..i] == l[..i];
      var found := 0;
      while found < |unique| && unique[found].key != l[i].key
        invariant 0 <= found <= |unique|
        invariant forall k | 0 <= k < found :: unique[k].key != l[i].key
      {
        found := found + 1;
      }
      KeptStandForAll(l[..i], l[i]);
      if found == |unique| {
        NewKeyNoConflict(l, i);
        unique := unique + [l[i]];
      } else {
        var alike := AlikeIn(l, unique[found], l[i]);
        KeptAlike(l, i, unique[found]);
        if !alike {
          ConflictStays(l, i + 1);
          return true, unique;
        }
      }
    }
    assert l[..|l|] == l;
    conflict := false;
  }

  method AlikeIn(ghost l: seq<FieldCell>, a: FieldCell, b: FieldCell) returns (alike: bool)
    requires AllRepresentable(Elements(l)) && a in l && b in l
    ensures alike <==> SameValue(a, b)
  {
    hide CborValue.Representable;
    assert a in Elements(l) && b in Elements(l);
    alike := Alike(a, b);
  }

  lemma NoConflictInNothing(l: seq<FieldCell>)
    ensures !Conflicting(l[..0])
  {
  }

  lemma NewKeyNoConflict(l: seq<FieldCell>, i: nat)
    requires i < |l| && !Conflicting(l[..i]) && !HasKey(l[..i], l[i].key)
    ensures !Conflicting(l[..i + 1])
  {
    NextConflicts(l, i);
    assert forall j | 0 <= j < i :: l[..i][j] == l[j];
  }

  /** Every cell has a kept cell of its key, and the kept cells are cells of the list. */
  lemma {:induction false} KeptStandForAll(l: seq<FieldCell>, c: FieldCell)
    ensures forall i | 0 <= i < |FirstPerKey(l)| :: FirstPerKey(l)[i] in l
    ensures HasKey(FirstPerKey(l), c.key) <==> HasKey(l, c.key)
  {
    if l != [] {
      var init, d := l[..|l| - 1], l[|l| - 1];
      KeptStandForAll(init, c);
      KeptStandForAll(init, d);
      assert HasKey(l, c.key) <==> HasKey(init, c.key) || d.key == c.key by {
        assert l == init + [d];
        if d.key == c.key { assert l[|l| - 1].key == c.key; }
        if HasKey(init, c.key) {
          var i :| 0 <= i < |init| && init[i].key == c.key;
          assert l[i].key == c.key;
        }
      }
      var kept := FirstPerKey(init);
      if !HasKey(kept, d.key) {
        var more := kept + [d];
        assert more[|kept|] == d;
        assert HasKey(more, c.key) <==> HasKey(kept, c.key) || d.key == c.key by {
          if HasKey(kept, c.key) {
            var i :| 0 <= i < |kept| && kept[i].key == c.key;
            assert more[i].key == c.key;
          }
        }
      }
    }
  }

  lemma NextConflicts(l: seq<FieldCell>, i: nat)
    requires i < |l|
    ensures Conflicting(l[..i + 1]) <==>
      Conflicting(l[..i]) || exists j | 0 <= j < i :: l[j].key == l[i].key && !SameValue(l[j], l[i])
  {
    hide SameValue;
    var a, b := l[..i], l[..i + 1];
    if Conflicting(a) {
      var j, k :| 0 <= j < k < |a| && a[j].key == a[k].key && !SameValue(a[j], a[k]);
      assert b[j] == a[j] && b[k] == a[k];
    }
    if j :| 0 <= j < i && l[j].key == l[i].key && !SameValue(l[j], l[i]) {
      assert b[j] == l[j] && b[i] == l[i];
    }
    if Conflicting(b) {
      var j, k :| 0 <= j < k < |b| && b[j].key == b[k].key && !SameValue(b[j], b[k]);
      assert b[j] == l[j] && b[k] == l[k];
      if k < i { assert a[j] == b[j] && a[k] == b[k]; }
    }
  }

  lemma KeptAlike(l: seq<FieldCell>, i: nat, kept: FieldCell)
    requires i < |l| && !Conflicting(l[..i]) && kept in l[..i] && kept.key == l[i].key
    ensures Conflicting(l[..i + 1]) <==> !SameValue(kept, l[i])
  {
    NextConflicts(l, i);
    var m :| 0 <= m < i && l[..i][m] == kept;
    assert l[m] == kept;
    if j :| 0 <= j < i && l[j].key == l[i].key && !SameValue(l[j], l[i]) {
      assert l[..i][j] == l[j];
      assert j != m ==> SameValue(l[..i][j], l[..i][m]) || SameValue(l[..i][m], l[..i][j]);
    }
  }

  lemma ConflictStays(l: seq<FieldCell>, i: nat)
    requires i <= |l| && Conflicting(l[..i])
    ensures Conflicting(l)
  {
    var j, k :| 0 <= j < k < i && l[..i][j].key == l[..i][k].key && !SameValue(l[..i][j], l[..i][k]);
    assert l[j] == l[..i][j] && l[k] == l[..i][k];
  }

  // ----- what the stages keep -----

  lemma AppendGreater(l: seq<FieldCell>, c: FieldCell)
    requires Sorted(l) && forall i | 0 <= i < |l| :: StableLess(l[i], c)
    ensures Sorted(l + [c]) && Elements(l + [c]) == Elements(l) + {c}
  {
    hide StableLess;
  }

  /** Dropping repeated ids from an arranged list leaves the sorted list of its cells. */
  lemma {:induction false} UniqueIdsSorts(l: seq<FieldCell>)
    requires Arranged(l) && IdsDetermine(Elements(l))
    ensures Sorted(UniqueIds(l)) && Elements(UniqueIds(l)) == Elements(l)
  {
    hide StableLess;
    if l != [] {
      var init, c := l[..|l| - 1], l[|l| - 1];
      MergeRuns.ElementsSnoc(l);
      UniqueIdsSorts(init);
      var kept := UniqueIds(init);
      forall d | d in Elements(init) ensures d.id == c.id ==> d == c {
        assert d in Elements(l) && c in Elements(l);
      }
      if c in Elements(init) {
        LastOfSorted(init, kept, c);
      } else {
        assert l == init + [c];
        AllComeBefore(init, kept, c);
        AppendGreater(kept, c);
      }
    }
  }

  lemma AllComeBefore(init: seq<FieldCell>, kept: seq<FieldCell>, c: FieldCell)
    requires Arranged(init + [c]) && Elements(kept) == Elements(init) && c !in Elements(init)
    requires forall d | d in Elements(init) && d.id == c.id :: d == c
    ensures forall i | 0 <= i < |kept| :: StableLess(kept[i], c) && kept[i].id != c.id
  {
    hide StableLess;
    forall i | 0 <= i < |kept| ensures StableLess(kept[i], c) && kept[i].id != c.id {
      assert kept[i] in Elements(init);
      var j :| 0 <= j < |init| && init[j] == kept[i];
      assert (init + [c])[j] == kept[i] && (init + [c])[|init|] == c;
      StableOrderIsTotal(kept[i], c);
    }
  }

  lemma LastOfSorted(init: seq<FieldCell>, kept: seq<FieldCell>, c: FieldCell)
    requires Arranged(init + [c]) && Sorted(kept) && Elements(kept) == Elements(init) && c in Elements(init)
    ensures kept != [] && kept[|kept| - 1] == c
  {
    hide StableLess;
    assert c in Elements(kept);
    var i :| 0 <= i < |kept| && kept[i] == c;
    var g := kept[|kept| - 1];
    assert g in Elements(init);
    var j :| 0 <= j < |init| && init[j] == g;
    assert (init + [c])[j] == g && (init + [c])[|init|] == c;
    assert !StableLess(c, g);
    assert forall k | 0 <= k < |kept| - 1 :: StableLess(kept[k], g);
  }

  lemma {:induction false} FirstPerKeySorts(l: seq<FieldCell>)
    requires Sorted(l) && IdsDetermine(Elements(l))
    ensures Sorted(FirstPerKey(l)) && Elements(FirstPerKey(l)) == LeastPerKey(Elements(l))
  {
    hide StableLess;
    hide LeastPerKey;
    if l == [] {
      NoKeys();
    } else {
      var init, c := l[..|l| - 1], l[|l| - 1];
      MergeRuns.ElementsSnoc(l);
      FirstPerKeySorts(init);
      KeptStandForAll(init, c);
      var a, kept := Elements(init), FirstPerKey(init);
      forall i | 0 <= i < |kept| ensures StableLess(kept[i], c) {
        assert kept[i] in init;
        var j :| 0 <= j < |init| && init[j] == kept[i];
        assert l[j] == kept[i];
      }
      HasKeyIsKey(init, c.key);
      if HasKey(init, c.key) {
        GreaterChangesNoLeast(l);
      } else {
        NewKey(a, c);
        AppendGreater(kept, c);
      }
    }
  }

  lemma NoKeys()
    ensures LeastPerKey(Elements([])) == {} && Elements([]) == {}
  {
  }

  lemma HasKeyIsKey(l: seq<FieldCell>, key: bytes)
    ensures HasKey(l, key) <==> key in Keys(Elements(l))
  {
    if HasKey(l, key) {
      var i :| 0 <= i < |l| && l[i].key == key;
      assert l[i] in Elements(l);
    }
    if key in Keys(Elements(l)) {
      var c :| c in Elements(l) && c.key == key;
      var i :| 0 <= i < |l| && l[i] == c;
      assert l[i].key == key;
    }
  }

  lemma GreaterChangesNoLeast(l: seq<FieldCell>)
    requires l != [] && Sorted(l) && IdsDetermine(Elements(l)) && HasKey(l[..|l| - 1], l[|l| - 1].key)
    ensures LeastPerKey(Elements(l)) == LeastPerKey(Elements(l[..|l| - 1]))
  {
    hide StableLess;
    var init, c := l[..|l| - 1], l[|l| - 1];
    MergeRuns.ElementsSnoc(l);
    var a := Elements(init);
    forall d | d in a ensures StableLess(d, c) && !StableLess(c, d) {
      var j :| 0 <= j < |init| && init[j] == d;
      assert l[j] == d;
      StableOrderIsTotal(c, d);
    }
    var i :| 0 <= i < |init| && init[i].key == c.key;
    assert init[i] in a && init[i] in WithKey(a, c.key);
    var e := Least(WithKey(a, c.key));
    assert c !in a;
    assert c !in LeastPerKey(a);
    KnownKey(a, c, e);
  }

  lemma {:induction false} FirstPerValueSorts(l: seq<FieldCell>)
    requires Sorted(l)
    ensures Sorted(FirstPerValue(l)) && OnePerValue(Elements(FirstPerValue(l)), Elements(l))
    ensures Elements(FirstPerValue(l)) == LeastPerValue(Elements(l))
  {
    hide StableLess;
    hide OnePerValue;
    hide HasAlike;
    hide HasValue;
    hide Sorted;
    hide LeastPerValue;
    if l == [] {
      NoValues();
    } else {
      var init, c := l[..|l| - 1], l[|l| - 1];
      MergeRuns.ElementsSnoc(l);
      InitIsSorted(l);
      FirstPerValueSorts(init);
      var kept := FirstPerValue(init);
      HasAlikeIsValue(kept, c);
      KeptIsArrived(kept, init);
      assert l == init + [c];
      SameValuesFound(Elements(kept), Elements(init), c);
      GreatestArrives(Elements(init), c, l);
      if HasAlike(kept, c) {
        OldValueKept(Elements(kept), Elements(init), c);
      } else {
        NewValueAdded(Elements(kept), Elements(init), c);
        KeptAreLess(kept, init, c, l);
        AppendGreater(kept, c);
      }
    }
  }

  lemma InitIsSorted(l: seq<FieldCell>)
    requires l != [] && Sorted(l)
    ensures Sorted(l[..|l| - 1])
  {
    hide StableLess;
  }

  lemma KeptAreLess(kept: seq<FieldCell>, init: seq<FieldCell>, c: FieldCell, l: seq<FieldCell>)
    requires Sorted(l) && l == init + [c] && Elements(kept) <= Elements(init)
    ensures forall i | 0 <= i < |kept| :: StableLess(kept[i], c)
  {
    hide StableLess;
    forall i | 0 <= i < |kept| ensures StableLess(kept[i], c) {
      assert kept[i] in Elements(init);
      var j :| 0 <= j < |init| && init[j] == kept[i];
      assert l[j] == kept[i] && l[|init|] == c;
    }
  }

  lemma NoValues()
    ensures OnePerValue(Elements([]), Elements([])) && LeastPerValue(Elements([])) == Elements([])
  {
    assert Elements([]) == {};
  }

  lemma KeptIsArrived(kept: seq<FieldCell>, init: seq<FieldCell>)
    requires OnePerValue(Elements(kept), Elements(init))
    ensures Elements(kept) <= Elements(init)
  {
  }

  lemma HasAlikeIsValue(l: seq<FieldCell>, c: FieldCell)
    ensures HasAlike(l, c) <==> HasValue(Elements(l), c)
  {
    if HasAlike(l, c) {
      var i :| 0 <= i < |l| && SameValue(l[i], c);
      assert l[i] in Elements(l);
    }
    if HasValue(Elements(l), c) {
      var d :| d in Elements(l) && SameValue(d, c);
      var i :| 0 <= i < |l| && l[i] == d;
      assert SameValue(l[i], c);
    }
  }

  lemma SameValuesFound(kept: set<FieldCell>, all: set<FieldCell>, c: FieldCell)
    requires OnePerValue(kept, all)
    ensures HasValue(kept, c) <==> HasValue(all, c)
  {
    ValuesGrow(kept, c);
    ValuesGrow(all, c);
  }

  /** The greatest cell is the best of its value only when no other cell has that value. */
  lemma GreatestArrives(s: set<FieldCell>, c: FieldCell, l: seq<FieldCell>)
    requires l != [] && Sorted(l) && s == Elements(l[..|l| - 1]) && c == l[|l| - 1]
    ensures LeastPerValue(s + {c}) == LeastPerValue(s) + if HasValue(s, c) then {} else {c}
  {
    hide StableLess;
    forall d | d in s ensures StableLess(d, c) && !StableLess(c, d) && d != c {
      var i :| 0 <= i < |l| - 1 && l[..|l| - 1][i] == d;
      assert l[i] == d;
      StableOrderIsTotal(d, c);
    }
  }

  /** The front of a sorted list is its top. */
  lemma FrontIsTop(l: seq<FieldCell>, k: nat)
    requires Sorted(l) && k <= |l|
    ensures Sorted(l[..k]) && IsTop(Elements(l[..k]), Elements(l), k)
  {
    hide StableLess;
    SortedHasNoRepeats(l);
    SortedHasNoRepeats(l[..k]);
    forall x, y | x in Elements(l[..k]) && y in Elements(l) && y !in Elements(l[..k]) ensures StableLess(x, y) {
      var i :| 0 <= i < k && l[..k][i] == x;
      var j :| 0 <= j < |l| && l[j] == y;
      assert forall t | 0 <= t < k :: l[..k][t] == l[t];
    }
  }

  lemma ConflictIsDisagreement(l: seq<FieldCell>)
    ensures Conflicting(l) <==> !KeysAgree(Elements(l))
  {
    if Conflicting(l) {
      var i, j :| 0 <= i < j < |l| && l[i].key == l[j].key && !SameValue(l[i], l[j]);
      assert l[i] in Elements(l) && l[j] in Elements(l);
    }
    if !KeysAgree(Elements(l)) {
      var c, d :| c in Elements(l) && d in Elements(l) && c.key == d.key && !SameValue(c, d);
      var i :| 0 <= i < |l| && l[i] == c;
      var j :| 0 <= j < |l| && l[j] == d;
      if i < j { assert !SameValue(l[i], l[j]); } else { assert !SameValue(l[j], l[i]); }
    }
  }

  // ----- batch and online agree -----

  /** The law takes several cells, and some at least. */
  predicate Plural(spec: PortSpec) {
    !spec.law.OptionalSingle? && !spec.law.Product? && spec.maxCells > 0
  }

  function PolicyOf(spec: PortSpec): Policy {
    Policy(spec.law, spec.maxCells)
  }

  /** How many cells the law leaves of `a`. */
  ghost function Retained(a: set<FieldCell>, p: Policy): nat {
    match p.law
    case SetUnion => |Values(a)|
    case TopK => if |Values(a)| <= p.limit then |Values(a)| else p.limit
    case MapUnionUnique => |Keys(a)|
    case PriorityThenPath => |Keys(a)|
    case _ => |a|
  }

  /**
   * Connecting fails exactly when the cells are not acceptable to the law, or the port takes one cell and more
   * remain. Otherwise it holds, in stable order, what the law keeps; under `top_k` the best of the best cells of
   * each schema, key and value, whether the order of arrival is free or not.
   */
  lemma ConnectIsDetermined(l: seq<FieldCell>, spec: PortSpec)
    requires Arranged(l) && IdsDetermine(Elements(l)) && Plural(spec)
    ensures var r, a, p := ConnectArranged(l, spec), Elements(l), PolicyOf(spec);
      && (r.Fine? <==> Acceptable(a, p) && (spec.cardinality.One? ==> Retained(a, p) <= 1))
      && (r.Fine? ==> Sorted(r.cells) && |r.cells| == Retained(a, p))
      && (r.Fine? && spec.law.TopK? ==> Elements(r.cells) == TopKeep(LeastPerValue(a), spec.maxCells))
      && (r.Fine? && OrderFree(a, p) ==> Stored(Elements(r.cells), a, p))
  {
    hide StableLess;
    hide Sorted;
    hide Arranged;
    hide UniqueIds;
    hide FirstPerKey;
    hide FirstPerValue;
    hide LeastPerKey;
    hide LeastPerValue;
    hide OnePerValue;
    hide KeysAgree;
    hide Keys;
    hide Values;
    hide Elements;
    hide TopKeep;
    hide Conflicting;
    hide OrderFree;
    var u, a := UniqueIds(l), Elements(l);
    UniqueIdsSorts(l);
    CountSorted(u);
    match spec.law
    case SetUnion => ConnectPerValue(u);
    case TopK =>
      ConnectPerValue(u);
      ConnectTopK(u, spec.maxCells);
      if OrderFree(a, PolicyOf(spec)) {
        TopOfLeastPerValue(a, spec.maxCells);
      }
    case MapUnionUnique =>
      ConflictIsDisagreement(u);
      ConnectPerKey(u);
    case PriorityThenPath => ConnectPerKey(u);
    case StableConcat =>
  }

  lemma CountSorted(l: seq<FieldCell>)
    requires Sorted(l)
    ensures |Elements(l)| == |l|
  {
    SortedHasNoRepeats(l);
  }

  lemma ConnectPerValue(u: seq<FieldCell>)
    requires Sorted(u)
    ensures Sorted(FirstPerValue(u)) && OnePerValue(Elements(FirstPerValue(u)), Elements(u))
    ensures |FirstPerValue(u)| == |Values(Elements(u))|
  {
    hide StableLess;
    FirstPerValueSorts(u);
    SortedHasNoRepeats(FirstPerValue(u));
    CountValues(Elements(FirstPerValue(u)));
  }

  lemma ConnectPerKey(u: seq<FieldCell>)
    requires Sorted(u) && IdsDetermine(Elements(u))
    ensures Sorted(FirstPerKey(u)) && Elements(FirstPerKey(u)) == LeastPerKey(Elements(u))
    ensures |FirstPerKey(u)| == |Keys(Elements(u))|
    ensures KeysAgree(Elements(u)) ==> OnePerValue(Elements(FirstPerKey(u)), Elements(u))
  {
    hide StableLess;
    FirstPerKeySorts(u);
    SortedHasNoRepeats(FirstPerKey(u));
    LeastPerKeyCounts(Elements(u));
    if KeysAgree(Elements(u)) {
      LeastPerKeyIsOnePerValue(Elements(u));
    }
  }

  lemma LeastPerKeyIsOnePerValue(a: set<FieldCell>)
    requires IdsDetermine(a) && KeysAgree(a)
    ensures OnePerValue(LeastPerKey(a), a)
  {
    hide StableLess;
    LeastPerKeyCounts(a);
    var t := LeastPerKey(a);
    forall v | v in Values(a) ensures v in Values(t) {
      var c :| c in a && ValueOf(c) == v;
      assert c.key in Keys(a);
      assert c.key in Keys(t);
      var d :| d in t && d.key == c.key;
      assert SameValue(d, c);
      assert ValueOf(d) == v;
    }
  }

  lemma ConnectTopK(u: seq<FieldCell>, k: nat)
    requires Sorted(u) && IdsDetermine(Elements(u))
    ensures var unique := FirstPerValue(u);
      var kept := if |unique| > k then unique[..k] else unique;
      Sorted(kept) && Elements(kept) == TopKeep(LeastPerValue(Elements(u)), k)
  {
    hide StableLess;
    hide FirstPerValue;
    hide LeastPerValue;
    FirstPerValueSorts(u);
    var unique := FirstPerValue(u);
    SortedHasNoRepeats(unique);
    LeastAreSome(Elements(u));
    if |unique| > k {
      FrontIsTop(unique, k);
      TopKeepIsTop(Elements(unique), k);
      TopIsUnique(Elements(unique[..k]), TopKeep(Elements(unique), k), Elements(unique), k);
    }
  }

  lemma LeastAreSome(a: set<FieldCell>)
    requires IdsDetermine(a)
    ensures LeastPerValue(a) <= a && IdsDetermine(LeastPerValue(a))
  {
    hide StableLess;
  }

  /**
   * The online and the batch form agree. For the cells that arrived in one scope, in any order and with
   * repeats: if the online run held and the order is free there, connecting them succeeds unless the port takes
   * one cell and more are stored; the values are the same, and under `top_k`, `priority_then_path` and
   * `stable_concat` so is the list, cell by cell.
   */
  lemma OnlineAgreesWithBatch(xs: seq<FieldCell>, policies: MergeRuns.Policies, scope: Scope,
                              arranged: seq<FieldCell>, spec: PortSpec, stored: seq<FieldCell>)
    requires IdsDetermine(Elements(xs)) && MergeRuns.MergeAll(xs, policies).Held?
    requires Plural(spec) && policies(scope) == PolicyOf(spec)
    requires OrderFree(MergeRuns.Arrived(xs, scope), policies(scope))
    requires Arranged(arranged) && Elements(arranged) == MergeRuns.Arrived(xs, scope)
    requires Sorted(stored) && Elements(stored) == InScope(MergeRuns.MergeAll(xs, policies).cells, scope)
    ensures var r := ConnectArranged(arranged, spec);
      && (r.Fine? <==> (spec.cardinality.One? ==> |stored| <= 1))
      && (r.Fine? ==> Sorted(r.cells) && Values(Elements(r.cells)) == Values(Elements(stored)))
      && (r.Fine? && spec.law in {TopK, PriorityThenPath, StableConcat} ==> r.cells == stored)
  {
    hide StableLess;
    hide Sorted;
    hide Arranged;
    hide ConnectArranged;
    hide MergeRuns.MergeAll;
    hide Acceptable;
    hide OrderFree;
    hide Values;
    hide Elements;
    hide Retained;
    MergeRuns.RunIsDetermined(xs, policies);
    var a, p := Elements(arranged), PolicyOf(spec);
    assert IdsDetermine(a) && Acceptable(a, p) && OrderFree(a, p);
    assert Stored(Elements(stored), a, p);
    ConnectIsDetermined(arranged, spec);
    CountSorted(stored);
    StoredCount(Elements(stored), a, p);
    var r := ConnectArranged(arranged, spec);
    if r.Fine? && spec.law in {TopK, PriorityThenPath, StableConcat} {
      SortedListIsUnique(r.cells, stored);
    }
  }

  lemma StoredCount(t: set<FieldCell>, a: set<FieldCell>, p: Policy)
    requires IdsDetermine(a) && Stored(t, a, p) && OrderFree(a, p) && Acceptable(a, p)
    requires !p.law.OptionalSingle? && !p.law.Product? && p.limit > 0
    ensures |t| == Retained(a, p)
  {
    hide StableLess;
    hide TopKeep;
    hide Values;
    hide Keys;
    hide LeastPerKey;
    match p.law
    case SetUnion => CountValues(t);
    case MapUnionUnique =>
      OneCellPerKey(t, a);
    case PriorityThenPath => LeastPerKeyCounts(a);
    case TopK =>
      TopOfLeastPerValue(a, p.limit);
      LeastAreSome(a);
      TopKeepIsTop(LeastPerValue(a), p.limit);
      LeastPerValueCounts(a);
    case _ =>
  }

  lemma LeastPerValueCounts(a: set<FieldCell>)
    requires IdsDetermine(a)
    ensures |LeastPerValue(a)| == |Values(a)|
  {
    hide StableLess;
    var sorted := SortedListOf(a);
    FirstPerValueSorts(sorted);
    CountValues(LeastPerValue(a));
  }

  /** Every set of cells has a sorted list. */
  lemma {:induction false} SortedListOf(a: set<FieldCell>) returns (l: seq<FieldCell>)
    requires IdsDetermine(a)
    ensures Sorted(l) && Elements(l) == a
    decreases |a|
  {
    hide StableLess;
    if a == {} {
      l := [];
    } else {
      var c := Greatest(a);
      var init := SortedListOf(a - {c});
      forall i | 0 <= i < |init| ensures StableLess(init[i], c) {
        assert init[i] in a - {c};
      }
      AppendGreater(init, c);
      l := init + [c];
    }
  }

  /** The run over `xs` holds exactly what connecting gives. */
  ghost predicate HoldsConnected(xs: seq<FieldCell>, policies: MergeRuns.Policies, connected: Connected) {
    connected.Fine? && MergeRuns.MergeAll(xs, policies) == MergeRuns.Held(Elements(connected.cells))
  }

  /**
   * Under `top_k` every order and repetition of the cells of a scope leaves the list that connecting gives exactly
   * when none of the best cells shares its schema, key and value with another cell.
   */
  lemma TopKAgreesExactly(a: set<FieldCell>, scope: Scope, policies: MergeRuns.Policies,
                          arranged: seq<FieldCell>, spec: PortSpec)
    requires IdsDetermine(a) && MergeRuns.InOneScope(a, scope) && Arranged(arranged) && Elements(arranged) == a
    requires spec.law.TopK? && spec.cardinality.Many? && spec.maxCells > 0 && policies(scope) == PolicyOf(spec)
    ensures (forall xs | Elements(xs) == a :: HoldsConnected(xs, policies, ConnectArranged(arranged, spec)))
      <==> OrderFree(a, PolicyOf(spec))
  {
    hide StableLess;
    hide ConnectArranged;
    hide MergeRuns.MergeAll;
    hide OrderFree;
    hide LeastPerValue;
    hide TopKeep;
    hide Elements;
    var p, r := PolicyOf(spec), ConnectArranged(arranged, spec);
    ConnectIsDetermined(arranged, spec);
    if OrderFree(a, p) {
      forall xs | Elements(xs) == a ensures HoldsConnected(xs, policies, r) {
        MergeRuns.OrderIsFreeExactly(a, scope, policies);
        assert MergeRuns.HoldsWanted(xs, policies, p.limit);
      }
    } else {
      var best, xs, ys := MergeRuns.TwoOrdersDiffer(a, scope, policies);
      assert best in Elements(r.cells);
      assert !HoldsConnected(ys, policies, r);
    }
  }

  /** The batch form keeps the better twin, whatever a run that met the lesser one first holds. */
  lemma BatchKeepsBetterTwin(spec: PortSpec)
    requires spec.law.TopK? && spec.maxCells == 1
    ensures ConnectArranged([MergeRuns.HIGH, MergeRuns.BETWEEN, MergeRuns.LOW], spec) == Fine([MergeRuns.HIGH])
  {
    var high, between, low := MergeRuns.HIGH, MergeRuns.BETWEEN, MergeRuns.LOW;
    var l := [high, between, low];
    assert l[..2] == [high, between] && [high, between][..1] == [high] && [high][..0] == [];
    assert UniqueIds([high]) == [high];
    assert UniqueIds([high, between]) == [high, between];
    assert UniqueIds(l) == l;
    assert FirstPerValue([high]) == [high];
    assert !HasAlike([high], between);
    assert FirstPerValue([high, between]) == [high, between];
    assert HasAlike([high, between], low) by { assert SameValue([high, between][0], low); }
    assert FirstPerValue(l) == [high, between];
  }

  /**
   * Under a single-value law `connect` takes one cell at most, a merge any cells of one value: they decide
   * alike exactly unless there are several cells, all of one value.
   */
  lemma SingleLawsDiffer(l: seq<FieldCell>, spec: PortSpec)
    requires Arranged(l) && IdsDetermine(Elements(l))
    requires (spec.law.Product? || spec.law.OptionalSingle?) && spec.maxCells > 0
    ensures var r, a := ConnectArranged(l, spec), Elements(l);
      && (r.Fine? <==> |a| <= 1)
      && ((r.Fine? <==> Acceptable(a, PolicyOf(spec))) <==> !(|a| > 1 && AllAlike(a)))
  {
    hide StableLess;
    UniqueIdsSorts(l);
    SortedHasNoRepeats(UniqueIds(l));
    forall c, d | c in Elements(l) && d in Elements(l) && |Elements(l)| <= 1 ensures c == d {
      if c != d {
        SubsetSize({c, d}, Elements(l));
      }
    }
  }

  /** The twins that a merge under `product` takes are one cell too many to `connect`. */
  lemma ConnectRefusesTwins(spec: PortSpec)
    requires spec.law.Product?
    ensures ConnectArranged([MergeRuns.HIGH, MergeRuns.LOW], spec) == TooMany
  {
    var l := [MergeRuns.HIGH, MergeRuns.LOW];
    assert l[..1] == [MergeRuns.HIGH] && [MergeRuns.HIGH][..0] == [];
    assert UniqueIds([MergeRuns.HIGH]) == [MergeRuns.HIGH];
    assert UniqueIds(l) == l;
  }

  /** A limit of zero is no limit to a merge and allows nothing to `connect`, which under `top_k` drops every cell. */
  lemma ZeroLimitDiffers(l: seq<FieldCell>, spec: PortSpec)
    requires spec.maxCells == 0
    ensures var r := ConnectArranged(l, spec);
      && (r.Fine? <==> l == [] || spec.law.TopK?)
      && (r.Fine? ==> r.cells == [])
  {
    hide StableLess;
    if l != [] {
      KeepsSomething(UniqueIds(l));
    }
  }

  lemma KeepsSomething(l: seq<FieldCell>)
    requires l != []
    ensures FirstPerValue(l) != [] && FirstPerKey(l) != []
  {
    if |l| > 1 {
      KeepsSomething(l[..|l| - 1]);
    }
  }
}
