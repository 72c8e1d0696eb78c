/** The bands of a wavefront as sorted lists: what they hold, searching them and sorting them. */
module BandLists {
  import opened Bytes
  import CborValue
  import CborCodec
  import CborTheorems
  import CborMachine
  import opened FieldCells
  import opened MergeLaws

  type Bands = map<bytes, seq<FieldCell>>

  // ----- what the fields mean -----

  ghost function CellsOf(bands: Bands): set<FieldCell> {
    set b, c | b in bands && c in bands[b] :: c
  }

  function At(bands: Bands, band: bytes): seq<FieldCell> {
    if band in bands then bands[band] else []
  }

  /** Every band is sorted and holds its own cells. */
  ghost predicate Filed(bands: Bands) {
    forall b | b in bands :: Sorted(bands[b]) && forall i | 0 <= i < |bands[b]| :: bands[b][i].band == b
  }

  ghost function IdsOf(s: set<FieldCell>): set<bytes> {
    set c | c in s :: c.id
  }

  ghost predicate AllRepresentable(s: set<FieldCell>) {
    forall c | c in s :: CborValue.Representable(c.value)
  }

  ghost function Size(c: FieldCell): nat {
    if CborValue.Representable(c.value) then |CborCodec.Encode(c.value)| else 0
  }

  ghost function TotalSize(s: set<FieldCell>): nat
    decreases |s|
  {
    if s == {} then 0
    else
      var c :| c in s;
      Size(c) + TotalSize(s - {c})
  }

  lemma {:induction false} TotalSizeWithout(s: set<FieldCell>, c: FieldCell)
    requires c in s
    ensures TotalSize(s) == Size(c) + TotalSize(s - {c})
    decreases |s|
  {
    hide Size;
    var d :| d in s && TotalSize(s) == Size(d) + TotalSize(s - {d});
    if d != c {
      TotalSizeWithout(s - {d}, c);
      TotalSizeWithout(s - {c}, d);
      assert s - {d} - {c} == s - {c} - {d};
    }
  }

  lemma TotalSizeWith(s: set<FieldCell>, c: FieldCell)
    requires c !in s
    ensures TotalSize(s + {c}) == TotalSize(s) + Size(c)
  {
    TotalSizeWithout(s + {c}, c);
    assert s + {c} - {c} == s;
  }

  // ----- one band replaced -----

  lemma BandOfCell(bands: Bands, c: FieldCell)
    requires Filed(bands)
    ensures c in CellsOf(bands) <==> c in At(bands, c.band)
  {
  }

  lemma BandReplaced(bands: Bands, band: bytes, cells: seq<FieldCell>)
    requires Filed(bands) && Sorted(cells) && forall i | 0 <= i < |cells| :: cells[i].band == band
    ensures var after := bands[band := cells];
      Filed(after) && CellsOf(after) == CellsOf(bands) - Elements(At(bands, band)) + Elements(cells)
  {
    hide Sorted;
    var after := bands[band := cells];
    forall c ensures c in CellsOf(after) <==> c in CellsOf(bands) - Elements(At(bands, band)) + Elements(cells) {
      BandOfCell(after, c);
      BandOfCell(bands, c);
    }
  }

  /** The cells of a scope are all in its band. */
  lemma ScopeIsInBand(bands: Bands, scope: Scope)
    requires Filed(bands)
    ensures InScope(CellsOf(bands), scope) == InScope(Elements(At(bands, scope.band)), scope)
    ensures Elements(At(bands, scope.band)) <= CellsOf(bands)
  {
    hide Sorted;
    forall c ensures c in InScope(CellsOf(bands), scope) <==> c in InScope(Elements(At(bands, scope.band)), scope) {
      BandOfCell(bands, c);
    }
  }

  // ----- comparing and measuring encodings -----

  method EncodedAlike(a: CborValue.Value, b: CborValue.Value) returns (alike: bool)
    requires CborValue.Representable(a) && CborValue.Representable(b)
    ensures alike <==> a == b
  {
    hide CborCodec.Encode;
    var left := new CborMachine.Encoder();
    left.EncodeValue(a);
    var right := new CborMachine.Encoder();
    right.EncodeValue(b);
    CborTheorems.EncodingIsInjective(a, b);
    alike := left.output == right.output;
    assert [] + CborCodec.Encode(a) == CborCodec.Encode(a) && [] + CborCodec.Encode(b) == CborCodec.Encode(b);
  }

  /** Same schema, key and encoded value. */
  method Alike(existing: FieldCell, cell: FieldCell) returns (alike: bool)
    requires CborValue.Representable(existing.value) && CborValue.Representable(cell.value)
    ensures alike <==> SameValue(existing, cell)
  {
    var encodedAlike := EncodedAlike(existing.value, cell.value);
    alike := existing.schema == cell.schema && existing.key == cell.key && encodedAlike;
  }

  method EncodedSize(c: FieldCell) returns (n: nat)
    requires CborValue.Representable(c.value)
    ensures n == Size(c)
  {
    hide CborCodec.Encode;
    var encoder := new CborMachine.Encoder();
    encoder.EncodeValue(c.value);
    n := |encoder.output|;
  }

  // ----- searches in a band -----

  method AnyAlike(target: seq<FieldCell>, cell: FieldCell) returns (found: bool)
    requires CborValue.Representable(cell.value) && AllRepresentable(Elements(target))
    ensures found <==> HasValue(InScope(Elements(target), ScopeOf(cell)), cell)
  {
    for i := 0 to |target|
      invariant forall j | 0 <= j < i :: !(ScopeOf(target[j]) == ScopeOf(cell) && SameValue(target[j], cell))
    {
      var c := target[i];
      if ScopeOf(c) == ScopeOf(cell) && c.schema == cell.schema && c.key == cell.key {
        var alike := EncodedAlike(c.value, cell.value);
        if alike {
          assert c in InScope(Elements(target), ScopeOf(cell)) && SameValue(c, cell);
          return true;
        }
      }
    }
    return false;
  }

  /** `find_if` over a sorted band finds the least of the cells it looks for. */
  method FindKey(target: seq<FieldCell>, cell: FieldCell) returns (at: int)
    requires Sorted(target) && IdsDetermine(Elements(target))
    ensures var alike := WithKey(InScope(Elements(target), ScopeOf(cell)), cell.key);
      if at < 0 then alike == {}
      else at < |target| && alike != {} && IdsDetermine(alike) && target[at] == Least(alike)
  {
    hide Sorted;
    for i := 0 to |target|
      invariant forall j | 0 <= j < i :: !(ScopeOf(target[j]) == ScopeOf(cell) && target[j].key == cell.key)
    {
      if ScopeOf(target[i]) == ScopeOf(cell) && target[i].key == cell.key {
        FirstIsLeast(target, i, WithKey(InScope(Elements(target), ScopeOf(cell)), cell.key));
        return i;
      }
    }
    return -1;
  }

  method FindScope(target: seq<FieldCell>, cell: FieldCell) returns (at: int)
    requires Sorted(target) && IdsDetermine(Elements(target))
    ensures var t := InScope(Elements(target), ScopeOf(cell));
      if at < 0 then t == {} else at < |target| && t != {} && IdsDetermine(t) && target[at] == Least(t)
  {
    hide Sorted;
    for i := 0 to |target|
      invariant forall j | 0 <= j < i :: ScopeOf(target[j]) != ScopeOf(cell)
    {
      if ScopeOf(target[i]) == ScopeOf(cell) {
        FirstIsLeast(target, i, InScope(Elements(target), ScopeOf(cell)));
        return i;
      }
    }
    return -1;
  }

  /** The same from the back. */
  method FindWorst(target: seq<FieldCell>, scope: Scope) returns (at: int)
    requires Sorted(target) && IdsDetermine(Elements(target))
    ensures var t := InScope(Elements(target), scope);
      if at < 0 then t == {} else at < |target| && t != {} && IdsDetermine(t) && target[at] == Greatest(t)
  {
    hide Sorted;
    var i := |target|;
    while i > 0
      invariant 0 <= i <= |target|
      invariant forall j | i <= j < |target| :: ScopeOf(target[j]) != scope
    {
      i := i - 1;
      if ScopeOf(target[i]) == scope {
        LastIsGreatest(target, i, InScope(Elements(target), scope));
        return i;
      }
    }
    return -1;
  }

  lemma FirstIsLeast(target: seq<FieldCell>, i: nat, s: set<FieldCell>)
    requires Sorted(target) && IdsDetermine(Elements(target)) && i < |target| && s <= Elements(target)
    requires target[i] in s && forall j | 0 <= j < i :: target[j] !in s
    ensures IdsDetermine(s) && target[i] == Least(s)
  {
    hide StableLess;
    forall d | d in s && d != target[i] ensures StableLess(target[i], d) {
      var j :| 0 <= j < |target| && target[j] == d;
    }
    LeastIsUnique(target[i], s);
  }

  lemma LastIsGreatest(target: seq<FieldCell>, i: nat, s: set<FieldCell>)
    requires Sorted(target) && IdsDetermine(Elements(target)) && i < |target| && s <= Elements(target)
    requires target[i] in s && forall j | i < j < |target| :: target[j] !in s
    ensures IdsDetermine(s) && target[i] == Greatest(s)
  {
    hide StableLess;
    forall d | d in s && d != target[i] ensures StableLess(d, target[i]) {
      var j :| 0 <= j < |target| && target[j] == d;
    }
    GreatestIsUnique(target[i], s);
  }

  method CountScope(target: seq<FieldCell>, cell: FieldCell) returns (n: nat)
    requires Sorted(target)
    ensures n == |InScope(Elements(target), ScopeOf(cell))|
  {
    hide Sorted;
    hide StableLess;
    n := 0;
    ghost var counted: set<FieldCell> := {};
    SortedHasNoRepeats(target);
    for i := 0 to |target|
      invariant n == |counted|
      invariant forall c :: c in counted <==> exists j | 0 <= j < i :: target[j] == c && ScopeOf(c) == ScopeOf(cell)
    {
      if ScopeOf(target[i]) == ScopeOf(cell) {
        assert target[i] !in counted;
        counted := counted + {target[i]};
        n := n + 1;
      }
    }
    assert counted == InScope(Elements(target), ScopeOf(cell));
  }

  // ----- sorting -----

  /** `std::sort` of cells with different ids. */
  method SortCells(cells: seq<FieldCell>) returns (sorted: seq<FieldCell>)
    requires IdsDetermine(Elements(cells)) && forall i, j | 0 <= i < j < |cells| :: cells[i] != cells[j]
    ensures Sorted(sorted) && Elements(sorted) == Elements(cells)
  {
    hide StableLess;
    sorted := [];
    for i := 0 to |cells|
      invariant Sorted(sorted) && Elements(sorted) == Elements(cells[..i])
    {
      var c := cells[i];
      assert cells[..i + 1] == cells[..i] + [c];
      var at := 0;
      while at < |sorted| && StableLess(sorted[at], c)
        invariant 0 <= at <= |sorted|
        invariant forall j | 0 <= j < at :: StableLess(sorted[j], c)
      {
        at := at + 1;
      }
      FreshCell(cells, i, sorted);
      InsertKeepsSorted(sorted, at, c);
      sorted := sorted[..at] + [c] + sorted[at..];
    }
    assert cells[..|cells|] == cells;
  }

  lemma FreshCell(cells: seq<FieldCell>, i: nat, sorted: seq<FieldCell>)
    requires IdsDetermine(Elements(cells)) && forall i, j | 0 <= i < j < |cells| :: cells[i] != cells[j]
    requires i < |cells| && Elements(sorted) == Elements(cells[..i])
    ensures forall j | 0 <= j < |sorted| :: sorted[j].id != cells[i].id
  {
    forall j | 0 <= j < |sorted| ensures sorted[j].id != cells[i].id {
      assert sorted[j] in Elements(cells[..i]);
      var k :| 0 <= k < i && cells[k] == sorted[j];
      assert cells[k] in Elements(cells) && cells[i] in Elements(cells);
    }
  }

  lemma InsertKeepsSorted(sorted: seq<FieldCell>, at: nat, c: FieldCell)
    requires Sorted(sorted) && at <= |sorted| && forall j | 0 <= j < |sorted| :: sorted[j].id != c.id
    requires forall j | 0 <= j < at :: StableLess(sorted[j], c)
    requires at < |sorted| ==> !StableLess(sorted[at], c)
    ensures Sorted(sorted[..at] + [c] + sorted[at..])
    ensures Elements(sorted[..at] + [c] + sorted[at..]) == Elements(sorted) + {c}
  {
    hide StableLess;
    forall j | at <= j < |sorted| ensures StableLess(c, sorted[j]) {
      StableOrderIsTotal(c, sorted[at]);
      if j > at { StableOrderIsTransitive(c, sorted[at], sorted[j]); }
    }
    assert sorted == sorted[..at] + sorted[at..];
  }
}
