/** Field cells, the stable order on them, and lists sorted by it. */
module FieldCells {
  import opened Bytes
  import opened CborValue

  type int32 = x: int | -0x8000_0000 <= x < 0x8000_0000

  datatype Sensitivity = Public | Normal | Sensitive | SecretReference

  datatype Provenance = Provenance(
    producer: bytes, generation: uint64, epoch: uint64, pathIndex: uint64, outputPort: bytes,
    inputCells: seq<bytes>, inputPhotons: seq<bytes>, assemblyHash: bytes)

  datatype FieldCell = FieldCell(
    id: bytes, band: bytes, schema: bytes, key: bytes, value: Value, priority: int32, surface: bool,
    sensitivity: Sensitivity, producerTrust: byte, allowedAudiences: seq<bytes>, redactionPolicy: bytes,
    exportable: bool, transientHandle: bool, provenance: Provenance)

  /** `stable_cell_less`: higher priority first, then path, key and id. */
  predicate StableLess(left: FieldCell, right: FieldCell) {
    if left.priority != right.priority then left.priority > right.priority
    else if left.provenance.pathIndex != right.provenance.pathIndex then
      left.provenance.pathIndex < right.provenance.pathIndex
    else if left.key != right.key then LexLess(left.key, right.key)
    else LexLess(left.id, right.id)
  }

  /** Only cells with the same id can be neither before nor after each other. */
  lemma StableOrderIsTotal(a: FieldCell, b: FieldCell)
    ensures a.id != b.id ==> StableLess(a, b) || StableLess(b, a)
    ensures !(StableLess(a, b) && StableLess(b, a)) && !StableLess(a, a)
  {
    LexTrichotomy(a.key, b.key);
    LexTrichotomy(a.id, b.id);
    LexTrichotomy(a.id, a.id);
  }

  lemma StableOrderIsTransitive(a: FieldCell, b: FieldCell, c: FieldCell)
    requires StableLess(a, b) && StableLess(b, c)
    ensures StableLess(a, c)
  {
    if a.key != b.key && b.key != c.key && LexLess(a.key, b.key) && LexLess(b.key, c.key) {
      LexTransitive(a.key, b.key, c.key);
      LexTrichotomy(a.key, c.key);
    }
    if LexLess(a.id, b.id) && LexLess(b.id, c.id) {
      LexTransitive(a.id, b.id, c.id);
    }
  }

  /** Falling priority, then rising path, then keys and at last ids in byte order. */
  ghost predicate ComesFirst(a: FieldCell, b: FieldCell) {
    || a.priority > b.priority
    || (a.priority == b.priority && a.provenance.pathIndex < b.provenance.pathIndex)
    || (a.priority == b.priority && a.provenance.pathIndex == b.provenance.pathIndex && BytesBefore(a.key, b.key))
    || (a.priority == b.priority && a.provenance.pathIndex == b.provenance.pathIndex && a.key == b.key
        && BytesBefore(a.id, b.id))
  }

  lemma StableOrderByFields(a: FieldCell, b: FieldCell)
    ensures StableLess(a, b) <==> ComesFirst(a, b)
  {
    hide BytesBefore;
    LexDecides(a.key, b.key);
    LexDecides(a.id, b.id);
    LexTrichotomy(a.key, a.key);
  }

  lemma SortedByFields(cells: seq<FieldCell>)
    ensures Sorted(cells) <==> forall i, j | 0 <= i < j < |cells| :: ComesFirst(cells[i], cells[j])
  {
    hide StableLess, ComesFirst;
    forall i, j | 0 <= i < j < |cells| ensures StableLess(cells[i], cells[j]) <==> ComesFirst(cells[i], cells[j]) {
      StableOrderByFields(cells[i], cells[j]);
    }
  }

  // ----- sets of cells with distinct ids -----

  /** Equal ids mean equal cells. */
  ghost predicate IdsDetermine(s: set<FieldCell>) {
    forall c, d | c in s && d in s && c.id == d.id :: c == d
  }

  ghost predicate IsLeast(c: FieldCell, s: set<FieldCell>) {
    c in s && forall d | d in s && d != c :: StableLess(c, d)
  }

  ghost predicate IsGreatest(c: FieldCell, s: set<FieldCell>) {
    c in s && forall d | d in s && d != c :: StableLess(d, c)
  }

  lemma {:induction false} ExtremesExist(s: set<FieldCell>)
    requires s != {} && IdsDetermine(s)
    ensures (exists c :: IsLeast(c, s)) && (exists c :: IsGreatest(c, s))
    decreases |s|
  {
    hide StableLess;
    var x :| x in s;
    var rest := s - {x};
    if rest == {} {
      assert s == rest + {x};
      assert IsLeast(x, s) && IsGreatest(x, s);
    } else {
      ExtremesExist(rest);
      var l :| IsLeast(l, rest);
      var g :| IsGreatest(g, rest);
      LeastOfTwo(s, x, l);
      GreatestOfTwo(s, x, g);
    }
  }

  lemma LeastOfTwo(s: set<FieldCell>, x: FieldCell, l: FieldCell)
    requires IdsDetermine(s) && x in s && IsLeast(l, s - {x})
    ensures exists c :: IsLeast(c, s)
  {
    hide StableLess;
    StableOrderIsTotal(x, l);
    if StableLess(x, l) {
      forall d | d in s && d != x ensures StableLess(x, d) {
        if d != l { StableOrderIsTransitive(x, l, d); }
      }
      assert IsLeast(x, s);
    } else {
      assert IsLeast(l, s);
    }
  }

  lemma GreatestOfTwo(s: set<FieldCell>, x: FieldCell, g: FieldCell)
    requires IdsDetermine(s) && x in s && IsGreatest(g, s - {x})
    ensures exists c :: IsGreatest(c, s)
  {
    hide StableLess;
    StableOrderIsTotal(x, g);
    if StableLess(g, x) {
      forall d | d in s && d != x ensures StableLess(d, x) {
        if d != g { StableOrderIsTransitive(d, g, x); }
      }
      assert IsGreatest(x, s);
    } else {
      assert IsGreatest(g, s);
    }
  }

  ghost function Least(s: set<FieldCell>): (c: FieldCell)
    requires s != {} && IdsDetermine(s)
    ensures IsLeast(c, s)
  {
    ExtremesExist(s);
    var c :| IsLeast(c, s);
    c
  }

  ghost function Greatest(s: set<FieldCell>): (c: FieldCell)
    requires s != {} && IdsDetermine(s)
    ensures IsGreatest(c, s)
  {
    ExtremesExist(s);
    var c :| IsGreatest(c, s);
    c
  }

  lemma LeastIsUnique(c: FieldCell, s: set<FieldCell>)
    requires IdsDetermine(s) && IsLeast(c, s)
    ensures c == Least(s)
  {
    StableOrderIsTotal(c, Least(s));
  }

  lemma GreatestIsUnique(c: FieldCell, s: set<FieldCell>)
    requires IdsDetermine(s) && IsGreatest(c, s)
    ensures c == Greatest(s)
  {
    StableOrderIsTotal(c, Greatest(s));
  }

  // ----- sorted lists -----

  function Elements(cells: seq<FieldCell>): set<FieldCell> {
    set c | c in cells
  }

  ghost predicate Sorted(cells: seq<FieldCell>) {
    forall i, j | 0 <= i < j < |cells| :: StableLess(cells[i], cells[j])
  }

  lemma SortedHasNoRepeats(cells: seq<FieldCell>)
    requires Sorted(cells)
    ensures |Elements(cells)| == |cells|
    ensures forall i, j | 0 <= i < j < |cells| :: cells[i] != cells[j]
  {
    hide StableLess;
    forall i, j | 0 <= i < j < |cells| ensures cells[i] != cells[j] {
      StableOrderIsTotal(cells[i], cells[j]);
    }
    DistinctCount(cells);
  }

  lemma {:induction false} DistinctCount(cells: seq<FieldCell>)
    requires forall i, j | 0 <= i < j < |cells| :: cells[i] != cells[j]
    ensures |Elements(cells)| == |cells|
  {
    if cells != [] {
      var rest := cells[1..];
      DistinctCount(rest);
      assert cells == [cells[0]] + rest;
      assert Elements(cells) == {cells[0]} + Elements(rest);
    }
  }

  /** A set of cells has one sorted list. */
  lemma {:induction false} SortedListIsUnique(a: seq<FieldCell>, b: seq<FieldCell>)
    requires Sorted(a) && Sorted(b) && Elements(a) == Elements(b)
    ensures a == b
  {
    hide StableLess;
    SortedHasNoRepeats(a);
    SortedHasNoRepeats(b);
    if a != [] {
      assert a[0] in Elements(b) && b[0] in Elements(a);
      if a[0] != b[0] {
        var i :| 0 <= i < |b| && b[i] == a[0];
        var j :| 0 <= j < |a| && a[j] == b[0];
        assert StableLess(a[0], a[j]) && StableLess(b[0], b[i]);
        StableOrderIsTotal(a[0], b[0]);
      }
      assert a == [a[0]] + a[1..] && b == [b[0]] + b[1..];
      assert Elements(a[1..]) == Elements(a) - {a[0]} by { TailElements(a); }
      assert Elements(b[1..]) == Elements(b) - {b[0]} by { TailElements(b); }
      SortedListIsUnique(a[1..], b[1..]);
    }
  }

  lemma TailElements(cells: seq<FieldCell>)
    requires Sorted(cells) && cells != []
    ensures Elements(cells[1..]) == Elements(cells) - {cells[0]}
  {
    hide StableLess;
    SortedHasNoRepeats(cells);
    assert cells == [cells[0]] + cells[1..];
    assert forall i | 0 <= i < |cells[1..]| :: cells[1..][i] == cells[i + 1];
  }

  // ----- scopes -----

  /** Cells compete inside one band, for one producer and one output port. */
  datatype Scope = Scope(band: bytes, producer: bytes, port: bytes)

  function ScopeOf(c: FieldCell): Scope {
    Scope(c.band, c.provenance.producer, c.provenance.outputPort)
  }

  function InScope(s: set<FieldCell>, scope: Scope): set<FieldCell> {
    set c | c in s && ScopeOf(c) == scope
  }

  /** Same schema, key and value; comparing encodings is comparing values. */
  predicate SameValue(a: FieldCell, b: FieldCell) {
    a.schema == b.schema && a.key == b.key && a.value == b.value
  }
}
