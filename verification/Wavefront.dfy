/** The store of field cells: sorted bands, an index of ids and a byte count, updated in place. */
module Wavefront {
  import opened Basics
  import opened Bytes
  import CborValue
  import opened FieldCells
  import opened MergeLaws
  import opened BandLists
  import MergeRuns

  datatype Result = Ok(changed: bool) | Failed(error: Merged)

  /** What a merge is going to do to the band. */
  datatype Plan = Keep | Refuse(error: Merged) | ReplaceAt(at: nat) | AddTo(scopedCount: nat)

  /** A plan for the cells `t` of a scope, in the band `target`, does what the law says. */
  ghost predicate Fulfils(plan: Plan, target: seq<FieldCell>, t: set<FieldCell>, c: FieldCell, p: Policy)
    requires IdsDetermine(t + {c})
  {
    match plan
    case Keep => MergeInto(t, c, p) == Done(false, t)
    case Refuse(error) => MergeInto(t, c, p) == error && !error.Done?
    case ReplaceAt(at) =>
      at < |target| && target[at] in t && MergeInto(t, c, p) == Done(true, t - {target[at]} + {c})
    case AddTo(n) =>
      n == |t| && MergeInto(t, c, p) ==
        if p.law.TopK? && p.limit > 0 then Done(c in TopKeep(t + {c}, p.limit), TopKeep(t + {c}, p.limit))
        else Done(true, t + {c})
  }

  const ACT_PROPOSAL: bytes := [97, 99, 116, 46, 112, 114, 111, 112, 111, 115, 97, 108]

  /** For each lens, the law and the limit of each of its output ports. */
  type Manifests = map<bytes, map<bytes, Policy>>

  /** What the propagator merges a scope under: proposals by key, undeclared ports as sets up to the budget. */
  function AssemblyPolicies(manifests: Manifests, maxCells: nat): MergeRuns.Policies {
    (scope: Scope) =>
      var outputs := if scope.producer in manifests then manifests[scope.producer] else map[];
      var declared := if scope.port in outputs then outputs[scope.port] else Policy(SetUnion, maxCells);
      if scope.band == ACT_PROPOSAL then declared.(law := MapUnionUnique) else declared
  }

  datatype Round = MergeFailed | BudgetExceeded | Completed(changed: bool)

  class Wavefront {
    var bands: Bands
    var ids: set<bytes>
    var byteCount: nat

    /** The stored cells. */
    ghost function Cells(): set<FieldCell>
      reads this
    {
      CellsOf(bands)
    }

    /** The bands are sorted, ids are distinct, the index and the byte count are those of the cells. */
    ghost predicate Consistent()
      reads this
    {
      && Filed(bands) && IdsDetermine(Cells()) && AllRepresentable(Cells())
      && ids == IdsOf(Cells()) && byteCount == TotalSize(Cells())
    }

    ghost predicate Valid()
      reads this
    {
      Consistent() && forall b | b in bands :: bands[b] != []
    }

    constructor ()
      ensures Valid() && Cells() == {}
    {
      bands, ids, byteCount := map[], {}, 0;
    }

    /** One cell in: into its band, then sorted. */
    method Store(cell: FieldCell)
      requires Consistent() && cell.id !in ids && CborValue.Representable(cell.value)
      modifies this
      ensures Consistent() && Cells() == old(Cells()) + {cell}
      ensures bands.Keys == old(bands.Keys) + {cell.band} && bands[cell.band] != []
      ensures forall b | b in old(bands) && b != cell.band :: bands[b] == old(bands)[b]
    {
      hide StableLess;
      hide Size;
      hide Sorted;
      hide Filed;
      hide IdsDetermine;
      hide CellsOf;
      hide IdsOf;
      hide AllRepresentable;
      var target := At(bands, cell.band);
      AppendIsFresh(bands, cell);
      var sorted := SortCells(target + [cell]);
      CellAdded(bands, cell, sorted);
      var size := EncodedSize(cell);
      bands := bands[cell.band := sorted];
      ids := ids + {cell.id};
      byteCount := byteCount + size;
    }

    /** One cell out of its band. */
    method Drop(band: bytes, at: nat)
      requires Consistent() && band in bands && at < |bands[band]|
      modifies this
      ensures var c := old(bands)[band][at];
        && c in old(Cells()) && Consistent() && Cells() == old(Cells()) - {c}
      ensures bands == old(bands)[band := old(bands)[band][..at] + old(bands)[band][at + 1..]]
    {
      hide StableLess;
      hide Size;
      hide Sorted;
      hide Filed;
      hide IdsDetermine;
      hide CellsOf;
      hide IdsOf;
      hide AllRepresentable;
      var target := bands[band];
      CellRemoved(bands, band, at);
      var size := EncodedSize(target[at]);
      bands := bands[band := target[..at] + target[at + 1..]];
      ids := ids - {target[at].id};
      byteCount := byteCount - size;
    }

    /** The worst cell of a scope that holds more than one goes. */
    method DropWorst(scope: Scope)
      requires Valid() && |InScope(Cells(), scope)| >= 2
      modifies this
      ensures Valid()
      ensures var t := InScope(old(Cells()), scope);
        t != {} && IdsDetermine(t) && Cells() == old(Cells()) - {Greatest(t)}
    {
      hide StableLess;
      hide Sorted;
      hide Filed;
      hide IdsDetermine;
      hide CellsOf;
      hide AllRepresentable;
      hide IdsOf;
      hide TotalSize;
      hide InScope;
      BandContext(bands, scope);
      var target := At(bands, scope.band);
      var worst := FindWorst(target, scope);
      WorstIsNotAlone(target, scope);
      Drop(scope.band, worst);
    }

    /** While the scope holds too many, its worst goes. */
    method Trim(scope: Scope, count: nat, maxCells: nat)
      requires Valid() && maxCells > 0 && count == |InScope(Cells(), scope)|
      modifies this
      ensures Valid()
      ensures var t := InScope(old(Cells()), scope);
        IdsDetermine(t) && Cells() == old(Cells()) - t + TopKeep(t, maxCells)
    {
      hide Consistent;
      hide StableLess;
      hide CellsOf;
      ghost var s := Cells();
      ghost var t := InScope(s, scope);
      var left := count;
      CellsHaveIds();
      ScopeSubset(s, scope);
      assert s - t + t == s;
      while left > maxCells
        invariant Valid() && left == |InScope(Cells(), scope)|
        invariant Cells() <= s && Cells() == s - t + InScope(Cells(), scope)
        invariant InScope(Cells(), scope) <= t
        invariant TopKeep(InScope(Cells(), scope), maxCells) == TopKeep(t, maxCells)
      {
        ghost var before := Cells();
        DropWorst(scope);
        OneLess(s, t, before, scope);
        left := left - 1;
      }
    }

    lemma CellsHaveIds()
      requires Valid()
      ensures IdsDetermine(Cells())
    {
    }

    lemma IndexTells()
      requires Consistent()
      ensures IdsDetermine(Cells()) && ids == IdsOf(Cells())
    {
    }

    /** What the law makes of a cell with a new id, before anything is stored. */
    method Decide(target: seq<FieldCell>, cell: FieldCell, law: Law, maxCells: nat) returns (plan: Plan)
      requires Sorted(target) && IdsDetermine(Elements(target)) && AllRepresentable(Elements(target))
      requires CborValue.Representable(cell.value) && IdsDetermine(InScope(Elements(target), ScopeOf(cell)) + {cell})
      ensures Fulfils(plan, target, InScope(Elements(target), ScopeOf(cell)), cell, Policy(law, maxCells))
    {
      hide Sorted;
      hide StableLess;
      hide IdsDetermine;
      hide AllRepresentable;
      hide SameValue;
      hide HasValue;
      hide WithKey;
      hide TopKeep;
      hide InScope;
      hide CborValue.Representable;
      if law.SetUnion? || law.TopK? {
        var found := AnyAlike(target, cell);
        if found { return Keep; }
      }
      if law.MapUnionUnique? {
        var conflict := FindKey(target, cell);
        if conflict >= 0 {
          InBand(target, conflict);
          var alike := Alike(target[conflict], cell);
          if alike { return Keep; }
          return Refuse(KeyConflict);
        }
      }
      var scopedCount := CountScope(target, cell);
      if (law.OptionalSingle? || law.Product?) && scopedCount > 0 {
        var existing := FindScope(target, cell);
        InBand(target, existing);
        var alike := Alike(target[existing], cell);
        if alike { return Keep; }
        return Refuse(SingleConflict);
      }
      if law.PriorityThenPath? {
        var existing := FindKey(target, cell);
        if existing >= 0 {
          if !StableLess(cell, target[existing]) { return Keep; }
          KeyedAreIn(InScope(Elements(target), ScopeOf(cell)), cell.key);
          return ReplaceAt(existing);
        }
      }
      if !law.TopK? && maxCells > 0 && scopedCount >= maxCells { return Refuse(OverBudget); }
      return AddTo(scopedCount);
    }

    /**
     * `Wavefront::merge`: what is stored, what is reported and what fails are those of the law; an
     * error changes nothing. A new band is there, empty, before the law is consulted; the cell then goes into it.
     */
    method Merge(cell: FieldCell, law: Law, maxCells: nat) returns (r: Result)
      requires Valid() && CborValue.Representable(cell.value)
      modifies this
      ensures Valid()
      ensures var m := MergeLaws.Merge(old(Cells()), cell, Policy(law, maxCells));
        if m.Done? then r == Ok(m.changed) && Cells() == m.cells
        else r == Failed(m) && bands == old(bands) && ids == old(ids) && byteCount == old(byteCount)
    {
      hide Sorted;
      hide StableLess;
      hide Filed;
      hide IdsDetermine;
      hide CellsOf;
      hide AllRepresentable;
      hide TotalSize;
      hide MergeInto;
      hide TopKeep;
      hide InScope;
      if cell.id in ids {
        KnownId(Cells(), cell);
        return Ok(false);
      }
      ghost var s := Cells();
      var scope := ScopeOf(cell);
      NewId(s, cell);
      EmptyBandAdded(bands, cell.band);
      if cell.band !in bands {
        bands := bands[cell.band := []];
      }
      BandContext(bands, scope);
      var target := bands[cell.band];
      var plan := Decide(target, cell, law, maxCells);
      if target == [] {
        NothingToMergeWith(target, scope, plan, cell, Policy(law, maxCells));
      }
      match plan
      case Keep => r := Ok(false);
      case Refuse(error) => r := Failed(error);
      case ReplaceAt(existing) =>
        Replace(target, existing, cell);
        ReplacedInScope(s, cell, target[existing]);
        r := Ok(true);
      case AddTo(scopedCount) => r := Admit(cell, law.TopK?, scopedCount, maxCells);
    }

    /** The new cell is stored; under `top_k` its scope is trimmed, perhaps of that very cell. */
    method Admit(cell: FieldCell, topK: bool, scopedCount: nat, maxCells: nat) returns (r: Result)
      requires Consistent() && CborValue.Representable(cell.value) && cell.id !in ids
      requires forall b | b in bands && b != cell.band :: bands[b] != []
      requires scopedCount == |InScope(Cells(), ScopeOf(cell))|
      modifies this
      ensures Valid()
      ensures var s := old(Cells());
        var t := InScope(s, ScopeOf(cell));
        IdsDetermine(t + {cell}) &&
        var kept := if topK && maxCells > 0 then TopKeep(t + {cell}, maxCells) else t + {cell};
        r == Ok(cell in kept) && Cells() == s - t + kept
    {
      hide Sorted;
      hide StableLess;
      hide Filed;
      hide CellsOf;
      hide AllRepresentable;
      hide TotalSize;
      hide InScope;
      hide TopKeep;
      hide IdsDetermine;
      hide IdsOf;
      hide Consistent;
      hide Cells;
      ghost var s := Cells();
      ghost var t := InScope(s, ScopeOf(cell));
      ghost var kept := t + {cell};
      IndexTells();
      NewId(s, cell);
      Store(cell);
      assert Valid() && Cells() == s + {cell};
      hide Valid;
      StoredInScope(s, cell);
      if topK && maxCells > 0 {
        kept := TopKeep(t + {cell}, maxCells);
        Trim(ScopeOf(cell), scopedCount + 1, maxCells);
      }
      IndexTells();
      KeptOrNot(s, cell, kept);
      r := Ok(cell.id in ids);
    }

    /**
     * The propagator's round for one lens: its cells are merged, each under the law and limit of its output
     * port, and then the budgets of the assembly are looked at; `past` is everything merged before.
     */
    method MergeEach(ghost past: seq<FieldCell>, cells: seq<FieldCell>, lens: bytes, manifests: Manifests,
                     maxCells: nat, maxBytes: nat)
        returns (round: Round)
      requires Valid() && AllRepresentable(Elements(cells)) && lens in manifests
      requires forall c | c in cells :: c.provenance.producer == lens
      requires MergeRuns.MergeAll(past, AssemblyPolicies(manifests, maxCells)) == MergeRuns.Held(Cells())
      modifies this
      ensures Valid()
      ensures var run := MergeRuns.MergeAll(past + cells, AssemblyPolicies(manifests, maxCells));
        && (round.MergeFailed? <==> run.Rejected?)
        && (!round.MergeFailed? ==> run == MergeRuns.Held(Cells()))
      ensures round.BudgetExceeded? <==>
        !round.MergeFailed? && (|Cells()| > maxCells || TotalSize(Cells()) > maxBytes)
      ensures round == Completed(false) ==> Cells() == old(Cells())
    {
      hide MergeLaws.Merge;
      hide MergeRuns.MergeAll;
      hide CellsOf;
      ghost var policies := AssemblyPolicies(manifests, maxCells);
      var outputs := manifests[lens];
      var anyChanged := false;
      assert past + cells[..0] == past;
      for i := 0 to |cells|
        invariant Valid() && MergeRuns.MergeAll(past + cells[..i], policies) == MergeRuns.Held(Cells())
        invariant !anyChanged ==> Cells() == old(Cells())
      {
        var c := cells[i];
        assert c in Elements(cells);
        CellsHaveIds();
        MergedOneMore(past, cells, i, policies);
        ReportIsTrue(past + cells[..i], c, policies);
        var port := c.provenance.outputPort;
        var declared := if port in outputs then outputs[port].law else SetUnion;
        var law := if c.band == ACT_PROPOSAL then MapUnionUnique else declared;
        var limit := if port in outputs then outputs[port].limit else maxCells;
        var r := Merge(c, law, limit);
        if r.Failed? {
          RejectedStays(past, cells, i + 1, policies);
          return MergeFailed;
        }
        anyChanged := anyChanged || r.changed;
      }
      assert cells[..|cells|] == cells;
      IdsCount(Cells());
      if |ids| > maxCells || byteCount > maxBytes { return BudgetExceeded; }
      return Completed(anyChanged);
    }

    /** `Wavefront::select`: the cells of one output of a producer, over all bands, in stable order. */
    method Select(producer: bytes, output: bytes) returns (result: seq<FieldCell>)
      requires Valid()
      ensures Sorted(result) && forall i, j | 0 <= i < j < |result| :: ComesFirst(result[i], result[j])
      ensures Elements(result) ==
        set c | c in Cells() && c.provenance.producer == producer && c.provenance.outputPort == output
    {
      hide Sorted;
      hide StableLess;
      hide ComesFirst;
      var found: seq<FieldCell> := [];
      var left := bands.Keys;
      while left != {}
        invariant left <= bands.Keys
        invariant Elements(found) == Selected(CellsOf(bands), bands.Keys - left, producer, output)
        invariant forall i, j | 0 <= i < j < |found| :: found[i] != found[j]
      {
        var band :| band in left;
        var cells := Matching(bands[band], producer, output);
        BandSelected(bands, left, band, found, cells, producer, output);
        found := found + cells;
        left := left - {band};
      }
      assert Elements(found) <= Cells();
      result := SortCells(found);
      SortedByFields(result);
    }

    /** The cell of the same key gives way to a lesser one; the band is sorted again. */
    method Replace(target: seq<FieldCell>, existing: nat, cell: FieldCell)
      requires Valid() && cell.id !in ids && CborValue.Representable(cell.value)
      requires target == At(bands, cell.band) && existing < |target|
      modifies this
      ensures Valid() && target[existing] in old(Cells()) && Cells() == old(Cells()) - {target[existing]} + {cell}
    {
      hide Sorted;
      hide StableLess;
      hide Filed;
      hide IdsDetermine;
      hide CellsOf;
      hide AllRepresentable;
      hide TotalSize;
      Drop(cell.band, existing);
      FewerIds(old(Cells()), Cells());
      Store(cell);
    }
  }

  ghost function Selected(s: set<FieldCell>, from: set<bytes>, producer: bytes, output: bytes): set<FieldCell> {
    set c | c in s && c.band in from && c.provenance.producer == producer && c.provenance.outputPort == output
  }

  method Matching(band: seq<FieldCell>, producer: bytes, output: bytes) returns (cells: seq<FieldCell>)
    requires Sorted(band)
    ensures Elements(cells) ==
      set c | c in band && c.provenance.producer == producer && c.provenance.outputPort == output
    ensures forall i, j | 0 <= i < j < |cells| :: cells[i] != cells[j]
  {
    hide StableLess;
    SortedHasNoRepeats(band);
    cells := [];
    for i := 0 to |band|
      invariant forall c :: c in cells <==>
        c in band[..i] && c.provenance.producer == producer && c.provenance.outputPort == output
      invariant forall j, k | 0 <= j < k < |cells| :: cells[j] != cells[k]
    {
      assert band[i] !in band[..i];
      if band[i].provenance.producer == producer && band[i].provenance.outputPort == output {
        cells := cells + [band[i]];
      }
    }
    assert band[..|band|] == band;
  }

  lemma BandSelected(bands: Bands, left: set<bytes>, band: bytes, found: seq<FieldCell>, cells: seq<FieldCell>,
                     producer: bytes, output: bytes)
    requires Filed(bands) && left <= bands.Keys && band in left
    requires Elements(found) == Selected(CellsOf(bands), bands.Keys - left, producer, output)
    requires Elements(cells) ==
      set c | c in bands[band] && c.provenance.producer == producer && c.provenance.outputPort == output
    requires forall i, j | 0 <= i < j < |found| :: found[i] != found[j]
    requires forall i, j | 0 <= i < j < |cells| :: cells[i] != cells[j]
    ensures var more := found + cells;
      && Elements(more) == Selected(CellsOf(bands), bands.Keys - (left - {band}), producer, output)
      && forall i, j | 0 <= i < j < |more| :: more[i] != more[j]
  {
    hide Sorted;
    hide StableLess;
    forall i | 0 <= i < |cells| ensures cells[i].band == band {
      assert cells[i] in Elements(cells);
    }
    forall i | 0 <= i < |found| ensures found[i].band != band {
      assert found[i] in Elements(found);
    }
    forall c ensures c in Elements(found + cells)
      <==> c in Selected(CellsOf(bands), bands.Keys - (left - {band}), producer, output)
    {
      BandOfCell(bands, c);
      assert c in Elements(found) <==> c in Selected(CellsOf(bands), bands.Keys - left, producer, output);
      assert c in Elements(cells) <==>
        c in bands[band] && c.provenance.producer == producer && c.provenance.outputPort == output;
    }
  }

  lemma MergedOneMore(past: seq<FieldCell>, cells: seq<FieldCell>, i: nat, policies: MergeRuns.Policies)
    requires i < |cells|
    ensures var run := MergeRuns.MergeAll(past + cells[..i], policies);
      run.Held? ==>
        var m := MergeLaws.Merge(run.cells, cells[i], policies(ScopeOf(cells[i])));
        MergeRuns.MergeAll(past + cells[..i + 1], policies)
          == if m.Done? then MergeRuns.Held(m.cells) else MergeRuns.Rejected(m)
  {
    hide MergeRuns.MergeAll;
    MergeRuns.LastMerge(past + cells[..i], cells[i], policies);
    assert past + cells[..i] + [cells[i]] == past + cells[..i + 1];
  }

  lemma ReportIsTrue(xs: seq<FieldCell>, c: FieldCell, policies: MergeRuns.Policies)
    ensures var run := MergeRuns.MergeAll(xs, policies);
      run.Held? ==>
        var m := MergeLaws.Merge(run.cells, c, policies(ScopeOf(c)));
        m.Done? ==> (m.changed <==> m.cells != run.cells)
  {
    hide MergeLaws.Merge;
    hide MergeRuns.MergeAll;
    hide MergeRuns.WithinPolicy;
    var run := MergeRuns.MergeAll(xs, policies);
    if run.Held? {
      MergeRuns.RunStaysWithinLimits(xs, policies);
      if MergeLaws.Merge(run.cells, c, policies(ScopeOf(c))).Done? {
        MergeRuns.MergeKeepsLimitAndReports(run.cells, c, policies(ScopeOf(c)));
      }
    }
  }

  lemma {:induction false} RejectedStays(past: seq<FieldCell>, cells: seq<FieldCell>, i: nat,
                                         policies: MergeRuns.Policies)
    requires i <= |cells|
    ensures MergeRuns.MergeAll(past + cells[..i], policies).Rejected? ==>
      MergeRuns.MergeAll(past + cells, policies).Rejected?
    decreases |cells| - i
  {
    hide MergeLaws.Merge;
    if i < |cells| {
      var more := past + cells[..i + 1];
      assert more[..|more| - 1] == past + cells[..i];
      RejectedStays(past, cells, i + 1, policies);
    } else {
      assert cells[..i] == cells;
    }
  }

  /** Distinct ids: as many as there are cells. */
  lemma {:induction false} IdsCount(s: set<FieldCell>)
    requires IdsDetermine(s)
    ensures |IdsOf(s)| == |s|
    decreases |s|
  {
    if s != {} {
      var c :| c in s;
      IdsCount(s - {c});
      assert IdsOf(s) == IdsOf(s - {c}) + {c.id};
      assert c.id !in IdsOf(s - {c});
    }
  }

  lemma EmptyBandAdded(bands: Bands, band: bytes)
    requires Filed(bands)
    ensures band !in bands ==> Filed(bands[band := []]) && CellsOf(bands[band := []]) == CellsOf(bands)
  {
    if band !in bands {
      var more := bands[band := []];
      assert forall b | b in bands :: more[b] == bands[b];
      EmptyIsSorted();
      forall c ensures c in CellsOf(more) <==> c in CellsOf(bands) {
        if c in CellsOf(bands) {
          BandOfCell(bands, c);
        }
        if c in CellsOf(more) {
          BandOfCell(more, c);
        }
      }
    }
  }

  /** Into a scope that holds nothing every law takes the cell. */
  lemma NothingToMergeWith(target: seq<FieldCell>, scope: Scope, plan: Plan, cell: FieldCell, p: Policy)
    requires target == [] && IdsDetermine(InScope(Elements(target), scope) + {cell})
    requires Fulfils(plan, target, InScope(Elements(target), scope), cell, p)
    ensures plan.AddTo?
  {
    var t := InScope(Elements(target), scope);
    assert t == {};
    assert t + {cell} == {cell} && |{cell}| == 1;
    assert WithKey(t, cell.key) == {};
    assert MergeInto(t, cell, p) == Done(true, {cell});
  }

  lemma FewerIds(all: set<FieldCell>, some: set<FieldCell>)
    requires some <= all
    ensures IdsOf(some) <= IdsOf(all)
  {
  }

  lemma KnownId(s: set<FieldCell>, cell: FieldCell)
    requires cell.id in IdsOf(s)
    ensures HasId(s, cell.id)
  {
    var d :| d in s && d.id == cell.id;
    assert d in s && d.id == cell.id;
  }

  lemma NewId(s: set<FieldCell>, cell: FieldCell)
    requires IdsDetermine(s) && cell.id !in IdsOf(s)
    ensures !HasId(s, cell.id) && cell !in s
    ensures var t := InScope(s, ScopeOf(cell));
      t <= s && IdsDetermine(t) && IdsDetermine(t + {cell}) && IdsDetermine(s + {cell})
  {
    assert forall d | d in s :: d.id in IdsOf(s);
  }

  lemma InBand(target: seq<FieldCell>, at: int)
    requires 0 <= at < |target| && AllRepresentable(Elements(target))
    ensures CborValue.Representable(target[at].value)
  {
    assert target[at] in Elements(target);
  }

  lemma KeyedAreIn(t: set<FieldCell>, key: bytes)
    ensures WithKey(t, key) <= t
  {
  }

  lemma ReplacedInScope(s: set<FieldCell>, cell: FieldCell, existing: FieldCell)
    requires cell !in s && existing in InScope(s, ScopeOf(cell))
    ensures var t := InScope(s, ScopeOf(cell)); s - {existing} + {cell} == s - t + (t - {existing} + {cell})
  {
  }

  lemma StoredInScope(s: set<FieldCell>, cell: FieldCell)
    requires cell !in s
    ensures InScope(s + {cell}, ScopeOf(cell)) == InScope(s, ScopeOf(cell)) + {cell}
    ensures |InScope(s + {cell}, ScopeOf(cell))| == |InScope(s, ScopeOf(cell))| + 1
    ensures var t := InScope(s, ScopeOf(cell));
      t <= s && s + {cell} - (t + {cell}) == s - t && s + {cell} == s - t + (t + {cell})
  {
    assert InScope(s + {cell}, ScopeOf(cell)) == InScope(s, ScopeOf(cell)) + {cell};
  }

  lemma KeptOrNot(s: set<FieldCell>, cell: FieldCell, kept: set<FieldCell>)
    requires IdsDetermine(s + {cell}) && cell !in s && kept <= InScope(s, ScopeOf(cell)) + {cell}
    ensures cell.id in IdsOf(s - InScope(s, ScopeOf(cell)) + kept) <==> cell in kept
  {
    var after := s - InScope(s, ScopeOf(cell)) + kept;
    assert forall d | d in after :: d in s + {cell};
    if cell in kept {
      assert cell in after;
    }
  }

  /** What a set of cells gains with a cell of a new id. */
  lemma SetGains(s: set<FieldCell>, cell: FieldCell)
    requires IdsDetermine(s) && AllRepresentable(s) && cell.id !in IdsOf(s) && CborValue.Representable(cell.value)
    ensures cell !in s && IdsDetermine(s + {cell}) && AllRepresentable(s + {cell})
    ensures IdsOf(s + {cell}) == IdsOf(s) + {cell.id}
    ensures TotalSize(s + {cell}) == TotalSize(s) + Size(cell)
  {
    hide Size;
    hide CborValue.Representable;
    assert forall d | d in s :: d.id in IdsOf(s);
    TotalSizeWith(s, cell);
  }

  lemma AppendElements(target: seq<FieldCell>, cell: FieldCell)
    requires Sorted(target) && cell !in target
    ensures Elements(target + [cell]) == Elements(target) + {cell}
    ensures var more := target + [cell]; forall i, j | 0 <= i < j < |more| :: more[i] != more[j]
  {
    hide StableLess;
    SortedHasNoRepeats(target);
  }

  lemma AppendIsFresh(bands: Bands, cell: FieldCell)
    requires Filed(bands) && IdsDetermine(CellsOf(bands)) && AllRepresentable(CellsOf(bands))
    requires cell.id !in IdsOf(CellsOf(bands)) && CborValue.Representable(cell.value)
    ensures var more := At(bands, cell.band) + [cell];
      && Elements(more) == Elements(At(bands, cell.band)) + {cell}
      && IdsDetermine(Elements(more))
      && forall i, j | 0 <= i < j < |more| :: more[i] != more[j]
  {
    hide AllRepresentable;
    hide Sorted;
    var target := At(bands, cell.band);
    ScopeIsInBand(bands, ScopeOf(cell));
    SetGains(CellsOf(bands), cell);
    assert Sorted(target) by { EmptyIsSorted(); }
    assert cell !in Elements(target);
    AppendElements(target, cell);
    assert Elements(target + [cell]) <= CellsOf(bands) + {cell};
  }

  lemma EmptyIsSorted()
    ensures Sorted([])
  {
  }

  lemma CellAdded(bands: Bands, cell: FieldCell, sorted: seq<FieldCell>)
    requires Filed(bands) && IdsDetermine(CellsOf(bands)) && AllRepresentable(CellsOf(bands))
    requires cell.id !in IdsOf(CellsOf(bands)) && CborValue.Representable(cell.value)
    requires Sorted(sorted) && Elements(sorted) == Elements(At(bands, cell.band)) + {cell}
    ensures var after, s := bands[cell.band := sorted], CellsOf(bands);
      && Filed(after) && CellsOf(after) == s + {cell} && IdsDetermine(CellsOf(after))
      && AllRepresentable(CellsOf(after)) && IdsOf(CellsOf(after)) == IdsOf(s) + {cell.id}
      && TotalSize(CellsOf(after)) == TotalSize(s) + Size(cell) && sorted != []
  {
    hide Sorted;
    hide Size;
    hide TotalSize;
    hide IdsOf;
    hide AllRepresentable;
    hide IdsDetermine;
    var s, target := CellsOf(bands), At(bands, cell.band);
    assert cell in Elements(sorted);
    forall i | 0 <= i < |sorted| ensures sorted[i].band == cell.band {
      assert sorted[i] in Elements(sorted);
    }
    ScopeIsInBand(bands, ScopeOf(cell));
    BandReplaced(bands, cell.band, sorted);
    assert s - Elements(target) + Elements(sorted) == s + {cell};
    SetGains(s, cell);
  }

  lemma CellRemoved(bands: Bands, band: bytes, at: nat)
    requires Filed(bands) && IdsDetermine(CellsOf(bands)) && AllRepresentable(CellsOf(bands))
    requires band in bands && at < |bands[band]|
    ensures var c, s := bands[band][at], CellsOf(bands);
      var after := bands[band := bands[band][..at] + bands[band][at + 1..]];
      && c in s && CborValue.Representable(c.value)
      && Filed(after) && CellsOf(after) == s - {c} && IdsDetermine(CellsOf(after))
      && AllRepresentable(CellsOf(after)) && IdsOf(CellsOf(after)) == IdsOf(s) - {c.id}
      && TotalSize(CellsOf(after)) == TotalSize(s) - Size(c)
  {
    hide StableLess;
    hide Size;
    hide TotalSize;
    var target, s := bands[band], CellsOf(bands);
    var c := target[at];
    RemoveKeepsSorted(target, at);
    hide Sorted;
    var rest := target[..at] + target[at + 1..];
    assert forall i | 0 <= i < |rest| :: rest[i] in target;
    BandReplaced(bands, band, rest);
    ScopeIsInBand(bands, ScopeOf(c));
    assert c in s;
    assert s - Elements(target) + Elements(rest) == s - {c};
    TotalSizeWithout(s, c);
    assert forall d | d in s && d.id == c.id :: d == c;
    assert IdsOf(s - {c}) == IdsOf(s) - {c.id};
  }

  lemma RemoveKeepsSorted(cells: seq<FieldCell>, at: nat)
    requires Sorted(cells) && at < |cells|
    ensures Sorted(cells[..at] + cells[at + 1..])
    ensures Elements(cells[..at] + cells[at + 1..]) == Elements(cells) - {cells[at]}
  {
    hide StableLess;
    SortedHasNoRepeats(cells);
    var rest := cells[..at] + cells[at + 1..];
    assert forall i | 0 <= i < |rest| :: rest[i] == if i < at then cells[i] else cells[i + 1];
    forall c | c in Elements(cells) && c != cells[at] ensures c in Elements(rest) {
      var i :| 0 <= i < |cells| && cells[i] == c;
      assert rest[if i < at then i else i - 1] == c;
    }
  }

  lemma ScopeSubset(s: set<FieldCell>, scope: Scope)
    requires IdsDetermine(s)
    ensures InScope(s, scope) <= s && IdsDetermine(InScope(s, scope))
  {
  }

  /** A band, seen from the cells of one of its scopes. */
  lemma BandContext(bands: Bands, scope: Scope)
    requires Filed(bands) && IdsDetermine(CellsOf(bands)) && AllRepresentable(CellsOf(bands))
    ensures var target := At(bands, scope.band);
      && Sorted(target) && IdsDetermine(Elements(target)) && AllRepresentable(Elements(target))
      && InScope(CellsOf(bands), scope) == InScope(Elements(target), scope)
      && Elements(target) <= CellsOf(bands)
  {
    hide StableLess;
    hide CborValue.Representable;
    ScopeIsInBand(bands, scope);
  }

  lemma WorstIsNotAlone(target: seq<FieldCell>, scope: Scope)
    requires |InScope(Elements(target), scope)| >= 2
    ensures |target| >= 2
  {
    if |target| <= 1 {
      assert InScope(Elements(target), scope) <= if target == [] then {} else {target[0]};
      SubsetSize(InScope(Elements(target), scope), if target == [] then {} else {target[0]});
    }
  }

  lemma OneLess(s: set<FieldCell>, t: set<FieldCell>, before: set<FieldCell>, scope: Scope)
    requires IdsDetermine(s) && before <= s && t <= s
    requires var u := InScope(before, scope); u != {} && u <= t && before == s - t + u
    ensures var u := InScope(before, scope);
      && IdsDetermine(u)
      && var v := InScope(before - {Greatest(u)}, scope);
      && v == u - {Greatest(u)} && |v| == |u| - 1 && before - {Greatest(u)} == s - t + v
  {
    hide StableLess;
    var u := InScope(before, scope);
    var g := Greatest(u);
    assert InScope(before - {g}, scope) == u - {g};
  }
}
