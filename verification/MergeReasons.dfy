/** Which cells compete, why a merge is refused, and under which law the propagator merges an output. */
module MergeReasons {
  import opened Basics
  import CborValue
  import CborCodec
  import opened FieldCells
  import opened MergeLaws
  import opened MergeOrder
  import opened MergeRuns
  import opened BandLists
  import opened IncidentWave
  import opened Wavefront

  // ----- which cells compete -----

  /** Of one band, one producer and one output port. */
  predicate SamePlace(c: FieldCell, d: FieldCell) {
    && c.band == d.band
    && c.provenance.producer == d.provenance.producer
    && c.provenance.outputPort == d.provenance.outputPort
  }

  /** A merge leaves every other cell alone that differs in band, producer or output port. */
  lemma OthersAreUntouched(s: set<FieldCell>, c: FieldCell, p: Policy, d: FieldCell)
    requires IdsDetermine(s) && Merge(s, c, p).Done? && d != c && !SamePlace(c, d)
    ensures d in Merge(s, c, p).cells <==> d in s
  {
    hide Merge;
    MergeStaysInScope(s, c, p);
    var r := Merge(s, c, p).cells;
    assert d in r <==> d in InScope(r, ScopeOf(d));
    assert d in s <==> d in InScope(s, ScopeOf(d));
  }

  /** Of two cells with one schema, key and value the second is dropped exactly when both are of one place. */
  lemma EqualValuesMeet(c: FieldCell, d: FieldCell)
    requires c.id != d.id && c.schema == d.schema && c.key == d.key && c.value == d.value
    ensures var run := MergeAll([c, d], (scope: Scope) => Policy(SetUnion, 0));
      run == Held(if SamePlace(c, d) then {c} else {c, d})
  {
    hide StableLess;
    var policies: Policies := (scope: Scope) => Policy(SetUnion, 0);
    assert MergeAll([], policies) == Held({}) && InScope({}, ScopeOf(c)) == {};
    LastMerge([], c, policies);
    LastMerge([c], d, policies);
    assert [] + [c] == [c] && [c] + [d] == [c, d];
    assert {} + {c} == {c} && {c} + {d} == {c, d};
    assert InScope({c}, ScopeOf(d)) == if SamePlace(c, d) then {c} else {};
    if !SamePlace(c, d) {
      assert {c} - {} + ({} + {d}) == {c, d};
    } else {
      assert SameValue(c, d);
    }
  }

  // ----- why a run of merges ends -----

  ghost predicate Confirmed(xs: seq<FieldCell>, policies: Policies, error: Merged) {
    match error
    case KeyConflict =>
      exists c, d | c in Elements(xs) && d in Elements(xs) && SamePlace(c, d) ::
        && policies(ScopeOf(c)).law.MapUnionUnique?
        && c.key == d.key && !(c.schema == d.schema && c.value == d.value)
    case SingleConflict =>
      exists c, d | c in Elements(xs) && d in Elements(xs) && SamePlace(c, d) ::
        && (policies(ScopeOf(c)).law.Product? || policies(ScopeOf(c)).law.OptionalSingle?)
        && !(c.schema == d.schema && c.key == d.key && c.value == d.value)
    case OverBudget =>
      exists c | c in Elements(xs) ::
        && !policies(ScopeOf(c)).law.TopK?
        && 0 < policies(ScopeOf(c)).limit < |set d | d in Elements(xs) && SamePlace(c, d)|
    case Done(_, _) => false
  }

  /** What a refused merge found among the cells `t` of the scope. */
  ghost predicate Found(t: set<FieldCell>, c: FieldCell, p: Policy, error: Merged) {
    match error
    case KeyConflict => p.law.MapUnionUnique? && exists e | e in t :: e.key == c.key && !SameValue(e, c)
    case SingleConflict => (p.law.Product? || p.law.OptionalSingle?) && exists e | e in t :: !SameValue(e, c)
    case OverBudget => !p.law.TopK? && 0 < p.limit <= |t|
    case Done(_, _) => false
  }

  lemma RefusalIsFound(t: set<FieldCell>, c: FieldCell, p: Policy)
    requires IdsDetermine(t + {c}) && !MergeInto(t, c, p).Done?
    ensures Found(t, c, p, MergeInto(t, c, p))
  {
    hide StableLess, SameValue, TopKeep;
    if MergeInto(t, c, p).KeyConflict? {
      assert Least(WithKey(t, c.key)) in t;
    } else if MergeInto(t, c, p).SingleConflict? {
      assert Least(t) in t;
    }
  }

  lemma RefusedInScope(s: set<FieldCell>, c: FieldCell, p: Policy)
    requires IdsDetermine(s) && !Merge(s, c, p).Done?
    ensures !HasId(s, c.id) && c !in s && Found(InScope(s, ScopeOf(c)), c, p, Merge(s, c, p))
  {
    hide StableLess, Found, TopKeep;
    assert IdsDetermine(InScope(s, ScopeOf(c)) + {c});
    assert Merge(s, c, p) == MergeInto(InScope(s, ScopeOf(c)), c, p);
    hide MergeInto;
    RefusalIsFound(InScope(s, ScopeOf(c)), c, p);
  }

  /** The error of a merge is true of the cells stored and the new one. */
  lemma RefusalIsTrue(xs: seq<FieldCell>, c: FieldCell, policies: Policies)
    requires MergeAll(xs, policies).Held?
    requires !Merge(MergeAll(xs, policies).cells, c, policies(ScopeOf(c))).Done?
    ensures Confirmed(xs + [c], policies, Merge(MergeAll(xs, policies).cells, c, policies(ScopeOf(c))))
  {
    hide StableLess, MergeAll, IdsDetermine, Merge, MergeInto, SamePlace;
    var s, p := MergeAll(xs, policies).cells, policies(ScopeOf(c));
    var t, error := InScope(s, ScopeOf(c)), Merge(s, c, p);
    RefusedInScope(s, c, p);
    SameAsSnoc(xs, c);
    var all := Elements(xs + [c]);
    assert t <= all && c in all;
    forall d | d in t ensures SamePlace(d, c) && SamePlace(c, d) && ScopeOf(d) == ScopeOf(c) {
      SamePlaceIsScope(c, d);
    }
    match error {
      case OverBudget =>
        assert |t + {c}| == |t| + 1;
        var arrived := set d | d in all && SamePlace(c, d);
        SamePlaceIsScope(c, c);
        assert t + {c} <= arrived;
        SubsetSize(t + {c}, arrived);
      case KeyConflict =>
        var e :| e in t && e.key == c.key && !SameValue(e, c);
        assert e in all && SamePlace(e, c);
      case SingleConflict =>
        var e :| e in t && !SameValue(e, c);
        assert e in all && SamePlace(e, c);
    }
  }

  lemma SamePlaceIsScope(c: FieldCell, d: FieldCell)
    ensures SamePlace(c, d) <==> ScopeOf(c) == ScopeOf(d)
    ensures SamePlace(d, c) <==> SamePlace(c, d)
  {
  }

  lemma SameAsSnoc(xs: seq<FieldCell>, c: FieldCell)
    ensures Elements(xs + [c]) == Elements(xs) + {c}
  {
  }

  /**
   * The error a run ends with is true of what has arrived: two cells of one key and different schema or value, two
   * different cells where one value is allowed, or more cells in one place than its limit.
   */
  lemma {:induction false} RejectionIsTrue(xs: seq<FieldCell>, policies: Policies)
    requires IdsDetermine(Elements(xs)) && MergeAll(xs, policies).Rejected?
    ensures Confirmed(xs, policies, MergeAll(xs, policies).error)
  {
    hide Merge, Confirmed;
    var init, c := xs[..|xs| - 1], xs[|xs| - 1];
    assert xs == init + [c];
    SameAsSnoc(init, c);
    if MergeAll(init, policies).Rejected? {
      RejectionIsTrue(init, policies);
      ConfirmedStays(init, c, policies, MergeAll(init, policies).error);
    } else {
      RefusalIsTrue(init, c, policies);
    }
  }

  lemma ConfirmedStays(xs: seq<FieldCell>, c: FieldCell, policies: Policies, error: Merged)
    requires Confirmed(xs, policies, error)
    ensures Confirmed(xs + [c], policies, error)
  {
    hide SamePlace;
    SameAsSnoc(xs, c);
    if error.OverBudget? {
      var e :| e in Elements(xs) && !policies(ScopeOf(e)).law.TopK?
        && 0 < policies(ScopeOf(e)).limit < |set d | d in Elements(xs) && SamePlace(e, d)|;
      SubsetSize((set d | d in Elements(xs) && SamePlace(e, d)), (set d | d in Elements(xs + [c]) && SamePlace(e, d)));
    }
  }

  /** Why connecting is refused, for every law that takes several cells. */
  lemma ConnectRefusal(l: seq<FieldCell>, spec: PortSpec)
    requires Arranged(l) && IdsDetermine(Elements(l)) && Plural(spec)
    ensures var r, n := ConnectArranged(l, spec), Retained(Elements(l), PolicyOf(spec));
      && (r == MapConflict <==> spec.law.MapUnionUnique? && !KeysAgree(Elements(l)))
      && (r == TooMany <==> r != MapConflict && spec.cardinality.One? && n > 1)
      && (r == TooLarge <==> r != MapConflict && r != TooMany && n > spec.maxCells)
  {
    hide StableLess, Sorted, Arranged, UniqueIds, FirstPerKey, FirstPerValue, LeastPerKey, OnePerValue, KeysAgree;
    hide Keys, Values, Elements, Conflicting;
    var u := UniqueIds(l);
    UniqueIdsSorts(l);
    CountSorted(u);
    match spec.law
    case SetUnion => ConnectPerValue(u);
    case TopK => ConnectPerValue(u);
    case MapUnionUnique =>
      ConflictIsDisagreement(u);
      ConnectPerKey(u);
    case PriorityThenPath => ConnectPerKey(u);
    case StableConcat =>
  }

  // ----- outputs of a lens -----

  /** The law and limit a cell is merged under, by its band, its producer and its output port. */
  lemma PolicyOfOutput(manifests: Manifests, maxCells: nat, c: FieldCell)
    ensures var p := AssemblyPolicies(manifests, maxCells)(ScopeOf(c));
      var lens, port := c.provenance.producer, c.provenance.outputPort;
      && (lens in manifests && port in manifests[lens] ==> p.limit == manifests[lens][port].limit)
      && (lens in manifests && port in manifests[lens] && !Proposed(c) ==> p.law == manifests[lens][port].law)
      && (!(lens in manifests && port in manifests[lens]) ==> p.limit == maxCells)
      && (!(lens in manifests && port in manifests[lens]) && !Proposed(c) ==> p.law == SetUnion)
      && (Proposed(c) ==> p.law == MapUnionUnique)
  {
  }

  /** The cell's band is `act.proposal`. */
  predicate Proposed(c: FieldCell) {
    |c.band| == 12 && forall i | 0 <= i < 12 :: c.band[i] == "act.proposal"[i] as int
  }

  lemma FirstOfPlace(c: FieldCell, p: Policy)
    requires p.limit >= 1 && (p.law.MapUnionUnique? || p.law.SetUnion?)
    ensures Merge({}, c, p) == Done(true, {c})
  {
    hide StableLess;
    assert InScope({}, ScopeOf(c)) == {} && WithKey({}, c.key) == {};
    assert {} + {c} == {c} && {} - {} + {c} == {c};
  }

  lemma SecondOfKey(c: FieldCell, d: FieldCell, p: Policy)
    requires c.id != d.id && ScopeOf(c) == ScopeOf(d) && c.key == d.key && c.value != d.value
    requires p.limit >= 2 && (p.law.MapUnionUnique? || p.law.SetUnion?)
    ensures Merge({c}, d, p) == if p.law.MapUnionUnique? then KeyConflict else Done(true, {c, d})
  {
    hide StableLess;
    assert InScope({c}, ScopeOf(d)) == {c};
    assert !HasId({c}, d.id) && !SameValue(c, d);
    if p.law.MapUnionUnique? {
      assert WithKey({c}, d.key) == {c};
      assert Least({c}) == c;
    } else {
      assert {c} + {d} == {c, d} && {c} - {c} + {c, d} == {c, d};
    }
  }

  /**
   * Two cells with one key and different values, from one output that no manifest declares: in the band
   * `act.proposal` the second is refused, in any other band both are held.
   */
  lemma ProposalsConflict(c: FieldCell, d: FieldCell, maxCells: nat)
    requires c.id != d.id && SamePlace(c, d) && c.key == d.key && c.value != d.value && maxCells >= 2
    ensures MergeAll([c, d], AssemblyPolicies(map[], maxCells))
      == if Proposed(c) then Rejected(KeyConflict) else Held({c, d})
  {
    var policies := AssemblyPolicies(map[], maxCells);
    PolicyOfOutput(map[], maxCells, c);
    SamePlaceIsScope(c, d);
    assert MergeAll([], policies) == Held({});
    hide AssemblyPolicies, MergeAll, Merge, Proposed, SamePlace;
    FirstOfPlace(c, policies(ScopeOf(c)));
    SecondOfKey(c, d, policies(ScopeOf(c)));
    LastMerge([], c, policies);
    LastMerge([c], d, policies);
    assert [] + [c] == [c] && [c] + [d] == [c, d];
  }

  // ----- the bytes of a wavefront -----

  /** The lengths of the encodings, summed up. */
  ghost function SumOfLengths(l: seq<FieldCell>): nat
    requires AllRepresentable(Elements(l))
  {
    if l == [] then 0
    else
      assert l[0] in Elements(l) && Elements(l[1..]) <= Elements(l);
      |CborCodec.Encode(l[0].value)| + SumOfLengths(l[1..])
  }

  lemma NotAgain(l: seq<FieldCell>)
    requires l != [] && forall i, j | 0 <= i < j < |l| :: l[i] != l[j]
    ensures l[0] !in Elements(l[1..])
  {
  }

  /** The byte count of a set of cells is the sum of the lengths of their encoded values. */
  lemma {:induction false} TotalSizeIsTheSum(l: seq<FieldCell>)
    requires AllRepresentable(Elements(l)) && forall i, j | 0 <= i < j < |l| :: l[i] != l[j]
    ensures TotalSize(Elements(l)) == SumOfLengths(l)
  {
    hide CborValue.Representable, CborCodec.Encode;
    if l != [] {
      assert l == [l[0]] + l[1..] && l[0] in Elements(l);
      assert Elements(l) == Elements(l[1..]) + {l[0]};
      hide Elements;
      TotalSizeIsTheSum(l[1..]);
      NotAgain(l);
      TotalSizeWith(Elements(l[1..]), l[0]);
    } else {
      assert Elements(l) == {};
    }
  }
}
