/** Any sequence of merges, one policy for each scope. */
module MergeRuns {
  import opened Basics
  import opened Bytes
  import CborValue
  import opened FieldCells
  import opened MergeLaws
  import opened MergeOrder

  datatype Run = Held(cells: set<FieldCell>) | Rejected(error: Merged)

  type Policies = Scope -> Policy

  lemma ElementsSnoc(xs: seq<FieldCell>)
    requires xs != []
    ensures Elements(xs) == Elements(xs[..|xs| - 1]) + {xs[|xs| - 1]}
  {
    assert xs == xs[..|xs| - 1] + [xs[|xs| - 1]];
  }

  /** The merges of `xs` in order, from nothing; the first error ends the run. */
  ghost function MergeAll(xs: seq<FieldCell>, policies: Policies): (r: Run)
    ensures r.Held? ==> IdsDetermine(r.cells) && r.cells <= Elements(xs)
  {
    if xs == [] then Held({})
    else
      var before := MergeAll(xs[..|xs| - 1], policies);
      if before.Rejected? then before
      else
        var c := xs[|xs| - 1];
        var m := Merge(before.cells, c, policies(ScopeOf(c)));
        if !m.Done? then Rejected(m)
        else
          MergeStaysInScope(before.cells, c, policies(ScopeOf(c)));
          ElementsSnoc(xs);
          Held(m.cells)
  }

  /** The arrived cells of a scope. */
  function Arrived(xs: seq<FieldCell>, scope: Scope): set<FieldCell> {
    InScope(Elements(xs), scope)
  }

  // ----- one arrival -----

  lemma StepAgrees(t: set<FieldCell>, b: set<FieldCell>, a: set<FieldCell>, c: FieldCell, p: Policy)
    requires IdsDetermine(a) && b + {c} <= a && t <= b && c !in t
    requires OrderFree(a, p) ==> StoredSoFar(t, b, a, p)
    requires Acceptable(b, p)
    ensures MergeInto(t, c, p).Done? <==> Acceptable(b + {c}, p)
    ensures MergeInto(t, c, p).Done? && OrderFree(a, p) ==> StoredSoFar(MergeInto(t, c, p).cells, b + {c}, a, p)
  {
    if p.law.TopK? {
      if OrderFree(a, p) {
        hide MergeInto;
        hide StoredSoFar;
        TopKStep(t, b, a, c, p);
      }
    } else {
      OtherStepAgrees(t, b, c, p);
    }
  }

  lemma OtherStepAgrees(t: set<FieldCell>, b: set<FieldCell>, c: FieldCell, p: Policy)
    requires !p.law.TopK? && IdsDetermine(b + {c}) && Stored(t, b, p) && t <= b && c !in t && Acceptable(b, p)
    ensures MergeInto(t, c, p).Done? <==> Acceptable(b + {c}, p)
    ensures MergeInto(t, c, p).Done? ==> Stored(MergeInto(t, c, p).cells, b + {c}, p)
  {
    hide MergeInto;
    hide LeastPerKey;
    hide OnePerValue;
    hide KeysAgree;
    hide AllAlike;
    hide Values;
    hide Keys;
    match p.law
    case SetUnion => SetUnionStep(t, b, c, p.limit);
    case MapUnionUnique => MapUnionStep(t, b, c, p.limit);
    case PriorityThenPath => PriorityStep(b, c, p.limit);
    case StableConcat => ConcatStep(b, c, p.limit);
    case _ => SingleStep(t, b, c, p);
  }

  lemma AcceptableShrinks(a: set<FieldCell>, b: set<FieldCell>, p: Policy)
    requires a <= b && Acceptable(b, p)
    ensures Acceptable(a, p)
  {
    SubsetSize(Values(a), Values(b));
    SubsetSize(Keys(a), Keys(b));
    SubsetSize(a, b);
  }

  ghost predicate AllAcceptable(xs: seq<FieldCell>, policies: Policies) {
    forall scope :: Acceptable(Arrived(xs, scope), policies(scope))
  }

  /** `s` holds what each law keeps of the cells in `xs`, wherever the order of arrival is free. */
  ghost predicate AllStored(s: set<FieldCell>, xs: seq<FieldCell>, policies: Policies)
    requires IdsDetermine(Elements(xs))
  {
    forall scope | OrderFree(Arrived(xs, scope), policies(scope)) ::
      Stored(InScope(s, scope), Arrived(xs, scope), policies(scope))
  }

  /** The same for a store that will be offered all of `xs` and has been offered `init`. */
  ghost predicate AllStoredSoFar(s: set<FieldCell>, init: seq<FieldCell>, xs: seq<FieldCell>, policies: Policies)
    requires IdsDetermine(Elements(xs)) && Elements(init) <= Elements(xs)
  {
    forall scope | OrderFree(Arrived(xs, scope), policies(scope)) ::
      StoredSoFar(InScope(s, scope), Arrived(init, scope), Arrived(xs, scope), policies(scope))
  }

  /**
   * A run fails exactly when the cells that arrived in some scope are not acceptable to its law, and
   * otherwise holds, in every scope where the order of arrival is free, what the law keeps of them.
   */
  lemma RunIsDetermined(xs: seq<FieldCell>, policies: Policies)
    requires IdsDetermine(Elements(xs))
    ensures MergeAll(xs, policies).Held? <==> AllAcceptable(xs, policies)
    ensures MergeAll(xs, policies).Held? ==> AllStored(MergeAll(xs, policies).cells, xs, policies)
  {
    hide Stored;
    hide StoredSoFar;
    hide MergeAll;
    hide AllAcceptable;
    hide OrderFree;
    assert xs[..|xs|] == xs;
    RunSoFar(xs, |xs|, policies);
    if MergeAll(xs, policies).Held? {
      var s := MergeAll(xs, policies).cells;
      forall scope | OrderFree(Arrived(xs, scope), policies(scope))
        ensures Stored(InScope(s, scope), Arrived(xs, scope), policies(scope))
      {
        WantedAtLast(InScope(s, scope), Arrived(xs, scope), policies(scope));
      }
    }
  }

  lemma {:induction false} RunSoFar(xs: seq<FieldCell>, n: nat, policies: Policies)
    requires IdsDetermine(Elements(xs)) && n <= |xs|
    ensures Elements(xs[..n]) <= Elements(xs)
    ensures MergeAll(xs[..n], policies).Held? <==> AllAcceptable(xs[..n], policies)
    ensures MergeAll(xs[..n], policies).Held? ==>
      AllStoredSoFar(MergeAll(xs[..n], policies).cells, xs[..n], xs, policies)
    decreases n
  {
    hide Acceptable;
    hide StoredSoFar;
    hide OrderFree;
    hide Merge;
    if n == 0 {
      EmptyRun(xs, policies);
    } else {
      var init, more := xs[..n - 1], xs[..n];
      assert more[..|more| - 1] == init;
      RunSoFar(xs, n - 1, policies);
      ElementsSnoc(more);
      var before := MergeAll(init, policies);
      if before.Rejected? {
        var scope :| !Acceptable(Arrived(init, scope), policies(scope));
        assert Arrived(init, scope) <= Arrived(more, scope);
        if Acceptable(Arrived(more, scope), policies(scope)) {
          AcceptableShrinks(Arrived(init, scope), Arrived(more, scope), policies(scope));
        }
      } else {
        ArrivalIsDetermined(xs, n, before.cells, policies);
      }
    }
  }

  lemma EmptyRun(xs: seq<FieldCell>, policies: Policies)
    requires IdsDetermine(Elements(xs))
    ensures AllAcceptable([], policies) && AllStoredSoFar({}, [], xs, policies)
  {
    hide OrderFree;
    hide Wanted;
    forall scope
      ensures Acceptable(Arrived([], scope), policies(scope))
      ensures StoredSoFar(InScope({}, scope), Arrived([], scope), Arrived(xs, scope), policies(scope))
    {
      assert Arrived([], scope) == {} && InScope({}, scope) == {};
      assert Values({}) == {} && Keys({}) == {};
    }
  }

  lemma ArrivalIsDetermined(xs: seq<FieldCell>, n: nat, s: set<FieldCell>, policies: Policies)
    requires IdsDetermine(Elements(xs)) && 0 < n <= |xs|
    requires Elements(xs[..n - 1]) <= Elements(xs) && s <= Elements(xs[..n - 1]) && IdsDetermine(s)
    requires AllAcceptable(xs[..n - 1], policies) && AllStoredSoFar(s, xs[..n - 1], xs, policies)
    ensures Elements(xs[..n]) <= Elements(xs)
    ensures var m := Merge(s, xs[n - 1], policies(ScopeOf(xs[n - 1])));
      && (m.Done? <==> AllAcceptable(xs[..n], policies))
      && (m.Done? ==> AllStoredSoFar(m.cells, xs[..n], xs, policies))
  {
    hide Acceptable;
    hide StoredSoFar;
    hide OrderFree;
    hide MergeInto;
    var init, more, c := xs[..n - 1], xs[..n], xs[n - 1];
    var own := ScopeOf(c);
    var p := policies(own);
    assert more[..|more| - 1] == init;
    ElementsSnoc(more);
    forall scope | scope != own ensures Arrived(more, scope) == Arrived(init, scope) {}
    if HasId(s, c.id) {
      var d :| d in s && d.id == c.id;
      assert d == c;
      assert Elements(more) == Elements(init);
    } else {
      var t, b, a := InScope(s, own), Arrived(init, own), Arrived(xs, own);
      assert Arrived(more, own) == b + {c};
      assert OrderFree(a, p) ==> StoredSoFar(t, b, a, p);
      assert Acceptable(b, p);
      assert c !in t by { assert c in t ==> HasId(s, c.id); }
      StepAgrees(t, b, a, c, p);
      assert AllAcceptable(more, policies) <==> Acceptable(b + {c}, p);
      if Merge(s, c, p).Done? {
        MergeStaysInScope(s, c, p);
      }
    }
  }

  // ----- consequences -----

  /**
   * The same cells in any two orders, repeats included: both runs fail, or both hold the same values wherever
   * the order of arrival is free, and under three of the laws the same cells.
   */
  lemma OrderDoesNotMatter(xs: seq<FieldCell>, ys: seq<FieldCell>, policies: Policies)
    requires IdsDetermine(Elements(xs)) && Elements(xs) == Elements(ys)
    ensures MergeAll(xs, policies).Held? <==> MergeAll(ys, policies).Held?
    ensures MergeAll(xs, policies).Held? ==>
      forall scope | OrderFree(Arrived(xs, scope), policies(scope)) ::
        var t, u := InScope(MergeAll(xs, policies).cells, scope), InScope(MergeAll(ys, policies).cells, scope);
        Values(t) == Values(u) && (policies(scope).law in {TopK, PriorityThenPath, StableConcat} ==> t == u)
  {
    hide Values;
    hide MergeAll;
    hide Acceptable;
    hide OrderFree;
    assert forall scope :: Arrived(ys, scope) == Arrived(xs, scope);
    RunIsDetermined(xs, policies);
    RunIsDetermined(ys, policies);
    if MergeAll(xs, policies).Held? {
      var r, q := MergeAll(xs, policies).cells, MergeAll(ys, policies).cells;
      forall scope | OrderFree(Arrived(xs, scope), policies(scope))
        ensures Values(InScope(r, scope)) == Values(InScope(q, scope))
        ensures policies(scope).law in {TopK, PriorityThenPath, StableConcat} ==> InScope(r, scope) == InScope(q, scope)
      {
        assert Stored(InScope(r, scope), Arrived(xs, scope), policies(scope));
        assert Stored(InScope(q, scope), Arrived(ys, scope), policies(scope));
      }
    }
  }

  /** Under `top_k` a scope whose order is free ends with the `limit` least of the cells that arrived in it. */
  lemma OnlineTopK(xs: seq<FieldCell>, policies: Policies, scope: Scope)
    requires IdsDetermine(Elements(xs)) && MergeAll(xs, policies).Held?
    requires policies(scope).law.TopK? && policies(scope).limit > 0 && OrderFree(Arrived(xs, scope), policies(scope))
    ensures IsTop(InScope(MergeAll(xs, policies).cells, scope), Arrived(xs, scope), policies(scope).limit)
  {
    hide MergeAll;
    hide OrderFree;
    RunIsDetermined(xs, policies);
    var p := policies(scope);
    assert Stored(InScope(MergeAll(xs, policies).cells, scope), Arrived(xs, scope), p);
    TopKeepIsTop(Arrived(xs, scope), p.limit);
  }

  // ----- when the order does matter -----

  ghost predicate InOneScope(a: set<FieldCell>, scope: Scope) {
    forall c | c in a :: ScopeOf(c) == scope
  }

  /** The run over `xs` holds what was wanted. */
  ghost predicate HoldsWanted(xs: seq<FieldCell>, policies: Policies, limit: nat)
    requires IdsDetermine(Elements(xs))
  {
    MergeAll(xs, policies) == Held(Wanted(Elements(xs), limit))
  }

  lemma {:induction false} ListOf(a: set<FieldCell>) returns (xs: seq<FieldCell>)
    ensures Elements(xs) == a
    decreases |a|
  {
    if a == {} {
      xs := [];
    } else {
      var c :| c in a;
      var init := ListOf(a - {c});
      xs := init + [c];
      ElementsSnoc(xs);
    }
  }

  /** Nothing appears in the store that did not arrive. */
  lemma {:induction false} OnlyArrivalsAppear(xs: seq<FieldCell>, more: seq<FieldCell>, policies: Policies)
    ensures var start, run := MergeAll(xs, policies), MergeAll(xs + more, policies);
      run.Held? ==> start.Held? && run.cells <= start.cells + Elements(more)
    decreases |more|
  {
    if more == [] {
      assert xs + more == xs;
    } else {
      var init, c := more[..|more| - 1], more[|more| - 1];
      assert (xs + more)[..|xs + more| - 1] == xs + init;
      ElementsSnoc(more);
      OnlyArrivalsAppear(xs, init, policies);
      if MergeAll(xs + more, policies).Held? {
        var s := MergeAll(xs + init, policies).cells;
        MergeStaysInScope(s, c, policies(ScopeOf(c)));
      }
    }
  }

  /** A wanted cell that is stored stays, whatever else of `a` arrives. */
  lemma {:induction false} WantedStays(a: set<FieldCell>, xs: seq<FieldCell>, more: seq<FieldCell>, w: FieldCell,
                                      scope: Scope, policies: Policies)
    requires IdsDetermine(a) && InOneScope(a, scope)
    requires policies(scope).law.TopK? && w in Wanted(a, policies(scope).limit)
    requires Elements(xs) <= a && Elements(more) <= a
    requires MergeAll(xs, policies).Held? && w in MergeAll(xs, policies).cells
    ensures MergeAll(xs + more, policies).Held? && w in MergeAll(xs + more, policies).cells
    decreases |more|
  {
    hide Wanted;
    if more == [] {
      assert xs + more == xs;
    } else {
      var init, c := more[..|more| - 1], more[|more| - 1];
      assert (xs + more)[..|xs + more| - 1] == xs + init;
      ElementsSnoc(more);
      WantedStays(a, xs, init, w, scope, policies);
      ElementsOfBoth(xs, init);
      var s := MergeAll(xs + init, policies).cells;
      WantedSurvivesMerge(a, s, c, w, scope, policies(scope));
    }
  }

  lemma ElementsOfBoth(xs: seq<FieldCell>, ys: seq<FieldCell>)
    ensures Elements(xs + ys) == Elements(xs) + Elements(ys)
  {
    var all := xs + ys;
    assert forall i | 0 <= i < |xs| :: all[i] == xs[i];
    assert forall i | 0 <= i < |ys| :: all[|xs| + i] == ys[i];
    assert forall i | |xs| <= i < |all| :: all[i] == ys[i - |xs|];
  }

  lemma WantedSurvivesMerge(a: set<FieldCell>, s: set<FieldCell>, c: FieldCell, w: FieldCell, scope: Scope, p: Policy)
    requires IdsDetermine(a) && InOneScope(a, scope) && p.law.TopK? && w in Wanted(a, p.limit)
    requires s <= a && c in a && w in s && IdsDetermine(s)
    ensures Merge(s, c, p).Done? && w in Merge(s, c, p).cells
  {
    hide Wanted;
    hide TopKeep;
    assert InScope(s, ScopeOf(c)) == s;
    WantedSurvives(s, a, c, w, p);
  }

  /** One cell alone is stored. */
  lemma FirstIsStored(c: FieldCell, policies: Policies)
    requires policies(ScopeOf(c)).law.TopK?
    ensures MergeAll([c], policies) == Held({c})
  {
    assert [c][..0] == [];
    assert MergeAll([], policies) == Held({});
    assert InScope({}, ScopeOf(c)) == {};
    assert {} + {c} == {c};
  }

  /** After a cell, another one of the same schema, key and value is turned away. */
  lemma TwinIsRefused(twin: FieldCell, c: FieldCell, policies: Policies)
    requires policies(ScopeOf(c)).law.TopK? && ScopeOf(twin) == ScopeOf(c) && SameValue(twin, c)
    ensures MergeAll([twin, c], policies) == Held({twin})
  {
    FirstIsStored(twin, policies);
    assert [twin, c][..1] == [twin];
    assert InScope({twin}, ScopeOf(c)) == {twin};
    assert HasValue({twin}, c);
  }

  /** Where the order is not free, two orders of the same cells leave different cells. */
  lemma TwoOrdersDiffer(a: set<FieldCell>, scope: Scope, policies: Policies)
      returns (best: FieldCell, xs: seq<FieldCell>, ys: seq<FieldCell>)
    requires IdsDetermine(a) && InOneScope(a, scope) && policies(scope).law.TopK? && !OrderFree(a, policies(scope))
    ensures best in Wanted(a, policies(scope).limit) && best in LeastPerValue(a)
    ensures policies(scope).limit > 0 ==> best in TopKeep(LeastPerValue(a), policies(scope).limit)
    ensures Elements(xs) == a && MergeAll(xs, policies).Held? && best in MergeAll(xs, policies).cells
    ensures Elements(ys) == a && MergeAll(ys, policies).Held? && best !in MergeAll(ys, policies).cells
  {
    hide OrderFree;
    hide Wanted;
    hide LeastPerValue;
    hide MergeAll;
    hide TopKeep;
    var p := policies(scope);
    var twin;
    best, twin := WantedWithTwin(a, p);
    var rest := ListOf(a - {best});
    xs := [best] + rest;
    ElementsOfBoth([best], rest);
    FirstIsStored(best, policies);
    WantedStays(a, [best], rest, best, scope, policies);
    var others := ListOf(a - {best, twin});
    ys := [twin, best] + others;
    ElementsOfBoth([twin, best], others);
    assert Elements([twin, best]) == {twin, best} by { ElementsOfBoth([twin], [best]); }
    TwinIsRefused(twin, best, policies);
    TopKAlwaysHolds(ys, scope, policies);
    OnlyArrivalsAppear([twin, best], others, policies);
  }

  /** In a scope under `top_k` no merge fails. */
  lemma TopKAlwaysHolds(xs: seq<FieldCell>, scope: Scope, policies: Policies)
    requires IdsDetermine(Elements(xs)) && InOneScope(Elements(xs), scope) && policies(scope).law.TopK?
    ensures MergeAll(xs, policies).Held?
    ensures var run := MergeAll(xs, policies); run.Held? ==> InScope(run.cells, scope) == run.cells
  {
    hide MergeAll;
    hide OrderFree;
    RunIsDetermined(xs, policies);
    forall other ensures Acceptable(Arrived(xs, other), policies(other)) {
      if other != scope {
        assert Arrived(xs, other) == {};
        assert Values({}) == {} && Keys({}) == {};
      }
    }
  }

  /**
   * Under `top_k` every order and repetition of the cells of a scope leaves the wanted ones exactly when none of
   * those shares its schema, key and value with another cell.
   */
  lemma OrderIsFreeExactly(a: set<FieldCell>, scope: Scope, policies: Policies)
    requires IdsDetermine(a) && InOneScope(a, scope) && policies(scope).law.TopK?
    ensures (forall xs | Elements(xs) == a :: HoldsWanted(xs, policies, policies(scope).limit))
      <==> OrderFree(a, policies(scope))
  {
    hide OrderFree;
    hide Wanted;
    hide MergeAll;
    hide LeastPerValue;
    var p := policies(scope);
    if OrderFree(a, p) {
      forall xs | Elements(xs) == a ensures HoldsWanted(xs, policies, p.limit) {
        TopKAlwaysHolds(xs, scope, policies);
        assert Arrived(xs, scope) == a;
        RunIsDetermined(xs, policies);
        assert Stored(InScope(MergeAll(xs, policies).cells, scope), Arrived(xs, scope), p);
      }
    } else {
      var best, xs, ys := TwoOrdersDiffer(a, scope, policies);
      assert !HoldsWanted(ys, policies, p.limit);
    }
  }

  /** A cell of one scope and one key. */
  function Sample(id: byte, priority: int32, value: CborValue.int64): FieldCell {
    FieldCell([id], [], [], [], CborValue.Int(value), priority, false, Public, 0, [], [], false, false,
              Provenance([], 0, 0, 0, [], [], [], []))
  }

  const HIGH := Sample(1, 5, 0)
  const LOW := Sample(2, 1, 0)
  const BETWEEN := Sample(3, 3, 1)

  /** Two alike cells and one between them that is different, all of one scope with room for one. */
  ghost predicate Twins(high: FieldCell, between: FieldCell, low: FieldCell, policies: Policies) {
    && StableLess(high, between) && StableLess(between, low) && StableLess(high, low)
    && high.id != between.id && between.id != low.id && high.id != low.id
    && SameValue(high, low) && SameValue(low, high)
    && !SameValue(high, between) && !SameValue(between, high)
    && !SameValue(between, low) && !SameValue(low, between)
    && ScopeOf(high) == ScopeOf(between) == ScopeOf(low)
    && policies(ScopeOf(high)) == Policy(TopK, 1)
  }

  lemma TwinRuns(high: FieldCell, between: FieldCell, low: FieldCell, policies: Policies)
    requires Twins(high, between, low, policies)
    ensures MergeAll([high, low, between], policies) == Held({high})
    ensures MergeAll([low, high, between], policies) == Held({between})
  {
    hide MergeAll;
    hide StableLess;
    hide SameValue;
    hide Merge;
    TwinIsRefused(high, low, policies);
    TwinIsRefused(low, high, policies);
    BetterWins(high, between, policies);
    BetterWins(between, low, policies);
    LastMerge([high, low], between, policies);
    LastMerge([low, high], between, policies);
    assert [high, low] + [between] == [high, low, between];
    assert [low, high] + [between] == [low, high, between];
  }

  lemma TwinsAreNotFree(high: FieldCell, between: FieldCell, low: FieldCell, policies: Policies)
    requires Twins(high, between, low, policies)
    ensures var a := {high, low, between}; IdsDetermine(a) && !OrderFree(a, Policy(TopK, 1))
  {
    hide StableLess;
    hide SameValue;
    hide TopKeep;
    var a := {high, low, between};
    assert IdsDetermine(a);
    StableOrderIsTotal(high, high);
    StableOrderIsTotal(high, between);
    StableOrderIsTotal(high, low);
    assert Before(a, high) == {};
    TopIffFewBefore(a, high, 1);
    assert high in Wanted(a, 1) && low in a && SameValue(high, low) && high != low;
  }

  /**
   * Two cells of one key and value at the priorities 5 and 1, and one of another value at 3, with room for one:
   * if the lesser twin comes first, the better one is turned away and the third cell wins.
   */
  lemma LesserTwinFirst(policies: Policies)
    requires policies(ScopeOf(HIGH)) == Policy(TopK, 1)
    ensures MergeAll([HIGH, LOW, BETWEEN], policies) == Held({HIGH})
    ensures MergeAll([LOW, HIGH, BETWEEN], policies) == Held({BETWEEN})
    ensures IdsDetermine({HIGH, LOW, BETWEEN}) && !OrderFree({HIGH, LOW, BETWEEN}, Policy(TopK, 1))
  {
    assert Twins(HIGH, BETWEEN, LOW, policies);
    hide *;
    TwinRuns(HIGH, BETWEEN, LOW, policies);
    TwinsAreNotFree(HIGH, BETWEEN, LOW, policies);
  }

  lemma LastMerge(xs: seq<FieldCell>, c: FieldCell, policies: Policies)
    ensures var run := MergeAll(xs, policies);
      MergeAll(xs + [c], policies)
        == if run.Rejected? then run
           else
             var m := Merge(run.cells, c, policies(ScopeOf(c)));
             if m.Done? then Held(m.cells) else Rejected(m)
  {
    assert (xs + [c])[..|xs|] == xs;
  }

  /** With room for one, the better of two cells of different values stays, whichever was there. */
  lemma BetterWins(better: FieldCell, worse: FieldCell, policies: Policies)
    requires StableLess(better, worse) && better.id != worse.id
    requires !SameValue(better, worse) && !SameValue(worse, better)
    requires ScopeOf(better) == ScopeOf(worse)
    ensures Merge({better}, worse, Policy(TopK, 1)) == Done(false, {better})
    ensures Merge({worse}, better, Policy(TopK, 1)) == Done(true, {better})
  {
    hide StableLess;
    hide TopKeep;
    TopOfTwo(better, worse);
    assert {better} + {worse} == {better, worse} && {worse} + {better} == {better, worse};
    var scope := ScopeOf(better);
    assert InScope({better}, scope) == {better} && InScope({worse}, scope) == {worse};
  }

  /** Under `map_union_unique` alone a run fails exactly on a key with two values or on too many keys. */
  lemma MapUnionFailure(xs: seq<FieldCell>, policies: Policies)
    requires IdsDetermine(Elements(xs)) && forall scope :: policies(scope).law.MapUnionUnique?
    ensures MergeAll(xs, policies).Held? <==>
      forall scope :: KeysAgree(Arrived(xs, scope)) && Within(|Keys(Arrived(xs, scope))|, policies(scope).limit)
  {
    hide MergeAll;
    RunIsDetermined(xs, policies);
    assert forall scope :: Acceptable(Arrived(xs, scope), policies(scope)) <==>
      KeysAgree(Arrived(xs, scope)) && Within(|Keys(Arrived(xs, scope))|, policies(scope).limit);
  }

  // ----- what every merge keeps, well-behaved or not -----

  /** The limit holds for a scope; a single-value law holds one cell at most. */
  ghost predicate WithinPolicy(t: set<FieldCell>, p: Policy) {
    Within(|t|, p.limit) && (p.law.Product? || p.law.OptionalSingle? ==> |t| <= 1)
  }

  lemma OneMoreIsKeptOrNot(t: set<FieldCell>, c: FieldCell, k: nat)
    requires IdsDetermine(t + {c}) && c !in t && |t| <= k
    ensures var r := TopKeep(t + {c}, k); |r| <= k && (c in r <==> r != t)
  {
    hide StableLess;
    var u := t + {c};
    assert |u| == |t| + 1;
    if |u| > k {
      var g := Greatest(u);
      assert |u - {g}| == k;
      assert TopKeep(u - {g}, k) == u - {g};
      assert g == c ==> u - {g} == t;
    }
  }

  lemma AddKeepsPolicy(t: set<FieldCell>, c: FieldCell, limit: nat)
    requires c !in t && Within(|t|, limit) && Add(t, c, limit).Done?
    ensures Within(|t + {c}|, limit) && t + {c} != t && |t + {c}| == |t| + 1
  {
  }

  lemma MergeKeepsPolicy(t: set<FieldCell>, c: FieldCell, p: Policy)
    requires IdsDetermine(t + {c}) && c !in t && WithinPolicy(t, p) && MergeInto(t, c, p).Done?
    ensures WithinPolicy(MergeInto(t, c, p).cells, p)
    ensures MergeInto(t, c, p).changed <==> MergeInto(t, c, p).cells != t
  {
    hide StableLess;
    hide SameValue;
    hide HasValue;
    hide IdsDetermine;
    hide TopKeep;
    if Add(t, c, p.limit).Done? {
      AddKeepsPolicy(t, c, p.limit);
    }
    match p.law
    case TopK =>
      assert t + {c} != t;
      if p.limit > 0 { OneMoreIsKeptOrNot(t, c, p.limit); }
    case PriorityThenPath =>
      if WithKey(t, c.key) != {} {
        ReplaceKeepsSize(t, c, p);
      }
    case _ =>
  }

  lemma ReplaceKeepsSize(t: set<FieldCell>, c: FieldCell, p: Policy)
    requires p.law.PriorityThenPath? && IdsDetermine(t + {c}) && c !in t && WithKey(t, c.key) != {}
    ensures var m := MergeInto(t, c, p); m.Done? && |m.cells| == |t| && (m.changed <==> m.cells != t)
  {
    hide StableLess;
    var e := Least(WithKey(t, c.key));
    assert e in t;
    assert |t - {e} + {c}| == |t|;
  }

  /** With one policy for a scope, a merge keeps its limit and reports truly whether the store changed. */
  lemma MergeKeepsLimitAndReports(s: set<FieldCell>, c: FieldCell, p: Policy)
    requires IdsDetermine(s) && WithinPolicy(InScope(s, ScopeOf(c)), p) && Merge(s, c, p).Done?
    ensures var m := Merge(s, c, p);
      WithinPolicy(InScope(m.cells, ScopeOf(c)), p) && (m.changed <==> m.cells != s)
  {
    hide MergeInto;
    hide WithinPolicy;
    if !HasId(s, c.id) {
      var t := InScope(s, ScopeOf(c));
      assert c !in t by { assert c in t ==> HasId(s, c.id); }
      MergeStaysInScope(s, c, p);
      MergeKeepsPolicy(t, c, p);
      var r := Merge(s, c, p).cells;
      assert r == s - t + InScope(r, ScopeOf(c));
      assert r == s ==> InScope(r, ScopeOf(c)) == t;
    }
  }

  /** Over any sequence of merges with one policy for each scope, every limit holds. */
  lemma {:induction false} RunStaysWithinLimits(xs: seq<FieldCell>, policies: Policies)
    requires MergeAll(xs, policies).Held?
    ensures forall scope :: WithinPolicy(InScope(MergeAll(xs, policies).cells, scope), policies(scope))
  {
    hide Merge;
    hide WithinPolicy;
    if xs == [] {
      forall scope ensures WithinPolicy(InScope({}, scope), policies(scope)) {
        NothingIsWithin(scope, policies(scope));
      }
    } else {
      var init, c := xs[..|xs| - 1], xs[|xs| - 1];
      RunStaysWithinLimits(init, policies);
      var s := MergeAll(init, policies).cells;
      MergeKeepsLimitAndReports(s, c, policies(ScopeOf(c)));
      MergeStaysInScope(s, c, policies(ScopeOf(c)));
    }
  }

  lemma NothingIsWithin(scope: Scope, p: Policy)
    ensures WithinPolicy(InScope({}, scope), p)
  {
    assert InScope({}, scope) == {};
  }

  /** The limit was lowered below what the scope holds, and as many cells as it allows come before the new one. */
  ghost predicate Shrinks(t: set<FieldCell>, c: FieldCell, p: Policy) {
    p.law.TopK? && 0 < p.limit < |t| && !HasValue(t, c) && p.limit <= |Before(t, c)|
  }

  lemma ReportInScope(t: set<FieldCell>, c: FieldCell, p: Policy)
    requires IdsDetermine(t + {c}) && c !in t && MergeInto(t, c, p).Done?
    ensures var m := MergeInto(t, c, p); (m.changed <==> m.cells != t) <==> !Shrinks(t, c, p)
  {
    hide StableLess;
    hide SameValue;
    hide HasValue;
    hide IdsDetermine;
    hide TopKeep;
    hide IsTop;
    assert t + {c} != t;
    match p.law
    case TopK =>
      if p.limit > 0 {
        StableOrderIsTotal(c, c);
        assert Before(t + {c}, c) == Before(t, c);
        TopIffFewBefore(t + {c}, c, p.limit);
        if |t| <= p.limit {
          OneMoreIsKeptOrNot(t, c, p.limit);
        } else {
          TopKeepIsTop(t + {c}, p.limit);
          TopIsLimit(t + {c}, p.limit);
        }
      }
    case PriorityThenPath =>
      if WithKey(t, c.key) != {} {
        ReplaceKeepsSize(t, c, p);
      }
    case _ =>
  }

  lemma TopIsLimit(u: set<FieldCell>, k: nat)
    requires IdsDetermine(u) && |u| > k
    ensures |TopKeep(u, k)| == k
  {
    TopKeepIsTop(u, k);
  }

  /** Whatever the limits were before, a merge reports truly whether the store changed unless it shrinks its scope. */
  lemma ReportIsTrueExactly(s: set<FieldCell>, c: FieldCell, p: Policy)
    requires IdsDetermine(s) && Merge(s, c, p).Done?
    ensures var m := Merge(s, c, p);
      (m.changed <==> m.cells != s) <==> HasId(s, c.id) || !Shrinks(InScope(s, ScopeOf(c)), c, p)
  {
    hide MergeInto;
    hide Shrinks;
    if !HasId(s, c.id) {
      var t := InScope(s, ScopeOf(c));
      assert c !in t by { assert c in t ==> HasId(s, c.id); }
      MergeStaysInScope(s, c, p);
      ReportInScope(t, c, p);
      var r := Merge(s, c, p).cells;
      assert r == s - t + InScope(r, ScopeOf(c));
      assert r == s ==> InScope(r, ScopeOf(c)) == t;
    }
  }

  /** With a lowered limit the report is wrong: the store shrinks and the merge says nothing changed. */
  lemma LoweredLimitMisreports(s: set<FieldCell>, c: FieldCell, limit: nat)
    requires IdsDetermine(s + {c}) && !HasId(s, c.id) && !HasValue(InScope(s, ScopeOf(c)), c)
    requires var t := InScope(s, ScopeOf(c)); 0 < limit < |t| && IsGreatest(c, t + {c})
    ensures var m := Merge(s, c, Policy(TopK, limit)); m.Done? && !m.changed && m.cells != s
  {
    hide StableLess;
    hide HasValue;
    var t := InScope(s, ScopeOf(c));
    assert c !in t by { assert c in t ==> HasId(s, c.id); }
    TopOfFewer(t, c, limit);
    MergeStaysInScope(s, c, Policy(TopK, limit));
  }

  lemma ThirdIsWorst(a: FieldCell, b: FieldCell, c: FieldCell)
    requires StableLess(a, c) && StableLess(b, c) && a.id != b.id && a.id != c.id && b.id != c.id
    ensures IdsDetermine({a, b, c}) && IsGreatest(c, {a, b, c}) && !HasId({a, b}, c.id) && |{a, b}| == 2
  {
    hide StableLess;
  }

  /** Two cells were stored with room for two; with room for one, a third and worst one drives one of them out. */
  lemma LoweredLimitDropsACell()
    ensures var s, worst := {HIGH, BETWEEN}, Sample(4, 0, 2);
      && IdsDetermine(s)
      && var m := Merge(s, worst, Policy(TopK, 1)); m.Done? && !m.changed && m.cells != s
  {
    hide Merge;
    var worst := Sample(4, 0, 2);
    assert StableLess(HIGH, worst) && StableLess(BETWEEN, worst);
    assert !SameValue(HIGH, worst) && !SameValue(BETWEEN, worst);
    assert ScopeOf(HIGH) == ScopeOf(worst) == ScopeOf(BETWEEN);
    ThirdIsWorst(HIGH, BETWEEN, worst);
    OthersWereStored(HIGH, BETWEEN, worst);
  }

  lemma OthersWereStored(a: FieldCell, b: FieldCell, c: FieldCell)
    requires IdsDetermine({a, b, c}) && IsGreatest(c, {a, b, c}) && !HasId({a, b}, c.id) && |{a, b}| == 2
    requires ScopeOf(a) == ScopeOf(c) == ScopeOf(b) && !SameValue(a, c) && !SameValue(b, c)
    ensures var m := Merge({a, b}, c, Policy(TopK, 1)); m.Done? && !m.changed && m.cells != {a, b}
  {
    hide Merge;
    hide StableLess;
    hide SameValue;
    assert InScope({a, b}, ScopeOf(c)) == {a, b};
    assert {a, b} + {c} == {a, b, c};
    LoweredLimitMisreports({a, b}, c, 1);
  }

  /** Two alike cells are one value to a merge under `product`. */
  lemma ProductTakesTwins(policies: Policies)
    requires policies(ScopeOf(HIGH)) == Policy(Product, 1)
    ensures MergeAll([HIGH, LOW], policies) == Held({HIGH})
  {
    var scope := ScopeOf(HIGH);
    assert [HIGH][..0] == [] && [HIGH, LOW][..1] == [HIGH];
    assert MergeAll([], policies) == Held({});
    assert InScope({}, scope) == {} && {} + {HIGH} == {HIGH};
    assert MergeAll([HIGH], policies) == Held({HIGH});
    assert InScope({HIGH}, scope) == {HIGH};
    LeastIsUnique(HIGH, {HIGH});
  }

  lemma TopOfFewer(t: set<FieldCell>, c: FieldCell, limit: nat)
    requires IdsDetermine(t + {c}) && c !in t && 0 < limit < |t| && IsGreatest(c, t + {c}) && !HasValue(t, c)
    ensures var m := MergeInto(t, c, Policy(TopK, limit)); m.Done? && !m.changed && m.cells != t
  {
    hide StableLess;
    hide HasValue;
    GreatestIsUnique(c, t + {c});
    DroppingTheNewFirst(t, c, limit);
  }

  lemma DroppingTheNewFirst(t: set<FieldCell>, c: FieldCell, limit: nat)
    requires IdsDetermine(t + {c}) && c !in t && limit < |t| && c == Greatest(t + {c})
    ensures TopKeep(t + {c}, limit) == TopKeep(t, limit) && |TopKeep(t, limit)| == limit
  {
    hide StableLess;
    assert t + {c} - {c} == t;
    assert |t + {c}| == |t| + 1;
    TopKeepIsTop(t, limit);
  }
}
