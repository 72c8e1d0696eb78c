/** One arrival under each law: whether it fails, and what the scope then holds of the cells that arrived. */
module MergeOrder {
  import opened Basics
  import opened Bytes
  import CborValue
  import opened FieldCells
  import opened MergeLaws

  // ----- keys and values of a set -----

  datatype Triple = Triple(schema: bytes, key: bytes, value: CborValue.Value)

  function ValueOf(c: FieldCell): Triple {
    Triple(c.schema, c.key, c.value)
  }

  function Values(s: set<FieldCell>): set<Triple> {
    set c | c in s :: ValueOf(c)
  }

  function Keys(s: set<FieldCell>): set<bytes> {
    set c | c in s :: c.key
  }

  ghost predicate DistinctValues(s: set<FieldCell>) {
    forall c, d | c in s && d in s && SameValue(c, d) :: c == d
  }

  ghost predicate DistinctKeys(s: set<FieldCell>) {
    forall c, d | c in s && d in s && c.key == d.key :: c == d
  }

  lemma {:induction false} CountValues(s: set<FieldCell>)
    requires DistinctValues(s)
    ensures |Values(s)| == |s|
    decreases |s|
  {
    if s != {} {
      var c :| c in s;
      CountValues(s - {c});
      assert Values(s) == Values(s - {c}) + {ValueOf(c)};
      if ValueOf(c) in Values(s - {c}) {
        var d :| d in s - {c} && ValueOf(d) == ValueOf(c);
        assert SameValue(c, d);
      }
    }
  }

  lemma {:induction false} CountKeys(s: set<FieldCell>)
    requires DistinctKeys(s)
    ensures |Keys(s)| == |s|
    decreases |s|
  {
    if s != {} {
      var c :| c in s;
      CountKeys(s - {c});
      assert Keys(s) == Keys(s - {c}) + {c.key};
    }
  }

  // ----- what a scope must satisfy, and what it then holds -----

  ghost predicate Within(n: nat, limit: nat) { limit == 0 || n <= limit }

  /** Two cells of one key have the same schema and value. */
  ghost predicate KeysAgree(a: set<FieldCell>) {
    forall c, d | c in a && d in a && c.key == d.key :: SameValue(c, d)
  }

  ghost predicate AllAlike(a: set<FieldCell>) {
    forall c, d | c in a && d in a :: SameValue(c, d)
  }

  /** The arrived cells of one scope that no order of merging rejects. */
  ghost predicate Acceptable(a: set<FieldCell>, p: Policy) {
    match p.law
    case SetUnion => Within(|Values(a)|, p.limit)
    case TopK => true
    case MapUnionUnique => KeysAgree(a) && Within(|Keys(a)|, p.limit)
    case PriorityThenPath => Within(|Keys(a)|, p.limit)
    case StableConcat => Within(|a|, p.limit)
    case _ => AllAlike(a)
  }

  /** The least cell of each key. */
  ghost function LeastPerKey(a: set<FieldCell>): set<FieldCell> {
    set c | c in a && forall d | d in a && d.key == c.key && d != c :: StableLess(c, d)
  }

  /** `t` retains one cell for each schema, key and value of `a`. */
  ghost predicate OnePerValue(t: set<FieldCell>, a: set<FieldCell>) {
    t <= a && DistinctValues(t) && Values(t) == Values(a)
  }

  /** The cells of `a` that `top_k` is there to keep. */
  ghost function Wanted(a: set<FieldCell>, limit: nat): (r: set<FieldCell>)
    requires IdsDetermine(a)
    ensures r <= a
  {
    if limit == 0 then a else TopKeep(a, limit)
  }

  /** What is stored of the arrived cells `a` of one scope. */
  ghost predicate Stored(t: set<FieldCell>, a: set<FieldCell>, p: Policy)
    requires IdsDetermine(a)
  {
    match p.law
    case TopK => t == Wanted(a, p.limit)
    case PriorityThenPath => t == LeastPerKey(a)
    case StableConcat => t == a
    case _ => OnePerValue(t, a)
  }

  /** No wanted cell shares its schema, key and value with another cell that arrives. */
  ghost predicate OrderFree(a: set<FieldCell>, p: Policy)
    requires IdsDetermine(a)
  {
    p.law.TopK? ==> forall c, d | c in Wanted(a, p.limit) && d in a && SameValue(c, d) :: c == d
  }

  /** What is stored once `b`, a part of the cells `a` that will arrive, has arrived. */
  ghost predicate StoredSoFar(t: set<FieldCell>, b: set<FieldCell>, a: set<FieldCell>, p: Policy)
    requires IdsDetermine(a) && b <= a
  {
    if p.law.TopK? then t <= b && Within(|t|, p.limit) && Wanted(a, p.limit) * b <= t
    else Stored(t, b, p)
  }

  // ----- one arrival -----

  lemma ValuesGrow(a: set<FieldCell>, c: FieldCell)
    ensures Values(a + {c}) == Values(a) + {ValueOf(c)} && Keys(a + {c}) == Keys(a) + {c.key}
    ensures ValueOf(c) in Values(a) <==> HasValue(a, c)
    ensures c.key in Keys(a) <==> WithKey(a, c.key) != {}
  {
    if HasValue(a, c) {
      var d :| d in a && SameValue(d, c);
      assert ValueOf(d) == ValueOf(c);
    }
    if ValueOf(c) in Values(a) {
      var d :| d in a && ValueOf(d) == ValueOf(c);
      assert SameValue(d, c);
    }
    if WithKey(a, c.key) != {} {
      var d :| d in WithKey(a, c.key);
      assert d.key in Keys(a);
    }
    if c.key in Keys(a) {
      var d :| d in a && d.key == c.key;
      assert d in WithKey(a, c.key);
    }
  }

  lemma NewValueAdded(t: set<FieldCell>, a: set<FieldCell>, c: FieldCell)
    requires OnePerValue(t, a) && !HasValue(t, c)
    ensures OnePerValue(t + {c}, a + {c})
    ensures |Values(a)| == |t| && |Values(a + {c})| == |t| + 1
  {
    ValuesGrow(a, c);
    ValuesGrow(t, c);
    CountValues(t);
    assert SameValue(c, c);
    assert c !in t;
    assert DistinctValues(t + {c});
  }

  lemma OldValueKept(t: set<FieldCell>, a: set<FieldCell>, c: FieldCell)
    requires OnePerValue(t, a) && HasValue(t, c)
    ensures OnePerValue(t, a + {c}) && Values(a + {c}) == Values(a)
  {
    ValuesGrow(a, c);
    ValuesGrow(t, c);
  }

  lemma SetUnionStep(t: set<FieldCell>, a: set<FieldCell>, c: FieldCell, limit: nat)
    requires IdsDetermine(t + {c}) && OnePerValue(t, a)
    ensures var p, m := Policy(SetUnion, limit), MergeInto(t, c, Policy(SetUnion, limit));
      && (m.Done? ==> OnePerValue(m.cells, a + {c}))
      && (Acceptable(a, p) ==> (Acceptable(a + {c}, p) <==> m.Done?))
  {
    hide OnePerValue;
    hide Values;
    hide HasValue;
    if HasValue(t, c) {
      OldValueKept(t, a, c);
    } else {
      NewValueAdded(t, a, c);
    }
  }

  lemma MapUnionStep(t: set<FieldCell>, a: set<FieldCell>, c: FieldCell, limit: nat)
    requires IdsDetermine(t + {c}) && OnePerValue(t, a) && KeysAgree(a)
    ensures var p, m := Policy(MapUnionUnique, limit), MergeInto(t, c, Policy(MapUnionUnique, limit));
      && (m.Done? ==> OnePerValue(m.cells, a + {c}) && KeysAgree(a + {c}))
      && (Acceptable(a, p) ==> (Acceptable(a + {c}, p) <==> m.Done?))
  {
    hide OnePerValue;
    hide Values;
    hide Keys;
    hide HasValue;
    hide KeysAgree;
    hide StableLess;
    hide SameValue;
    if WithKey(t, c.key) == {} {
      KeyIsNew(t, a, c);
      NewValueAdded(t, a, c);
    } else {
      var e := Least(WithKey(t, c.key));
      KeyIsKnown(t, a, c, e);
      if SameValue(e, c) {
        OldValueKept(t, a, c);
      }
    }
  }

  lemma OneCellPerKey(t: set<FieldCell>, a: set<FieldCell>)
    requires OnePerValue(t, a) && KeysAgree(a)
    ensures Keys(t) == Keys(a) && |Keys(a)| == |t|
  {
    SameKeys(t, a);
    assert DistinctKeys(t);
    CountKeys(t);
  }

  lemma KeyIsNew(t: set<FieldCell>, a: set<FieldCell>, c: FieldCell)
    requires OnePerValue(t, a) && KeysAgree(a) && WithKey(t, c.key) == {}
    ensures !HasValue(t, c) && KeysAgree(a + {c})
    ensures |Keys(a)| == |t| && |Keys(a + {c})| == |t| + 1
  {
    OneCellPerKey(t, a);
    ValuesGrow(t, c);
    ValuesGrow(a, c);
    hide Values;
    assert c.key !in Keys(a);
    assert forall d | d in a :: d.key in Keys(a);
    assert forall d | d in t :: d in a;
  }

  lemma KeyIsKnown(t: set<FieldCell>, a: set<FieldCell>, c: FieldCell, e: FieldCell)
    requires OnePerValue(t, a) && KeysAgree(a) && e in WithKey(t, c.key)
    ensures SameValue(e, c) <==> KeysAgree(a + {c})
    ensures SameValue(e, c) ==> HasValue(t, c)
    ensures Keys(a + {c}) == Keys(a)
  {
    ValuesGrow(a, c);
    assert e in a && e.key == c.key && e in a + {c} && c in a + {c};
    assert e.key in Keys(a);
    if SameValue(e, c) {
      forall d | d in a && d.key == c.key ensures SameValue(d, c) && SameValue(c, d) {
        assert SameValue(d, e);
      }
    }
  }

  lemma SameKeys(t: set<FieldCell>, a: set<FieldCell>)
    requires t <= a && Values(t) == Values(a)
    ensures Keys(t) == Keys(a)
  {
    forall k | k in Keys(a) ensures k in Keys(t) {
      var d :| d in a && d.key == k;
      assert ValueOf(d) in Values(t);
      var e :| e in t && ValueOf(e) == ValueOf(d);
      assert e.key == k;
    }
  }

  lemma SingleStep(t: set<FieldCell>, a: set<FieldCell>, c: FieldCell, p: Policy)
    requires p.law.Product? || p.law.OptionalSingle?
    requires IdsDetermine(t + {c}) && OnePerValue(t, a) && AllAlike(a)
    ensures var m := MergeInto(t, c, p);
      && (m.Done? ==> OnePerValue(m.cells, a + {c}) && AllAlike(a + {c}))
      && (Acceptable(a + {c}, p) <==> m.Done?)
  {
    hide OnePerValue;
    hide HasValue;
    hide SameValue;
    hide StableLess;
    hide AllAlike;
    if t == {} {
      NothingArrived(t, a, c);
      NewValueAdded(t, a, c);
    } else {
      var e := Least(t);
      AlikeOrNot(t, a, c, e);
      if SameValue(e, c) {
        OldValueKept(t, a, c);
      }
    }
  }

  lemma NothingArrived(t: set<FieldCell>, a: set<FieldCell>, c: FieldCell)
    requires OnePerValue(t, a) && t == {}
    ensures a == {} && !HasValue(t, c) && AllAlike(a + {c})
  {
    assert forall d | d in a :: ValueOf(d) in Values(t);
  }

  lemma AlikeOrNot(t: set<FieldCell>, a: set<FieldCell>, c: FieldCell, e: FieldCell)
    requires OnePerValue(t, a) && AllAlike(a) && e in t
    ensures SameValue(e, c) <==> AllAlike(a + {c})
    ensures SameValue(e, c) ==> HasValue(t, c)
  {
    assert e in a + {c} && c in a + {c};
    if SameValue(e, c) {
      forall d | d in a ensures SameValue(d, c) && SameValue(c, d) {
        assert SameValue(d, e);
      }
    }
  }

  lemma ConcatStep(a: set<FieldCell>, c: FieldCell, limit: nat)
    requires IdsDetermine(a + {c}) && c !in a
    ensures var p, m := Policy(StableConcat, limit), MergeInto(a, c, Policy(StableConcat, limit));
      && (m.Done? ==> m.cells == a + {c})
      && (Acceptable(a, p) ==> (Acceptable(a + {c}, p) <==> m.Done?))
  {
    assert |a + {c}| == |a| + 1;
  }

  /** A wanted cell that is stored survives every further arrival. */
  lemma WantedSurvives(t: set<FieldCell>, a: set<FieldCell>, c: FieldCell, w: FieldCell, p: Policy)
    requires p.law.TopK? && IdsDetermine(a) && t + {c} <= a
    requires w in Wanted(a, p.limit) && w in t + {c}
    ensures HasValue(t, c) || w in MergeInto(t, c, p).cells
  {
    hide StableLess;
    hide TopKeep;
    if !HasValue(t, c) && p.limit > 0 {
      TopIffFewBefore(a, w, p.limit);
      TopIffFewBefore(t + {c}, w, p.limit);
      SubsetSize(Before(t + {c}, w), Before(a, w));
    }
  }

  lemma TopKStep(t: set<FieldCell>, b: set<FieldCell>, a: set<FieldCell>, c: FieldCell, p: Policy)
    requires p.law.TopK? && IdsDetermine(a) && b + {c} <= a && c !in t
    requires OrderFree(a, p) && StoredSoFar(t, b, a, p)
    ensures MergeInto(t, c, p).Done? && StoredSoFar(MergeInto(t, c, p).cells, b + {c}, a, p)
  {
    hide StableLess;
    hide TopKeep;
    var m := MergeInto(t, c, p);
    if p.limit > 0 {
      TopKeepIsTop(t + {c}, p.limit);
    }
    forall w | w in Wanted(a, p.limit) && w in b + {c} ensures w in m.cells {
      if HasValue(t, c) {
        var d :| d in t && SameValue(d, c);
        assert SameValue(c, d) && d in a;
      } else {
        WantedSurvives(t, a, c, w, p);
      }
    }
  }

  /** Once all have arrived, what is stored is what was wanted. */
  lemma WantedAtLast(t: set<FieldCell>, a: set<FieldCell>, p: Policy)
    requires IdsDetermine(a) && StoredSoFar(t, a, a, p)
    ensures Stored(t, a, p)
  {
    hide StableLess;
    hide TopKeep;
    if p.law.TopK? && p.limit > 0 {
      TopKeepIsTop(a, p.limit);
      SubsetSize(TopKeep(a, p.limit), t);
      SubsetSize(t, a);
    }
  }

  // ----- the best cell of each value -----

  /** The least cell of each schema, key and value. */
  ghost function LeastPerValue(a: set<FieldCell>): set<FieldCell> {
    set c | c in a && forall d | d in a && SameValue(d, c) && d != c :: StableLess(c, d)
  }

  /** Where the order of arrival is free, dropping the lesser of alike cells first changes nothing. */
  lemma TopOfLeastPerValue(a: set<FieldCell>, k: nat)
    requires IdsDetermine(a) && k > 0 && OrderFree(a, Policy(TopK, k))
    ensures TopKeep(LeastPerValue(a), k) == TopKeep(a, k)
  {
    hide StableLess;
    hide TopKeep;
    var top, least := TopKeep(a, k), LeastPerValue(a);
    TopKeepIsTop(a, k);
    forall c, d | c in top && d in a && SameValue(d, c) ensures d == c {
      assert SameValue(c, d);
    }
    SubsetSize(top, least);
    SubsetSize(least, a);
    assert IsTop(top, least, k);
    TopKeepIsTop(least, k);
    TopIsUnique(top, TopKeep(least, k), least, k);
  }

  /**
   * Where the order is not free, some wanted cell is the best of its schema, key and value, and a lesser cell
   * `twin` is alike.
   */
  lemma WantedWithTwin(a: set<FieldCell>, p: Policy) returns (best: FieldCell, twin: FieldCell)
    requires IdsDetermine(a) && p.law.TopK? && !OrderFree(a, p)
    ensures best in Wanted(a, p.limit) && best in LeastPerValue(a)
    ensures twin in a && twin != best && SameValue(twin, best)
    ensures p.limit > 0 ==> best in TopKeep(LeastPerValue(a), p.limit)
  {
    hide StableLess;
    hide TopKeep;
    var c, d :| c in Wanted(a, p.limit) && d in a && SameValue(c, d) && c != d;
    var alike := set e | e in a && SameValue(e, c);
    assert c in alike && d in alike;
    best := Least(alike);
    twin := if best == c then d else c;
    assert best in LeastPerValue(a);
    if p.limit > 0 {
      TopKeepIsTop(a, p.limit);
      if best !in TopKeep(a, p.limit) {
        StableOrderIsTotal(best, c);
        assert false;
      }
      TopIffFewBefore(a, best, p.limit);
      SubsetSize(Before(LeastPerValue(a), best), Before(a, best));
      TopIffFewBefore(LeastPerValue(a), best, p.limit);
    }
  }

  // ----- the least cell of each key -----

  lemma LeastPerKeyCovers(a: set<FieldCell>, k: bytes)
    requires IdsDetermine(a) && WithKey(a, k) != {}
    ensures Least(WithKey(a, k)) in LeastPerKey(a)
    ensures WithKey(LeastPerKey(a), k) == {Least(WithKey(a, k))}
  {
    hide StableLess;
    var w := WithKey(a, k);
    var e := Least(w);
    assert e in a && forall d | d in a && d.key == e.key && d != e :: d in w;
    forall c | c in WithKey(LeastPerKey(a), k) ensures c == e {
      assert c in w;
      StableOrderIsTotal(c, e);
    }
  }

  lemma LeastPerKeyCounts(a: set<FieldCell>)
    requires IdsDetermine(a)
    ensures DistinctKeys(LeastPerKey(a)) && Keys(LeastPerKey(a)) == Keys(a) && |LeastPerKey(a)| == |Keys(a)|
  {
    hide StableLess;
    var t := LeastPerKey(a);
    forall c, d | c in t && d in t && c.key == d.key ensures c == d {
      StableOrderIsTotal(c, d);
    }
    forall k | k in Keys(a) ensures k in Keys(t) {
      ValuesGrow(a, KeyHolder(a, k));
      LeastPerKeyCovers(a, k);
      assert Least(WithKey(a, k)).key == k;
    }
    CountKeys(t);
  }

  ghost function KeyHolder(a: set<FieldCell>, k: bytes): (c: FieldCell)
    requires k in Keys(a)
    ensures c in a && c.key == k
  {
    var c :| c in a && c.key == k;
    c
  }

  lemma PriorityStep(a: set<FieldCell>, c: FieldCell, limit: nat)
    requires IdsDetermine(a + {c}) && c !in LeastPerKey(a)
    ensures var p, m := Policy(PriorityThenPath, limit), MergeInto(LeastPerKey(a), c, Policy(PriorityThenPath, limit));
      && (m.Done? ==> m.cells == LeastPerKey(a + {c}))
      && (Acceptable(a, p) ==> (Acceptable(a + {c}, p) <==> m.Done?))
  {
    hide StableLess;
    hide LeastPerKey;
    hide Keys;
    LeastPerKeyCounts(a);
    LeastPerKeyCounts(a + {c});
    KeyOrNot(a, c);
    var t := LeastPerKey(a);
    if WithKey(t, c.key) == {} {
      NewKey(a, c);
    } else {
      var e := Least(WithKey(t, c.key));
      LeastPerKeyCovers(a, c.key);
      KnownKey(a, c, e);
    }
  }

  lemma KeyOrNot(a: set<FieldCell>, c: FieldCell)
    requires IdsDetermine(a)
    ensures WithKey(LeastPerKey(a), c.key) == {} <==> c.key !in Keys(a)
    ensures c.key in Keys(a) <==> WithKey(a, c.key) != {}
    ensures Keys(a + {c}) == Keys(a) + {c.key}
    ensures c.key in Keys(a) ==> |Keys(a + {c})| == |Keys(a)|
    ensures c.key !in Keys(a) ==> |Keys(a + {c})| == |Keys(a)| + 1
  {
    hide StableLess, LeastPerKey, WithKey, Values, Keys, HasValue, DistinctKeys;
    ValuesGrow(a, c);
    ValuesGrow(LeastPerKey(a), c);
    LeastPerKeyCounts(a);
    if c.key in Keys(a) { assert Keys(a + {c}) == Keys(a); }
  }

  lemma NewKey(a: set<FieldCell>, c: FieldCell)
    requires c.key !in Keys(a)
    ensures LeastPerKey(a + {c}) == LeastPerKey(a) + {c}
  {
    hide StableLess;
    assert forall d | d in a :: d.key in Keys(a);
  }

  lemma KnownKey(a: set<FieldCell>, c: FieldCell, e: FieldCell)
    requires IdsDetermine(a + {c}) && c !in LeastPerKey(a)
    requires IsLeast(e, WithKey(a, c.key))
    ensures LeastPerKey(a + {c})
      == if StableLess(c, e) then LeastPerKey(a) - {e} + {c} else LeastPerKey(a)
  {
    hide StableLess;
    var w := WithKey(a, c.key);
    assert e in LeastPerKey(a) by { assert forall d | d in a && d.key == e.key :: d in w; }
    assert forall d | d in a && d.key == c.key :: d in w;
    StableOrderIsTotal(c, e);
    if StableLess(c, e) {
      forall d | d in w ensures d == c || StableLess(c, d) {
        if d != e { StableOrderIsTransitive(c, e, d); }
      }
      forall d | d in LeastPerKey(a) && d.key == c.key ensures d == e {
        StableOrderIsTotal(d, e);
      }
      LessReplaces(a, c, e);
    } else {
      assert c != e;
      assert StableLess(e, c);
      MoreIsIgnored(a, c, e);
    }
  }

  lemma LessReplaces(a: set<FieldCell>, c: FieldCell, e: FieldCell)
    requires e in a && e.key == c.key && e != c && StableLess(c, e) && !StableLess(e, c)
    requires forall d | d in a && d.key == c.key :: d == c || StableLess(c, d)
    ensures (forall d | d in LeastPerKey(a) && d.key == c.key :: d == e) ==>
      LeastPerKey(a + {c}) == LeastPerKey(a) - {e} + {c}
  {
    hide StableLess;
    if forall d | d in LeastPerKey(a) && d.key == c.key :: d == e {
      forall d ensures d in LeastPerKey(a + {c}) <==> d in LeastPerKey(a) - {e} + {c} {
        if d != c && d.key == c.key && d in a {
          StableOrderIsTotal(c, d);
        }
      }
    }
  }

  lemma MoreIsIgnored(a: set<FieldCell>, c: FieldCell, e: FieldCell)
    requires e in a && e.key == c.key && e != c && StableLess(e, c) && !StableLess(c, e)
    requires forall d | d in a && d.key == c.key && d != e :: StableLess(e, d)
    requires c !in LeastPerKey(a)
    ensures LeastPerKey(a + {c}) == LeastPerKey(a)
  {
    hide StableLess;
    forall d ensures d in LeastPerKey(a + {c}) <==> d in LeastPerKey(a) {
      if d in LeastPerKey(a) && d.key == c.key {
        StableOrderIsTotal(d, e);
      }
    }
  }
}
