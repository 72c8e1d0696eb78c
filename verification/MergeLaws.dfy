/** The seven merge laws on sets of cells: what one merge keeps, reports and refuses, and the top of a set. */
module MergeLaws {
  import opened Basics
  import opened Bytes
  import opened FieldCells

  datatype Law = SetUnion | MapUnionUnique | PriorityThenPath | TopK | Product | OptionalSingle | StableConcat

  /** A limit of zero is no limit. */
  datatype Policy = Policy(law: Law, limit: nat)

  datatype Merged =
    | Done(changed: bool, cells: set<FieldCell>)
    | KeyConflict | SingleConflict | OverBudget

  // ----- one merge -----

  ghost predicate HasId(s: set<FieldCell>, id: bytes) {
    exists d :: d in s && d.id == id
  }

  ghost predicate HasValue(s: set<FieldCell>, c: FieldCell) {
    exists d :: d in s && SameValue(d, c)
  }

  function WithKey(s: set<FieldCell>, key: bytes): set<FieldCell> {
    set c | c in s && c.key == key
  }

  /** The `k` least cells: the worst are dropped one by one. */
  ghost function TopKeep(s: set<FieldCell>, k: nat): (r: set<FieldCell>)
    requires IdsDetermine(s)
    ensures r <= s
    decreases |s|
  {
    if |s| <= k then s else TopKeep(s - {Greatest(s)}, k)
  }

  ghost function Add(t: set<FieldCell>, c: FieldCell, limit: nat): Merged {
    if limit > 0 && |t| >= limit then OverBudget else Done(true, t + {c})
  }

  /** What a new cell does to the cells of its scope. */
  ghost function MergeInto(t: set<FieldCell>, c: FieldCell, p: Policy): Merged
    requires IdsDetermine(t + {c})
  {
    match p.law
    case SetUnion => if HasValue(t, c) then Done(false, t) else Add(t, c, p.limit)
    case TopK =>
      if HasValue(t, c) then Done(false, t)
      else
        var kept := if p.limit == 0 then t + {c} else TopKeep(t + {c}, p.limit);
        Done(c in kept, kept)
    case MapUnionUnique =>
      var alike := WithKey(t, c.key);
      if alike == {} then Add(t, c, p.limit)
      else if SameValue(Least(alike), c) then Done(false, t)
      else KeyConflict
    case PriorityThenPath =>
      var alike := WithKey(t, c.key);
      if alike == {} then Add(t, c, p.limit)
      else
        var existing := Least(alike);
        if StableLess(c, existing) then Done(true, t - {existing} + {c}) else Done(false, t)
    case StableConcat => Add(t, c, p.limit)
    case _ =>
      if t == {} then Add(t, c, p.limit)
      else if SameValue(Least(t), c) then Done(false, t)
      else SingleConflict
  }

  /** `Wavefront::merge` on the set of all stored cells. */
  ghost function Merge(s: set<FieldCell>, c: FieldCell, p: Policy): (r: Merged)
    requires IdsDetermine(s)
  {
    if HasId(s, c.id) then Done(false, s)
    else
      var t := InScope(s, ScopeOf(c));
      var m := MergeInto(t, c, p);
      if m.Done? then Done(m.changed, s - t + m.cells) else m
  }

  lemma MergeIntoStays(t: set<FieldCell>, c: FieldCell, p: Policy)
    requires IdsDetermine(t + {c})
    ensures MergeInto(t, c, p).Done? ==> MergeInto(t, c, p).cells <= t + {c}
  {
    hide StableLess;
  }

  /** A merge touches its own scope only and keeps ids unique. */
  lemma MergeStaysInScope(s: set<FieldCell>, c: FieldCell, p: Policy)
    requires IdsDetermine(s) && Merge(s, c, p).Done?
    ensures var r := Merge(s, c, p).cells;
      && r <= s + {c} && IdsDetermine(r)
      && (forall scope | scope != ScopeOf(c) :: InScope(r, scope) == InScope(s, scope))
      && (!HasId(s, c.id) ==> InScope(r, ScopeOf(c)) == MergeInto(InScope(s, ScopeOf(c)), c, p).cells)
  {
    hide MergeInto;
    if !HasId(s, c.id) {
      MergeIntoStays(InScope(s, ScopeOf(c)), c, p);
    }
  }

  // ----- the top of a set -----

  ghost predicate IsTop(r: set<FieldCell>, s: set<FieldCell>, k: nat) {
    && r <= s
    && |r| == (if |s| <= k then |s| else k)
    && forall x, y | x in r && y in s && y !in r :: StableLess(x, y)
  }

  lemma {:induction false} TopKeepIsTop(s: set<FieldCell>, k: nat)
    requires IdsDetermine(s)
    ensures IsTop(TopKeep(s, k), s, k)
    decreases |s|
  {
    hide StableLess;
    if |s| > k {
      TopKeepIsTop(s - {Greatest(s)}, k);
    }
  }

  lemma TopIsUnique(r: set<FieldCell>, q: set<FieldCell>, s: set<FieldCell>, k: nat)
    requires IsTop(r, s, k) && IsTop(q, s, k)
    ensures r == q
  {
    hide StableLess;
    if r != q {
      SameSizeDiffers(r, q);
      SameSizeDiffers(q, r);
      var x :| x in r && x !in q;
      var y :| y in q && y !in r;
      StableOrderIsTotal(x, y);
    }
  }

  /** The cells of a set that come before `c`. */
  ghost function Before(s: set<FieldCell>, c: FieldCell): set<FieldCell> {
    set d | d in s && StableLess(d, c)
  }

  /** A cell is among the `k` least exactly when fewer than `k` cells come before it. */
  lemma TopIffFewBefore(s: set<FieldCell>, c: FieldCell, k: nat)
    requires IdsDetermine(s) && c in s
    ensures c in TopKeep(s, k) <==> |Before(s, c)| < k
  {
    hide StableLess;
    hide TopKeep;
    var r, before := TopKeep(s, k), Before(s, c);
    TopKeepIsTop(s, k);
    forall d | d in s ensures !(StableLess(d, c) && StableLess(c, d)) {
      StableOrderIsTotal(d, c);
    }
    SubsetSize(before, s - {c});
    if |s| <= k {
      SubsetSize(r, s);
    } else if c in r {
      SubsetSize(before, r - {c});
    } else {
      SubsetSize(r, before);
    }
  }

  /** The better of two cells is the top one. */
  lemma TopOfTwo(x: FieldCell, y: FieldCell)
    requires StableLess(x, y)
    ensures IdsDetermine({x, y}) ==> TopKeep({x, y}, 1) == {x}
  {
    if IdsDetermine({x, y}) {
      StableOrderIsTotal(x, y);
      StableOrderIsTotal(x, x);
      TopKeepIsTop({x, y}, 1);
      assert IsTop({x}, {x, y}, 1);
      TopIsUnique({x}, TopKeep({x, y}, 1), {x, y}, 1);
    }
  }

  /** Keeping the top of what was kept and one more is keeping the top of everything and one more. */
  lemma TopOfTop(t: set<FieldCell>, a: set<FieldCell>, c: FieldCell, r: set<FieldCell>, k: nat)
    requires IsTop(t, a, k) && IsTop(r, t + {c}, k)
    ensures IsTop(r, a + {c}, k)
  {
    hide StableLess;
    if |a| <= k {
      if t != a { SameSizeDiffers(a, t); SubsetSize(t, a); }
      assert t == a;
    } else {
      var u := t + {c};
      assert if c in t then u == t else |u| == k + 1;
      assert |a + {c}| >= |a| by { SubsetSize(a, a + {c}); }
      assert |r| == k;
      forall x, y | x in r && y in a + {c} && y !in r ensures StableLess(x, y) {
        if y !in u && x !in t {
          assert x == c;
          assert |u| == k + 1;
          if u <= r { SubsetSize(u, r); }
          var z :| z in u && z !in r;
          assert StableLess(c, z) && z in t;
          StableOrderIsTransitive(c, z, y);
        }
      }
    }
  }

  /** The same for the set that results: arrival order does not matter to what is kept. */
  lemma TopKeepStep(a: set<FieldCell>, c: FieldCell, k: nat)
    requires IdsDetermine(a + {c})
    ensures TopKeep(TopKeep(a, k) + {c}, k) == TopKeep(a + {c}, k)
  {
    hide StableLess;
    var t := TopKeep(a, k);
    TopKeepIsTop(a, k);
    TopKeepIsTop(t + {c}, k);
    TopKeepIsTop(a + {c}, k);
    TopOfTop(t, a, c, TopKeep(t + {c}, k), k);
    TopIsUnique(TopKeep(t + {c}, k), TopKeep(a + {c}, k), a + {c}, k);
  }
}
