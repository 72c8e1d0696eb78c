/** Optional values and the sizes of finite sets. */
module Basics {

  datatype Option<+T> = None | Some(value: T)

  /** A subset is no larger, it is as large only when it is the whole set, and the rest is the difference. */
  lemma SubsetSize<T>(a: set<T>, b: set<T>)
    requires a <= b
    ensures |a| <= |b| && |b - a| == |b| - |a|
    ensures |a| == |b| <==> a == b
  {
    assert b == a + (b - a);
    if a != b {
      var x :| x in b && x !in a;
      assert x in b - a;
    }
  }

  /** Of two different sets of one size, each has an element that the other lacks. */
  lemma SameSizeDiffers<T>(a: set<T>, b: set<T>)
    requires |a| == |b| && a != b
    ensures exists x :: x in a && x !in b
  {
    if a <= b {
      SubsetSize(a, b);
    }
  }

  lemma UnionSize<T>(a: set<T>, b: set<T>)
    ensures |a| + |b| == |a + b| + |a * b|
  {
    assert a + b == a + (b - a) && a !! (b - a);
    assert b == (b - a) + a * b && (b - a) !! a * b;
  }
}
