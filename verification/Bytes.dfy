/** Bytes, big-endian integers and the two byte-string orders the daemon relies on. */
module Bytes {

  type byte = x: int | 0 <= x < 256

  type bytes = seq<byte>

  /** 256 to the power `width`: the number of values `width` bytes can hold. */
  function Pow256(width: nat): (p: nat)
    ensures p >= 1
  {
    if width == 0 then 1 else 256 * Pow256(width - 1)
  }

  /** The low `width` bytes of `n`, most significant first. */
  function BigEndian(n: nat, width: nat): (b: bytes)
    ensures |b| == width
  {
    if width == 0 then [] else BigEndian(n / 256, width - 1) + [n % 256]
  }

  function FromBigEndian(b: bytes): (n: nat)
    ensures n < Pow256(|b|)
  {
    if b == [] then 0 else FromBigEndian(b[..|b| - 1]) * 256 + b[|b| - 1]
  }

  /** One more byte at the end is one more digit. */
  lemma FromSnoc(b: bytes, x: byte)
    ensures FromBigEndian(b + [x]) == FromBigEndian(b) * 256 + x
  {
    assert (b + [x])[..|b|] == b;
  }

  /** Writing then reading an integer that fits gives it back. */
  lemma {:induction false} BigEndianRoundTrip(n: nat, width: nat)
    requires n < Pow256(width)
    ensures FromBigEndian(BigEndian(n, width)) == n
  {
    hide FromBigEndian;
    if width == 0 {
      FromNothing();
    } else {
      BigEndianRoundTrip(n / 256, width - 1);
      FromSnoc(BigEndian(n / 256, width - 1), n % 256);
    }
  }

  lemma FromNothing()
    ensures FromBigEndian([]) == 0
  {
  }

  /** Reading then writing gives the bytes back: `width` bytes denote one integer only. */
  lemma {:induction false} FromBigEndianRoundTrip(b: bytes)
    ensures BigEndian(FromBigEndian(b), |b|) == b
  {
    hide FromBigEndian;
    if b != [] {
      var init, x := b[..|b| - 1], b[|b| - 1];
      assert b == init + [x];
      FromBigEndianRoundTrip(init);
      FromSnoc(init, x);
    }
  }

  /** The byte a shift-and-truncate produces is the byte at that place. */
  lemma {:induction false} BigEndianAt(n: nat, width: nat, k: nat)
    requires k < width
    ensures BigEndian(n, width)[k] == n / Pow256(width - 1 - k) % 256
  {
    if k < width - 1 {
      BigEndianAt(n / 256, width - 1, k);
      DivideTwice(n, Pow256(width - 2 - k));
    }
  }

  lemma DivideTwice(n: nat, d: nat)
    requires d >= 1
    ensures n / 256 / d == n / (256 * d)
  {
    var m := n / 256;
    var q, r := m / d, m % d;
    DivisionIs(m, d);
    RemainderBelow(m, d);
    assert 256 * m == (256 * d) * q + 256 * r by {
      Regroup(d, q, r);
    }
    QuotientUnique(n, 256 * d, q, 256 * r + n % 256);
  }

  lemma Regroup(d: nat, q: nat, r: nat)
    ensures 256 * (d * q + r) == (256 * d) * q + 256 * r
  {
  }

  lemma DivisionIs(n: nat, d: nat)
    requires d >= 1
    ensures n == d * (n / d) + n % d
  {
  }

  lemma RemainderBelow(n: nat, d: nat)
    requires d >= 1
    ensures 0 <= n % d < d
  {
  }

  /** A larger factor adds at least one more `d`. */
  lemma {:induction false} MulGrows(d: nat, a: nat, b: nat)
    requires a < b
    ensures d * a + d <= d * b
    decreases b - a
  {
    assert d * b == d * (b - 1) + d;
    if a < b - 1 {
      MulGrows(d, a, b - 1);
    }
  }

  /** Division with remainder has one result. */
  lemma OneQuotient(d: nat, p: nat, m: nat, q: nat, r: nat)
    requires m < d && r < d && d * p + m == d * q + r
    ensures p == q
  {
    if p < q {
      MulGrows(d, p, q);
    } else if q < p {
      MulGrows(d, q, p);
    }
  }

  lemma QuotientUnique(n: nat, d: nat, q: nat, r: nat)
    requires r < d && n == d * q + r
    ensures n / d == q
  {
    DivisionIs(n, d);
    RemainderBelow(n, d);
    OneQuotient(d, n / d, n % d, q, r);
  }

  /** `std::string` order: the first difference decides, a proper prefix comes first. */
  predicate LexLess(a: bytes, b: bytes) {
    if b == [] then false
    else if a == [] then true
    else a[0] < b[0] || (a[0] == b[0] && LexLess(a[1..], b[1..]))
  }

  lemma {:induction false} LexTrichotomy(a: bytes, b: bytes)
    ensures LexLess(a, b) || a == b || LexLess(b, a)
    ensures LexLess(a, b) ==> a != b && !LexLess(b, a)
  {
    if a != [] && b != [] {
      LexTrichotomy(a[1..], b[1..]);
      assert a == [a[0]] + a[1..] && b == [b[0]] + b[1..];
    }
  }

  lemma {:induction false} LexTransitive(a: bytes, b: bytes, c: bytes)
    requires LexLess(a, b) && LexLess(b, c)
    ensures LexLess(a, c)
  {
    if a != [] && b != [] && c != [] && a[0] == b[0] == c[0] {
      LexTransitive(a[1..], b[1..], c[1..]);
    }
  }

  /** Both agree on the first `k` bytes; there `a` ends or has the smaller byte. */
  ghost predicate FirstDifference(a: bytes, b: bytes, k: nat) {
    k <= |a| && k < |b| && (forall i | 0 <= i < k :: a[i] == b[i]) && (k == |a| || a[k] < b[k])
  }

  /** The first difference makes `a` the smaller byte string. */
  ghost predicate BytesBefore(a: bytes, b: bytes) {
    exists k: nat :: FirstDifference(a, b, k)
  }

  /** `std::string` order is the order by the first difference. */
  lemma {:induction false} LexDecides(a: bytes, b: bytes)
    ensures LexLess(a, b) <==> BytesBefore(a, b)
  {
    if a != [] && b != [] && a[0] == b[0] {
      LexDecides(a[1..], b[1..]);
      if BytesBefore(a[1..], b[1..]) {
        var k: nat :| FirstDifference(a[1..], b[1..], k);
        forall i | 0 <= i < k + 1 ensures a[i] == b[i] {
          if i > 0 { assert a[1..][i - 1] == b[1..][i - 1]; }
        }
        assert FirstDifference(a, b, k + 1);
      }
      if BytesBefore(a, b) {
        var k: nat :| FirstDifference(a, b, k);
        assert k > 0;
        assert forall i | 0 <= i < k - 1 :: a[1..][i] == a[i + 1] && b[1..][i] == b[i + 1];
        assert FirstDifference(a[1..], b[1..], k - 1);
      }
    } else if LexLess(a, b) {
      assert FirstDifference(a, b, 0);
    }
  }
}
