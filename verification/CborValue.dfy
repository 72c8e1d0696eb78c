/** The value tree of `tokmon::cbor` and the limits a reader puts on it. */
module CborValue {
  import opened Bytes

  type int64 = x: int | -0x8000_0000_0000_0000 <= x < 0x8000_0000_0000_0000
  type uint64 = x: int | 0 <= x < 0x1_0000_0000_0000_0000

  const MAX_ITEMS: nat := 1_000_000

  /** Doubles are opaque 64-bit patterns; text is a byte string, as in the source. */
  datatype Value =
    | Null
    | Bool(flag: bool)
    | Int(number: int64)
    | Double(bits: uint64)
    | Text(text: bytes)
    | Blob(blob: bytes)
    | Array(items: seq<Value>)
    | Map(entries: map<bytes, Value>)

  /** Every size is one a 64-bit `size_t` can hold: true of any value in memory. */
  ghost predicate Representable(v: Value) {
    match v
    case Text(t) => |t| < 0x1_0000_0000_0000_0000
    case Blob(b) => |b| < 0x1_0000_0000_0000_0000
    case Array(items) =>
      && |items| < 0x1_0000_0000_0000_0000
      && forall i | 0 <= i < |items| :: Representable(items[i])
    case Map(entries) =>
      && |entries| < 0x1_0000_0000_0000_0000
      && forall k | k in entries :: |k| < 0x1_0000_0000_0000_0000 && Representable(entries[k])
    case _ => true
  }

  /** What a reader is willing to take: `room` more levels of nesting, `items` per collection. */
  datatype Limits = Limits(depth: nat, items: nat)

  ghost predicate Fits(v: Value, room: nat, items: nat) {
    match v
    case Array(xs) =>
      && |xs| <= items
      && (xs == [] || room > 0)
      && forall i | 0 <= i < |xs| :: Fits(xs[i], room - 1, items)
    case Map(m) =>
      && |m| <= items
      && (m == map[] || room > 0)
      && forall k | k in m :: Fits(m[k], room - 1, items)
    case _ => true
  }

  /** Every value is within some limits. */
  lemma {:induction false} SomeLimitsFit(v: Value) returns (room: nat, items: nat)
    ensures Fits(v, room, items)
  {
    match v
    case Array(xs) =>
      room, items := 1, |xs|;
      for i := 0 to |xs|
        invariant room >= 1 && items >= |xs|
        invariant forall j | 0 <= j < i :: Fits(xs[j], room - 1, items)
      {
        var r, n := SomeLimitsFit(xs[i]);
        ghost var room', items' := Max(room, r + 1), Max(items, n);
        forall j | 0 <= j <= i ensures Fits(xs[j], room' - 1, items') {
          if j < i { FitsWider(xs[j], room - 1, items, room' - 1, items'); }
          else { FitsWider(xs[j], r, n, room' - 1, items'); }
        }
        room, items := room', items';
      }
    case Map(m) =>
      room, items := 1, |m|;
      var todo := m.Keys;
      while todo != {}
        invariant todo <= m.Keys && room >= 1 && items >= |m|
        invariant forall k | k in m && k !in todo :: Fits(m[k], room - 1, items)
      {
        var k :| k in todo;
        var r, n := SomeLimitsFit(m[k]);
        ghost var room', items' := Max(room, r + 1), Max(items, n);
        forall j | j in m && j !in todo - {k} ensures Fits(m[j], room' - 1, items') {
          if j != k { FitsWider(m[j], room - 1, items, room' - 1, items'); }
          else { FitsWider(m[j], r, n, room' - 1, items'); }
        }
        todo, room, items := todo - {k}, room', items';
      }
    case _ => room, items := 0, 0;
  }

  lemma {:induction false} FitsWider(v: Value, room: nat, items: nat, room': nat, items': nat)
    requires Fits(v, room, items) && room <= room' && items <= items'
    ensures Fits(v, room', items')
  {
    match v
    case Array(xs) =>
      forall i | 0 <= i < |xs| ensures Fits(xs[i], room' - 1, items') {
        FitsWider(xs[i], room - 1, items, room' - 1, items');
      }
    case Map(m) =>
      forall k | k in m ensures Fits(m[k], room' - 1, items') {
        FitsWider(m[k], room - 1, items, room' - 1, items');
      }
    case _ =>
  }

  function Max(a: nat, b: nat): nat {
    if a < b then b else a
  }

  /** RFC 8949 section 4.2.3: shorter keys first, then byte order. */
  predicate KeyLess(a: bytes, b: bytes) {
    if |a| != |b| then |a| < |b| else LexLess(a, b)
  }

  lemma KeyOrderIsTotal(a: bytes, b: bytes)
    ensures KeyLess(a, b) || a == b || KeyLess(b, a)
    ensures KeyLess(a, b) ==> a != b && !KeyLess(b, a)
  {
    LexTrichotomy(a, b);
  }

  lemma KeyOrderIsTransitive(a: bytes, b: bytes, c: bytes)
    requires KeyLess(a, b) && KeyLess(b, c)
    ensures KeyLess(a, c)
  {
    if |a| == |b| == |c| {
      LexTransitive(a, b, c);
    }
  }

  ghost predicate IsLeast(k: bytes, keys: set<bytes>) {
    k in keys && forall o | o in keys && o != k :: KeyLess(k, o)
  }

  lemma {:induction false} LeastExists(keys: set<bytes>)
    requires keys != {}
    ensures exists k :: IsLeast(k, keys)
  {
    var x :| x in keys;
    if keys == {x} {
      assert IsLeast(x, keys);
    } else {
      LeastExists(keys - {x});
      var y :| IsLeast(y, keys - {x});
      KeyOrderIsTotal(x, y);
      if KeyLess(x, y) {
        forall o | o in keys && o != x ensures KeyLess(x, o) {
          if o != y { KeyOrderIsTransitive(x, y, o); }
        }
        assert IsLeast(x, keys);
      } else {
        assert IsLeast(y, keys);
      }
    }
  }

  /** The key a canonical encoding writes first. */
  ghost function Least(keys: set<bytes>): (k: bytes)
    requires keys != {}
    ensures k in keys
  {
    LeastExists(keys);
    var k :| IsLeast(k, keys);
    k
  }

  lemma LeastIsUnique(k: bytes, keys: set<bytes>)
    requires IsLeast(k, keys)
    ensures k == Least(keys)
  {
    LeastExists(keys);
    var l := Least(keys);
    assert IsLeast(l, keys);
    KeyOrderIsTotal(k, l);
  }
}
