/** The decoder undoes the encoder; the encoder is injective and prefix-free. */
module CborTheorems {
  import opened Bytes
  import opened CborValue
  import opened CborCodec

  // ----- reading back what was written -----

  lemma ArgumentReadsBack(additional: nat, n: uint64, rest: bytes)
    requires 24 <= additional <= 27 && n < Pow256(Width(additional))
    ensures ReadArgument(BigEndian(n, Width(additional)) + rest, additional) == Ok(n, rest)
  {
    hide BigEndian;
    hide FromBigEndian;
    var s := BigEndian(n, Width(additional)) + rest;
    assert s[..Width(additional)] == BigEndian(n, Width(additional)) && s[Width(additional)..] == rest;
    BigEndianRoundTrip(n, Width(additional));
  }

  lemma HeadReadsBack(major: nat, n: uint64, rest: bytes)
    requires major < 8
    ensures var s := Head(major, n) + rest;
      s[0] / 32 == major && ReadArgument(s[1..], s[0] % 32) == Ok(n, rest)
  {
    hide BigEndian;
    var s := Head(major, n) + rest;
    if n < 24 {
      assert s[1..] == rest;
    } else {
      hide ReadArgument;
      var additional := s[0] % 32;
      assert Pow256(1) == 0x100 && Pow256(2) == 0x1_0000 && Pow256(4) == 0x1_0000_0000;
      assert Pow256(8) == 0x1_0000_0000_0000_0000;
      assert s[1..] == BigEndian(n, Width(additional)) + rest;
      ArgumentReadsBack(additional, n, rest);
    }
  }

  lemma ReadAfterHead(major: nat, n: uint64, tail: bytes, depth: nat, limits: Limits)
    requires major <= 5 && depth <= limits.depth
    ensures Read(Head(major, n) + tail, depth, limits) == ReadBody(major, n, tail, depth, limits)
  {
    hide ReadBody;
    HeadReadsBack(major, n, tail);
  }

  lemma StringReadsBack(major: nat, t: bytes, rest: bytes, depth: nat, limits: Limits)
    requires 2 <= major <= 3 && |t| < 0x1_0000_0000_0000_0000 && depth <= limits.depth
    ensures Read(Head(major, |t|) + t + rest, depth, limits)
         == Ok(if major == 2 then Blob(t) else Text(t), rest)
  {
    hide Read;
    hide Head;
    ReadAfterHead(major, |t|, t + rest, depth, limits);
    assert Head(major, |t|) + t + rest == Head(major, |t|) + (t + rest);
    assert (t + rest)[..|t|] == t && (t + rest)[|t|..] == rest;
  }

  lemma DoubleReadsBack(bits: uint64, rest: bytes, depth: nat, limits: Limits)
    requires depth <= limits.depth
    ensures Read([0xfb] + BigEndian(bits, 8) + rest, depth, limits) == Ok(Double(bits), rest)
  {
    hide ReadBody;
    var s := [0xfb] + BigEndian(bits, 8) + rest;
    assert s[1..] == BigEndian(bits, 8) + rest;
    assert s[1..][..8] == BigEndian(bits, 8) && s[1..][8..] == rest;
    assert Pow256(8) == 0x1_0000_0000_0000_0000;
    BigEndianRoundTrip(bits, 8);
  }

  /** RFC 8949 section 3: an encoded item is self-delimiting. */
  lemma {:induction false} ReadsBack(v: Value, rest: bytes, depth: nat, limits: Limits)
    requires Representable(v) && depth <= limits.depth && Fits(v, limits.depth - depth, limits.items)
    ensures Read(Encode(v) + rest, depth, limits) == Ok(v, rest)
    decreases v, 2
  {
    hide EncodeItems;
    hide EncodeEntries;
    match v
    case Int(n) =>
      hide Read;
      ReadAfterHead(if n >= 0 then 0 else 1, if n >= 0 then n else -1 - n, rest, depth, limits);
    case Double(bits) =>
      hide Read;
      DoubleReadsBack(bits, rest, depth, limits);
    case Text(t) =>
      hide Read;
      StringReadsBack(3, t, rest, depth, limits);
    case Blob(b) =>
      hide Read;
      StringReadsBack(2, b, rest, depth, limits);
    case Array(items) =>
      hide Read;
      ArrayReadsBack(v, rest, depth, limits);
    case Map(entries) =>
      hide Read;
      MapReadsBack(v, rest, depth, limits);
    case _ =>
      hide ReadBody;
      assert (Encode(v) + rest)[1..] == rest;
  }

  lemma {:induction false} ArrayReadsBack(v: Value, rest: bytes, depth: nat, limits: Limits)
    requires v.Array? && Representable(v) && depth <= limits.depth
    requires Fits(v, limits.depth - depth, limits.items)
    ensures Read(Encode(v) + rest, depth, limits) == Ok(v, rest)
    decreases v, 1
  {
    hide Read;
    hide Head;
    hide ReadItems;
    hide EncodeItems;
    var body := EncodeItems(v.items) + rest;
    assert Encode(v) + rest == Head(4, |v.items|) + body;
    ReadAfterHead(4, |v.items|, body, depth, limits);
    ItemsReadBack(v.items, rest, depth, limits, []);
    assert [] + v.items == v.items;
  }

  lemma CountsInRange(v: Value, room: nat, items: nat)
    requires v.Map? && Representable(v) && Fits(v, room, items)
    ensures |v.entries| < 0x1_0000_0000_0000_0000 && |v.entries| <= items
  {
  }

  lemma {:induction false} MapReadsBack(v: Value, rest: bytes, depth: nat, limits: Limits)
    requires v.Map? && Representable(v) && depth <= limits.depth
    requires Fits(v, limits.depth - depth, limits.items)
    ensures Read(Encode(v) + rest, depth, limits) == Ok(v, rest)
    decreases v, 1
  {
    hide Read;
    hide Head;
    hide ReadEntries;
    hide EncodeEntries;
    hide Fits;
    hide Representable;
    CountsInRange(v, limits.depth - depth, limits.items);
    var body := EncodeEntries(v, v.entries.Keys) + rest;
    assert Encode(v) + rest == Head(5, |v.entries|) + body;
    ReadAfterHead(5, |v.entries|, body, depth, limits);
    EntriesReadBack(v, v.entries.Keys, rest, depth, limits, map[]);
    assert |v.entries.Keys| == |v.entries|;
    assert map[] + OnlyKeys(v.entries, v.entries.Keys) == v.entries;
  }

  lemma {:induction false} ItemsReadBack(xs: seq<Value>, rest: bytes, depth: nat, limits: Limits, done: seq<Value>)
    requires forall i | 0 <= i < |xs| :: Representable(xs[i])
    requires xs != [] ==> depth < limits.depth
    requires forall i | 0 <= i < |xs| :: Fits(xs[i], limits.depth - depth - 1, limits.items)
    ensures ReadItems(EncodeItems(xs) + rest, |xs|, depth, limits, done) == Ok(done + xs, rest)
    decreases xs, 1
  {
    hide Read;
    hide Encode;
    if xs == [] {
      assert EncodeItems(xs) + rest == rest && done + xs == done;
    } else {
      var tail := EncodeItems(xs[1..]) + rest;
      assert EncodeItems(xs) + rest == Encode(xs[0]) + tail;
      ReadsBack(xs[0], tail, depth + 1, limits);
      ItemsReadBack(xs[1..], rest, depth, limits, done + [xs[0]]);
      assert done + [xs[0]] + xs[1..] == done + xs;
    }
  }

  ghost function OnlyKeys(m: map<bytes, Value>, keys: set<bytes>): map<bytes, Value> {
    map k | k in m && k in keys :: m[k]
  }

  lemma EntryReadsBack(k: bytes, v: Value, tail: bytes, n: nat, depth: nat, limits: Limits, done: map<bytes, Value>)
    requires n > 0 && |k| < 0x1_0000_0000_0000_0000 && Representable(v) && k !in done && depth < limits.depth
    requires Read(Encode(v) + tail, depth + 1, limits) == Ok(v, tail)
    ensures ReadEntries(EncodeText(k) + (Encode(v) + tail), n, depth, limits, done)
         == ReadEntries(tail, n - 1, depth, limits, done[k := v])
  {
    hide Read;
    hide Encode;
    hide Head;
    StringReadsBack(3, k, Encode(v) + tail, depth + 1, limits);
  }

  lemma OnlyKeysGrows(m: map<bytes, Value>, keys: set<bytes>, k: bytes, done: map<bytes, Value>)
    requires k in keys && keys <= m.Keys
    ensures done[k := m[k]] + OnlyKeys(m, keys - {k}) == done + OnlyKeys(m, keys)
  {
  }

  lemma {:induction false} FirstEntryReadsBack(owner: Value, keys: set<bytes>, rest: bytes, depth: nat,
                                               limits: Limits, done: map<bytes, Value>)
    requires owner.Map? && Representable(owner) && keys <= owner.entries.Keys && keys !! done.Keys
    requires keys != {} && depth <= limits.depth && Fits(owner, limits.depth - depth, limits.items)
    ensures var k := Least(keys);
      ReadEntries(EncodeEntries(owner, keys) + rest, |keys|, depth, limits, done)
      == ReadEntries(EncodeEntries(owner, keys - {k}) + rest, |keys| - 1, depth, limits, done[k := owner.entries[k]])
    decreases owner, 0, |keys|, 0
  {
    hide Encode;
    hide EncodeText;
    hide Read;
    hide ReadEntries;
    var k := Least(keys);
    var v := owner.entries[k];
    var tail := EncodeEntries(owner, keys - {k}) + rest;
    assert EncodeEntries(owner, keys) + rest == EncodeText(k) + (Encode(v) + tail);
    ReadsBack(v, tail, depth + 1, limits);
    EntryReadsBack(k, v, tail, |keys|, depth, limits, done);
  }

  lemma {:induction false} EntriesReadBack(owner: Value, keys: set<bytes>, rest: bytes, depth: nat,
                                           limits: Limits, done: map<bytes, Value>)
    requires owner.Map? && Representable(owner) && keys <= owner.entries.Keys && keys !! done.Keys
    requires depth <= limits.depth && Fits(owner, limits.depth - depth, limits.items)
    ensures ReadEntries(EncodeEntries(owner, keys) + rest, |keys|, depth, limits, done)
         == Ok(done + OnlyKeys(owner.entries, keys), rest)
    decreases owner, 0, |keys|, 1
  {
    hide ReadEntries;
    hide Fits;
    hide Representable;
    if keys == {} {
      NoEntriesReadBack(rest, depth, limits, done);
      assert EncodeEntries(owner, keys) + rest == rest;
      assert done + OnlyKeys(owner.entries, keys) == done;
    } else {
      hide EncodeEntries;
      var k := Least(keys);
      FirstEntryReadsBack(owner, keys, rest, depth, limits, done);
      EntriesReadBack(owner, keys - {k}, rest, depth, limits, done[k := owner.entries[k]]);
      OnlyKeysGrows(owner.entries, keys, k, done);
    }
  }

  lemma NoEntriesReadBack(rest: bytes, depth: nat, limits: Limits, done: map<bytes, Value>)
    ensures ReadEntries(rest, 0, depth, limits, done) == Ok(done, rest)
  {
  }

  /** For every value within the limits, decoding the encoding gives the value. */
  lemma DecodeEncode(v: Value, limits: Limits)
    requires Representable(v) && Fits(v, limits.depth, limits.items)
    ensures Decode(Encode(v), limits) == Ok(v, [])
  {
    ReadsBack(v, [], 0, limits);
    assert Encode(v) + [] == Encode(v);
  }

  /** Two encodings followed by anything agree only if the values and what follows agree. */
  lemma EncodingIsPrefixFree(v: Value, w: Value, r: bytes, s: bytes)
    requires Representable(v) && Representable(w)
    requires Encode(v) + r == Encode(w) + s
    ensures v == w && r == s
  {
    hide Fits;
    hide Representable;
    hide Encode;
    hide Read;
    var d0, n0 := SomeLimitsFit(v);
    var d1, n1 := SomeLimitsFit(w);
    var limits := Limits(Max(d0, d1), Max(n0, n1));
    FitsWider(v, d0, n0, limits.depth, limits.items);
    FitsWider(w, d1, n1, limits.depth, limits.items);
    ReadsBack(v, r, 0, limits);
    ReadsBack(w, s, 0, limits);
  }

  /** Equal encodings mean equal values: comparing encodings is comparing values. */
  lemma EncodingIsInjective(v: Value, w: Value)
    requires Representable(v) && Representable(w)
    ensures Encode(v) == Encode(w) <==> v == w
  {
    if Encode(v) == Encode(w) {
      EncodingIsPrefixFree(v, w, [], []);
    }
  }
}
