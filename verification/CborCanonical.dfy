/** What a successful decode guarantees, and which byte strings are canonical. */
module CborCanonical {
  import opened Bytes
  import opened CborValue
  import opened CborCodec
  import opened CborTheorems

  const WORD := 0x1_0000_0000_0000_0000

  /** `v` respects the limits and re-encodes into at most `budget` bytes. */
  ghost predicate Sound(v: Value, room: nat, items: nat, budget: int) {
    Representable(v) && Fits(v, room, items) && |Encode(v)| <= budget
  }

  // ----- the head -----

  lemma ArgumentSound(s: bytes, major: nat, additional: nat)
    requires major < 8 && additional < 32 && ReadArgument(s, additional).Ok?
    ensures var r := ReadArgument(s, additional);
      |Head(major, r.value)| + |r.rest| <= 1 + |s|
  {
    if additional >= 24 {
      var width := Width(additional);
      var n := FromBigEndian(s[..width]);
      hide FromBigEndian;
      hide BigEndian;
      assert n < Pow256(width);
      assert Pow256(1) == 0x100 && Pow256(2) == 0x1_0000 && Pow256(4) == 0x1_0000_0000;
    }
  }

  // ----- the collections -----

  /** Which key comes first does not change how long the entries are. */
  lemma {:induction false} EntriesLength(owner: Value, keys: set<bytes>, k: bytes)
    requires owner.Map? && Representable(owner) && keys <= owner.entries.Keys && k in keys
    ensures |EncodeEntries(owner, keys)|
         == |EncodeText(k)| + |Encode(owner.entries[k])| + |EncodeEntries(owner, keys - {k})|
    decreases |keys|
  {
    hide Encode;
    hide EncodeText;
    var l := Least(keys);
    if l != k {
      EntriesLength(owner, keys - {l}, k);
      EntriesLength(owner, keys - {k}, l);
      assert keys - {l} - {k} == keys - {k} - {l};
    }
  }

  ghost predicate EntriesSound(m: map<bytes, Value>, room: nat, items: nat) {
    forall k | k in m :: |k| < WORD && Representable(m[k]) && Fits(m[k], room, items)
  }

  lemma MapRepresentable(m: map<bytes, Value>, room: nat, items: nat)
    requires m == map[] || EntriesSound(m, room, items)
    requires |m| < WORD
    ensures Representable(Map(m))
    ensures |m| <= items ==> Fits(Map(m), room + 1, items)
  {
  }

  // ----- the reader -----

  lemma {:induction false} ReadSound(s: bytes, depth: nat, limits: Limits)
    requires |s| < WORD && Read(s, depth, limits).Ok?
    ensures depth <= limits.depth
    ensures var r := Read(s, depth, limits);
      Sound(r.value, limits.depth - depth, limits.items, |s| - |r.rest|)
    decreases |s|, 0
  {
    hide ReadArgument;
    hide BigEndian;
    hide FromBigEndian;
    var major, additional := s[0] / 32, s[0] % 32;
    if major <= 5 {
      var head := ReadArgument(s[1..], additional);
      ArgumentSound(s[1..], major, additional);
      BodySound(major, head.value, head.rest, depth, limits);
    } else {
      SimpleSound(s, depth, limits);
    }
  }

  lemma SimpleSound(s: bytes, depth: nat, limits: Limits)
    requires depth <= limits.depth && s != [] && s[0] / 32 == 7 && ReadSimple(s[0] % 32, s[1..]).Ok?
    ensures var r := ReadSimple(s[0] % 32, s[1..]);
      Sound(r.value, limits.depth - depth, limits.items, |s| - |r.rest|)
  {
  }

  lemma {:induction false} BodySound(major: nat, n: uint64, s: bytes, depth: nat, limits: Limits)
    requires major <= 5 && depth <= limits.depth && |s| < WORD
    requires ReadBody(major, n, s, depth, limits).Ok?
    ensures var r := ReadBody(major, n, s, depth, limits);
      Sound(r.value, limits.depth - depth, limits.items, |Head(major, n)| + |s| - |r.rest|)
    decreases |s|, 3
  {
    hide Head;
    if major == 4 {
      hide ReadBody;
      hide Sound;
      ArraySound(n, s, depth, limits);
    } else if major == 5 {
      hide ReadBody;
      hide Sound;
      MapBodySound(n, s, depth, limits);
    } else {
      hide ReadItems;
      hide ReadEntries;
    }
  }

  lemma {:induction false} ArraySound(n: uint64, s: bytes, depth: nat, limits: Limits)
    requires depth <= limits.depth && |s| < WORD && ReadBody(4, n, s, depth, limits).Ok?
    ensures var r := ReadBody(4, n, s, depth, limits);
      Sound(r.value, limits.depth - depth, limits.items, |Head(4, n)| + |s| - |r.rest|)
    decreases |s|, 2
  {
    hide ReadItems;
    hide EncodeItems;
    hide Head;
    ItemsSound(s, n, depth, limits, []);
    var xs := ReadItems(s, n, depth, limits, []).value;
    assert xs[0..] == xs;
  }

  lemma {:induction false} MapBodySound(n: uint64, s: bytes, depth: nat, limits: Limits)
    requires depth <= limits.depth && |s| < WORD && ReadBody(5, n, s, depth, limits).Ok?
    ensures var r := ReadBody(5, n, s, depth, limits);
      Sound(r.value, limits.depth - depth, limits.items, |Head(5, n)| + |s| - |r.rest|)
    decreases |s|, 2
  {
    hide ReadEntries;
    hide EncodeEntries;
    hide Encode;
    hide Head;
    EntriesReadSound(s, n, depth, limits, map[]);
    var m := ReadEntries(s, n, depth, limits, map[]).value;
    MapSound(m, n, limits.depth - depth, limits.items);
    assert m.Keys - {} == m.Keys;
  }

  lemma MapSound(m: map<bytes, Value>, n: nat, room: nat, items: nat)
    requires |m| == n < WORD && n <= items
    requires m != map[] ==> room > 0 && EntriesSound(m, room - 1, items)
    ensures Representable(Map(m)) && Fits(Map(m), room, items)
    ensures |Encode(Map(m))| == |Head(5, n)| + |EncodeEntries(Map(m), m.Keys)|
  {
    hide Head;
    hide EncodeEntries;
    if m != map[] {
      MapRepresentable(m, room - 1, items);
    }
  }

  lemma {:induction false} ItemsSound(s: bytes, n: nat, depth: nat, limits: Limits, done: seq<Value>)
    requires |s| < WORD && ReadItems(s, n, depth, limits, done).Ok?
    ensures var r := ReadItems(s, n, depth, limits, done);
      && |r.value| == |done| + n
      && done == r.value[..|done|]
      && (n > 0 ==> depth < limits.depth)
      && (forall i | |done| <= i < |r.value| ::
            Representable(r.value[i]) && Fits(r.value[i], limits.depth - depth - 1, limits.items))
      && |EncodeItems(r.value[|done|..])| + |r.rest| <= |s|
    decreases |s|, 1, n
  {
    hide Read;
    hide Encode;
    hide Fits;
    hide Representable;
    if n > 0 {
      ReadSound(s, depth + 1, limits);
      var item := Read(s, depth + 1, limits);
      ItemsSound(item.rest, n - 1, depth, limits, done + [item.value]);
      var all := ReadItems(s, n, depth, limits, done).value;
      assert all[|done|] == item.value;
      assert all[|done|..] == [item.value] + all[|done| + 1..];
      assert done == all[..|done|];
    }
  }

  /** `all` extends `done` by `n` entries that re-encode into at most `budget` bytes. */
  ghost predicate Extends(done: map<bytes, Value>, all: map<bytes, Value>, n: nat, room: int, items: nat, budget: int) {
    && |all| == |done| + n
    && (forall k | k in done :: k in all && all[k] == done[k])
    && (all != map[] ==> room > 0 && EntriesSound(all, room - 1, items))
    && Representable(Map(all))
    && |EncodeEntries(Map(all), all.Keys - done.Keys)| <= budget
  }

  lemma NothingAdded(done: map<bytes, Value>, room: int, items: nat, budget: nat)
    requires done != map[] ==> room > 0 && EntriesSound(done, room - 1, items)
    requires |done| < WORD
    ensures Extends(done, done, 0, room, items, budget)
  {
    assert done.Keys - done.Keys == {};
  }

  lemma OneAdded(done: map<bytes, Value>, k: bytes, v: Value, all: map<bytes, Value>, n: nat,
                 room: int, items: nat, budget: nat)
    requires k !in done && |k| < WORD && Representable(v)
    ensures Extends(done[k := v], all, n, room, items, budget) ==>
      Extends(done, all, n + 1, room, items, |EncodeText(k)| + |Encode(v)| + budget)
  {
    hide EntriesSound;
    hide EncodeEntries;
    hide Encode;
    hide EncodeText;
    hide Representable;
    var done' := done[k := v];
    assert k in done' && done'[k] == v;
    if Extends(done', all, n, room, items, budget) {
      EntriesLength(Map(all), all.Keys - done.Keys, k);
      assert all.Keys - done.Keys - {k} == all.Keys - done'.Keys;
    }
  }

  lemma EntriesStep(s: bytes, n: nat, depth: nat, limits: Limits, done: map<bytes, Value>)
    requires n > 0 && ReadEntries(s, n, depth, limits, done).Ok?
    ensures var key := Read(s, depth + 1, limits);
      && key.Ok? && key.value.Text? && key.value.text !in done
      && var item := Read(key.rest, depth + 1, limits);
      && item.Ok?
      && ReadEntries(s, n, depth, limits, done)
         == ReadEntries(item.rest, n - 1, depth, limits, done[key.value.text := item.value])
  {
    hide Read;
  }

  lemma {:induction false} EntriesReadSound(s: bytes, n: nat, depth: nat, limits: Limits, done: map<bytes, Value>)
    requires |s| < WORD && |done| + n < WORD && ReadEntries(s, n, depth, limits, done).Ok?
    requires done != map[] ==> depth < limits.depth && EntriesSound(done, limits.depth - depth - 1, limits.items)
    ensures var r := ReadEntries(s, n, depth, limits, done);
      Extends(done, r.value, n, limits.depth - depth, limits.items, |s| - |r.rest|)
    decreases |s|, 1, n
  {
    hide Read;
    hide Encode;
    hide EncodeText;
    hide Extends;
    hide EntriesSound;
    hide Fits;
    hide Representable;
    if n > 0 {
      hide ReadEntries;
      EntriesStep(s, n, depth, limits, done);
      ReadSound(s, depth + 1, limits);
      var key := Read(s, depth + 1, limits);
      ReadSound(key.rest, depth + 1, limits);
      var item := Read(key.rest, depth + 1, limits);
      var k, v := key.value.text, item.value;
      EntryAdded(done, key.value, v, limits.depth - depth - 1, limits.items);
      EntriesReadSound(item.rest, n - 1, depth, limits, done[k := v]);
      var all := ReadEntries(item.rest, n - 1, depth, limits, done[k := v]);
      OneAdded(done, k, v, all.value, n - 1, limits.depth - depth, limits.items, |item.rest| - |all.rest|);
      Looser(done, all.value, n, limits.depth - depth, limits.items,
             |EncodeText(k)| + |Encode(v)| + |item.rest| - |all.rest|, |s| - |all.rest|);
    } else {
      NothingAdded(done, limits.depth - depth, limits.items, 0);
    }
  }

  lemma Looser(done: map<bytes, Value>, all: map<bytes, Value>, n: nat, room: int, items: nat,
               budget: int, budget': int)
    requires Extends(done, all, n, room, items, budget) && budget <= budget'
    ensures Extends(done, all, n, room, items, budget')
  {
  }

  lemma EntryAdded(done: map<bytes, Value>, key: Value, v: Value, room: nat, items: nat)
    requires key.Text? && Representable(key) && Representable(v) && Fits(v, room, items)
    requires done != map[] ==> EntriesSound(done, room, items)
    ensures EntriesSound(done[key.text := v], room, items)
    ensures |key.text| < WORD && Encode(key) == EncodeText(key.text)
  {
  }

  // ----- wider limits change no successful read -----

  lemma {:induction false} ReadWider(s: bytes, depth: nat, limits: Limits, wider: Limits)
    requires Read(s, depth, limits).Ok? && limits.depth <= wider.depth && limits.items <= wider.items
    ensures Read(s, depth, wider) == Read(s, depth, limits)
    decreases |s|, 0
  {
    hide ReadArgument;
    hide ReadItems;
    hide ReadEntries;
    hide ReadSimple;
    var major := s[0] / 32;
    if 4 <= major <= 5 {
      var head := ReadArgument(s[1..], s[0] % 32);
      if major == 4 {
        ItemsWider(head.rest, head.value, depth, limits, wider, []);
      } else {
        EntriesWider(head.rest, head.value, depth, limits, wider, map[]);
      }
    }
  }

  lemma {:induction false} ItemsWider(s: bytes, n: nat, depth: nat, limits: Limits, wider: Limits, done: seq<Value>)
    requires ReadItems(s, n, depth, limits, done).Ok? && limits.depth <= wider.depth && limits.items <= wider.items
    ensures ReadItems(s, n, depth, wider, done) == ReadItems(s, n, depth, limits, done)
    decreases |s|, 1, n
  {
    hide Read;
    if n > 0 {
      ReadWider(s, depth + 1, limits, wider);
      var item := Read(s, depth + 1, limits);
      ItemsWider(item.rest, n - 1, depth, limits, wider, done + [item.value]);
    }
  }

  lemma {:induction false} EntriesWider(s: bytes, n: nat, depth: nat, limits: Limits, wider: Limits,
                                        done: map<bytes, Value>)
    requires ReadEntries(s, n, depth, limits, done).Ok? && limits.depth <= wider.depth && limits.items <= wider.items
    ensures ReadEntries(s, n, depth, wider, done) == ReadEntries(s, n, depth, limits, done)
    decreases |s|, 1, n
  {
    hide Read;
    if n > 0 {
      ReadWider(s, depth + 1, limits, wider);
      var key := Read(s, depth + 1, limits);
      ReadWider(key.rest, depth + 1, limits, wider);
      var item := Read(key.rest, depth + 1, limits);
      EntriesWider(item.rest, n - 1, depth, limits, wider, done[key.value.text := item.value]);
    }
  }

  // ----- main results -----

  /** A decoded value respects the limits and re-encodes into no more bytes than were decoded. */
  lemma DecodeSound(b: bytes, limits: Limits)
    requires |b| < WORD && Decode(b, limits).Ok?
    ensures var v := Decode(b, limits).value;
      Representable(v) && Fits(v, limits.depth, limits.items) && |Encode(v)| <= |b|
  {
    hide Read;
    ReadSound(b, 0, limits);
  }

  /** The decoder takes what the encoder wrote exactly when the value is within the limits. */
  lemma DecodeEncodeIff(v: Value, limits: Limits)
    requires Representable(v) && |Encode(v)| < WORD
    ensures Decode(Encode(v), limits).Ok? <==> Fits(v, limits.depth, limits.items)
    ensures Fits(v, limits.depth, limits.items) ==> Decode(Encode(v), limits) == Ok(v, [])
  {
    hide Read;
    hide Encode;
    hide Fits;
    hide Representable;
    if Fits(v, limits.depth, limits.items) {
      DecodeEncode(v, limits);
    }
    if Decode(Encode(v), limits).Ok? {
      var depth, items := SomeLimitsFit(v);
      var wider := Limits(Max(depth, limits.depth), Max(items, limits.items));
      FitsWider(v, depth, items, wider.depth, wider.items);
      DecodeEncode(v, wider);
      ReadWider(Encode(v), 0, limits, wider);
      DecodeSound(Encode(v), limits);
    }
  }

  /** The check `encode(decode(b)) == b` of the transport. */
  ghost predicate Canonical(b: bytes, limits: Limits)
    requires |b| < WORD
  {
    var r := Decode(b, limits);
    r.Ok? && (DecodeSound(b, limits); Encode(r.value) == b)
  }

  ghost predicate EncodingOf(b: bytes, v: Value, limits: Limits) {
    Representable(v) && Fits(v, limits.depth, limits.items) && Encode(v) == b
  }

  /** The byte strings that pass the check are exactly the encodings of the values within the limits. */
  lemma CanonicalIffEncoding(b: bytes, limits: Limits)
    requires |b| < WORD
    ensures Canonical(b, limits) <==> exists v :: EncodingOf(b, v, limits)
  {
    hide Read;
    hide Encode;
    hide Fits;
    hide Representable;
    if Canonical(b, limits) {
      DecodeSound(b, limits);
      assert EncodingOf(b, Decode(b, limits).value, limits);
    }
    if v :| EncodingOf(b, v, limits) {
      DecodeEncode(v, limits);
    }
  }

  /** Re-encoding canonicalises: it passes the check, keeps the value, and doing it again changes nothing. */
  lemma ReencodingIsIdempotent(b: bytes, limits: Limits)
    requires |b| < WORD && Decode(b, limits).Ok?
    ensures var v := Decode(b, limits).value;
      Representable(v) && |Encode(v)| <= |b| && Decode(Encode(v), limits) == Ok(v, []) && Canonical(Encode(v), limits)
  {
    hide Read;
    hide Encode;
    hide Fits;
    hide Representable;
    DecodeSound(b, limits);
    DecodeEncode(Decode(b, limits).value, limits);
  }

  /** Payloads that pass the check and denote the same value are the same bytes. */
  lemma CanonicalIsUnique(a: bytes, b: bytes, limits: Limits)
    requires |a| < WORD && |b| < WORD && Canonical(a, limits) && Canonical(b, limits)
    ensures a == b <==> Decode(a, limits).value == Decode(b, limits).value
  {
    hide Read;
    hide Encode;
  }

  /** The decoder accepts more than the encoder emits: a five in two bytes decodes but is not canonical. */
  lemma LongFormIsAcceptedButNotCanonical()
    ensures Decode([0x18, 0x05], Limits(64, MAX_ITEMS)) == Ok(Int(5), [])
    ensures !Canonical([0x18, 0x05], Limits(64, MAX_ITEMS))
  {
    var b: bytes := [0x18, 0x05];
    assert b[1..] == [0x05] && b[1..][..1] == [0x05] && b[1..][1..] == [];
    assert FromBigEndian([0x05]) == 5;
    assert Encode(Int(5)) == [5];
  }
}
