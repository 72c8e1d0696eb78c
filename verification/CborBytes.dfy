/** The bytes that are written and read, in the terms of RFC 8949: initial bytes, arguments and the order of keys. */
module CborBytes {
  import opened Bytes
  import opened CborValue
  import opened CborCodec
  import opened CborCanonical

  // ----- heads -----

  function Short(b: bytes, at: nat): nat
    requires at + 2 <= |b|
  {
    b[at] as int * 0x100 + b[at + 1]
  }

  function Word(b: bytes, at: nat): nat
    requires at + 4 <= |b|
  {
    Short(b, at) * 0x1_0000 + Short(b, at + 2)
  }

  function Long(b: bytes, at: nat): nat
    requires at + 8 <= |b|
  {
    Word(b, at) * 0x1_0000_0000 + Word(b, at + 4)
  }

  /** What bytes denote, by their weights. */
  lemma NumbersByWeight(b: bytes)
    ensures |b| == 1 ==> FromBigEndian(b) == b[0]
    ensures |b| == 2 ==> FromBigEndian(b) == Short(b, 0)
    ensures |b| == 4 ==> FromBigEndian(b) == Word(b, 0)
    ensures |b| == 8 ==> FromBigEndian(b) == Long(b, 0)
  {
    if |b| == 1 {
      ByteNumber(b);
    } else if |b| == 2 {
      ShortNumber(b);
    } else if |b| == 4 {
      WordNumber(b);
    } else if |b| == 8 {
      WordNumber(b[..4]);
      FourMore(b[..4], b[4..]);
      assert b[..4] + b[4..] == b;
    }
  }

  lemma ByteNumber(b: bytes)
    requires |b| == 1
    ensures FromBigEndian(b) == b[0]
  {
    FromSnoc([], b[0]);
    assert [] + [b[0]] == b;
  }

  lemma ShortNumber(b: bytes)
    requires |b| == 2
    ensures FromBigEndian(b) == Short(b, 0)
  {
    hide FromBigEndian;
    ByteNumber(b[..1]);
    FromSnoc(b[..1], b[1]);
    assert b[..1] + [b[1]] == b;
  }

  lemma WordNumber(b: bytes)
    requires |b| == 4
    ensures FromBigEndian(b) == Word(b, 0)
  {
    hide FromBigEndian;
    ShortNumber(b[..2]);
    FromSnoc(b[..2], b[2]);
    FromSnoc(b[..3], b[3]);
    assert b[..2] + [b[2]] == b[..3] && b[..3] + [b[3]] == b;
  }

  lemma FourMore(a: bytes, b: bytes)
    requires |b| == 4
    ensures FromBigEndian(a + b) == FromBigEndian(a) * 0x1_0000_0000 + Word(b, 0)
  {
    hide FromBigEndian;
    FromSnoc(a, b[0]);
    FromSnoc(a + [b[0]], b[1]);
    FromSnoc(a + [b[0]] + [b[1]], b[2]);
    FromSnoc(a + [b[0]] + [b[1]] + [b[2]], b[3]);
    assert a + [b[0]] + [b[1]] + [b[2]] + [b[3]] == a + b;
  }

  /** A head is the major type, then the argument in the initial byte or in the fewest of 1, 2, 4 or 8 bytes. */
  lemma HeadByBytes(major: nat, n: uint64)
    requires major < 8
    ensures var h := Head(major, n);
      && h[0] / 32 == major
      && (n < 24 ==> |h| == 1 && h[0] % 32 == n)
      && (24 <= n < 0x100 ==> |h| == 2 && h[0] % 32 == 24 && h[1] == n)
      && (0x100 <= n < 0x1_0000 ==> |h| == 3 && h[0] % 32 == 25 && Short(h, 1) == n)
      && (0x1_0000 <= n < 0x1_0000_0000 ==> |h| == 5 && h[0] % 32 == 26 && Word(h, 1) == n)
      && (0x1_0000_0000 <= n ==> |h| == 9 && h[0] % 32 == 27 && Long(h, 1) == n)
  {
    hide BigEndian, FromBigEndian;
    var h := Head(major, n);
    assert Pow256(1) == 0x100 && Pow256(2) == 0x1_0000 && Pow256(4) == 0x1_0000_0000;
    assert Pow256(8) == 0x1_0000_0000_0000_0000;
    if n >= 24 {
      var width := |h| - 1;
      assert h[1..] == BigEndian(n, width);
      BigEndianRoundTrip(n, width);
      NumbersByWeight(h[1..]);
      assert forall i | 1 <= i < |h| :: h[i] == h[1..][i - 1];
    }
  }

  /** An argument is read from the initial byte or from the 1, 2, 4 or 8 bytes behind it, in any length. */
  lemma ArgumentByBytes(s: bytes, additional: nat)
    requires additional < 32
    ensures var r := ReadArgument(s, additional);
      && (additional < 24 ==> r == Ok(additional, s))
      && (additional == 24 ==> r == if |s| < 1 then Err(TruncatedArgument) else Ok(s[0], s[1..]))
      && (additional == 25 ==> r == if |s| < 2 then Err(TruncatedArgument) else Ok(Short(s, 0), s[2..]))
      && (additional == 26 ==> r == if |s| < 4 then Err(TruncatedArgument) else Ok(Word(s, 0), s[4..]))
      && (additional == 27 ==> r == if |s| < 8 then Err(TruncatedArgument) else Ok(Long(s, 0), s[8..]))
      && (additional > 27 ==> r == Err(ReservedLength))
  {
    hide FromBigEndian;
    if 24 <= additional <= 27 && Width(additional) <= |s| {
      var b := s[..Width(additional)];
      NumbersByWeight(b);
      assert forall i | 0 <= i < |b| :: b[i] == s[i];
    }
  }

  // ----- initial bytes -----

  /** What the decoder makes of the initial bytes that are no length, and of those it refuses. */
  lemma InitialByteDecides(s: bytes, depth: nat, limits: Limits)
    ensures var r := Read(s, depth, limits);
      if depth > limits.depth then r == Err(NestingLimit)
      else if s == [] then r == Err(TruncatedValue)
      else
        && (s[0] == 0xf4 ==> r == Ok(Bool(false), s[1..]))
        && (s[0] == 0xf5 ==> r == Ok(Bool(true), s[1..]))
        && (s[0] == 0xf6 ==> r == Ok(Null, s[1..]))
        && (s[0] == 0xfb ==> r == if |s| < 9 then Err(TruncatedFloat) else Ok(Double(Long(s, 1)), s[9..]))
        && (s[0] >= 0xc0 && s[0] !in {0xf4, 0xf5, 0xf6, 0xfb} ==> r == Err(Unsupported))
        && (s[0] < 0xc0 && s[0] % 32 > 27 ==> r == Err(ReservedLength))
  {
    hide FromBigEndian;
    if depth <= limits.depth && |s| >= 9 && s[0] == 0xfb {
      var b := s[1..][..8];
      NumbersByWeight(b);
      assert forall i | 0 <= i < 8 :: b[i] == s[i + 1];
      assert s[1..][8..] == s[9..];
    }
  }

  /** What an argument is taken for, by the range of the initial byte, and when it is refused. */
  lemma ArgumentIsTaken(s: bytes, depth: nat, limits: Limits)
    requires depth <= limits.depth && s != [] && s[0] < 0xc0
    ensures var r, a := Read(s, depth, limits), ReadArgument(s[1..], s[0] % 32);
      if a.Err? then r == Err(a.error)
      else
        && (s[0] < 0x20 ==>
            r == if a.value >= 0x8000_0000_0000_0000 then Err(IntegerRange) else Ok(Int(a.value), a.rest))
        && (0x20 <= s[0] < 0x40 ==>
            r == if a.value >= 0x8000_0000_0000_0000 then Err(NegativeRange) else Ok(Int(-1 - a.value), a.rest))
        && (0x40 <= s[0] < 0x60 ==>
            r == if a.value > |a.rest| then Err(TruncatedString) else Ok(Blob(a.rest[..a.value]), a.rest[a.value..]))
        && (0x60 <= s[0] < 0x80 ==>
            r == if a.value > |a.rest| then Err(TruncatedString) else Ok(Text(a.rest[..a.value]), a.rest[a.value..]))
        && (0x80 <= s[0] < 0xa0 && a.value > limits.items ==> r == Err(ArrayLimit))
        && (0xa0 <= s[0] && a.value > limits.items ==> r == Err(MapLimit))
  {
    hide ReadArgument, ReadItems, ReadEntries;
  }

  lemma DigitIsRead(x: byte, rest: bytes, depth: nat, limits: Limits)
    requires x < 24 && depth <= limits.depth
    ensures Read([x] + rest, depth, limits) == Ok(Int(x), rest)
  {
    ArgumentIsTaken([x] + rest, depth, limits);
    assert ([x] + rest)[1..] == rest;
  }

  lemma LetterIsRead(c: byte, rest: bytes, depth: nat, limits: Limits)
    requires depth <= limits.depth
    ensures Read([0x61, c] + rest, depth, limits) == Ok(Text([c]), rest)
  {
    ArgumentIsTaken([0x61, c] + rest, depth, limits);
    assert ([0x61, c] + rest)[1..] == [c] + rest && ([c] + rest)[..1] == [c] && ([c] + rest)[1..] == rest;
  }

  /** A key that is no text is refused: {1: 1}. */
  lemma NumberAsKey(limits: Limits)
    requires limits.depth >= 1 && limits.items >= 1
    ensures Decode([0xa1, 0x01, 0x01], limits) == Err(KeyNotText)
  {
    hide ReadArgument;
    var s: bytes := [0xa1, 0x01, 0x01];
    ArgumentByBytes(s[1..], 1);
    assert s[1..] == [0x01] + [0x01];
    DigitIsRead(0x01, [0x01], 1, limits);
    hide Read;
    assert ReadEntries(s[1..], 1, 0, limits, map[]) == Err(KeyNotText);
    MapIsRead(s, 1, limits);
  }

  /** A map in an initial byte of its own. */
  lemma MapIsRead(s: bytes, n: nat, limits: Limits)
    requires s != [] && n < 24 && s[0] == 0xa0 + n && n <= limits.items
    ensures var entries := ReadEntries(s[1..], n, 0, limits, map[]);
      Read(s, 0, limits) == if entries.Err? then Err(entries.error) else Ok(Map(entries.value), entries.rest)
  {
    hide ReadEntries;
  }

  /** A repeated key is refused: {"a": 1, "a": 2}. */
  lemma TwiceTheKey(limits: Limits)
    requires limits.depth >= 1 && limits.items >= 2
    ensures Decode([0xa2, 0x61, 0x61, 0x01, 0x61, 0x61, 0x02], limits) == Err(DuplicateKey)
  {
    var s: bytes := [0xa2, 0x61, 0x61, 0x01, 0x61, 0x61, 0x02];
    var value, second: bytes := [0x01, 0x61, 0x61, 0x02], [0x61, 0x61, 0x02];
    assert s[1..] == [0x61, 0x61] + value && [0x01] + second == value;
    assert [0x61, 0x61] + [0x02] == second && [0x02] + [] == [0x02];
    LetterIsRead(0x61, value, 1, limits);
    DigitIsRead(0x01, second, 1, limits);
    LetterIsRead(0x61, [0x02], 1, limits);
    DigitIsRead(0x02, [], 1, limits);
    MapIsRead(s, 2, limits);
    hide Read;
    var once: map<bytes, Value> := map[][[0x61] := Int(1)];
    assert ReadEntries(second, 1, 0, limits, once) == Err(DuplicateKey);
    assert ReadEntries(s[1..], 2, 0, limits, map[]) == Err(DuplicateKey);
  }

  /** Two values where one is expected. */
  lemma OneTooMany(limits: Limits)
    ensures Decode([0x01, 0x02], limits) == Err(TrailingBytes)
  {
    DigitIsRead(0x01, [0x02], 0, limits);
    assert [0x01] + [0x02] == [0x01, 0x02];
  }

  // ----- the order of keys -----

  /** Section 4.2.3: a shorter key first, and of two of one length the one with the smaller byte where they differ. */
  ghost predicate KeyBefore(a: bytes, b: bytes) {
    |a| < |b| || (|a| == |b| && exists k: nat :: SmallerAt(a, b, k))
  }

  ghost predicate SmallerAt(a: bytes, b: bytes, k: nat) {
    k < |a| && k < |b| && a[k] < b[k] && forall i | 0 <= i < k :: a[i] == b[i]
  }

  lemma KeyOrderByBytes(a: bytes, b: bytes)
    ensures KeyLess(a, b) <==> KeyBefore(a, b)
  {
    LexDecides(a, b);
    if |a| == |b| {
      assert forall k: nat :: FirstDifference(a, b, k) <==> SmallerAt(a, b, k);
    }
  }

  /** The entries of a map under a list of its keys, one after the other. */
  ghost function Written(owner: Value, keys: seq<bytes>): bytes
    requires owner.Map? && Representable(owner) && forall i | 0 <= i < |keys| :: keys[i] in owner.entries
  {
    if keys == [] then []
    else EncodeText(keys[0]) + Encode(owner.entries[keys[0]]) + Written(owner, keys[1..])
  }

  /** A list of `keys`, each once, in which every key comes before all later ones. */
  ghost predicate Lists(list: seq<bytes>, keys: set<bytes>) {
    && |list| == |keys|
    && (forall k :: k in list <==> k in keys)
    && forall i, j | 0 <= i < j < |list| :: KeyBefore(list[i], list[j])
  }

  lemma {:induction false} EntriesAreWritten(owner: Value, keys: set<bytes>) returns (list: seq<bytes>)
    requires owner.Map? && Representable(owner) && keys <= owner.entries.Keys
    ensures Lists(list, keys) && EncodeEntries(owner, keys) == Written(owner, list)
    decreases |keys|
  {
    hide Representable, Encode, EncodeText, KeyLess, KeyBefore;
    if keys == {} {
      list := [];
    } else {
      var k := Least(keys);
      LeastComesFirst(keys);
      var rest := EntriesAreWritten(owner, keys - {k});
      list := [k] + rest;
      assert list[1..] == rest;
      forall i, j | 0 <= i < j < |list| ensures KeyBefore(list[i], list[j]) {
        if i == 0 {
          assert rest[j - 1] in keys - {k};
        } else {
          assert KeyBefore(rest[i - 1], rest[j - 1]);
        }
      }
    }
  }

  lemma LeastComesFirst(keys: set<bytes>)
    requires keys != {}
    ensures forall o | o in keys && o != Least(keys) :: KeyBefore(Least(keys), o)
  {
    hide KeyLess, KeyBefore;
    LeastExists(keys);
    forall o | o in keys && o != Least(keys) ensures KeyBefore(Least(keys), o) {
      var l :| IsLeast(l, keys);
      LeastIsUnique(l, keys);
      KeyOrderByBytes(l, o);
    }
  }

  /** A map is its head and its entries, shorter keys first and keys of one length in byte order. */
  lemma MapByBytes(entries: map<bytes, Value>) returns (list: seq<bytes>)
    requires Representable(Map(entries))
    ensures Lists(list, entries.Keys)
    ensures Encode(Map(entries)) == Head(5, |entries|) + Written(Map(entries), list)
  {
    hide EncodeEntries;
    list := EntriesAreWritten(Map(entries), entries.Keys);
  }

  lemma ListOfTwo(list: seq<bytes>, k: bytes, l: bytes)
    requires KeyBefore(k, l) && Lists(list, {k, l})
    ensures k != l && list == [k, l]
  {
    KeyOrderByBytes(k, l);
    KeyOrderByBytes(l, k);
    KeyOrderIsTotal(k, l);
    KeyOrderIsTotal(k, k);
    hide KeyLess, KeyBefore;
    assert |{k, l}| == 2;
    assert list[0] in list && list[1] in list;
    assert KeyBefore(list[0], list[1]);
  }

  lemma WrittenTwo(owner: Value, k: bytes, l: bytes)
    requires owner.Map? && Representable(owner) && k in owner.entries && l in owner.entries
    ensures Written(owner, [k, l])
      == EncodeText(k) + Encode(owner.entries[k]) + (EncodeText(l) + Encode(owner.entries[l]))
  {
    hide Encode, EncodeText;
    assert [k, l][1..] == [l] && [l][1..] == [];
    assert Written(owner, []) == [];
    assert Written(owner, [l]) == EncodeText(l) + Encode(owner.entries[l]);
  }

  /** A map of two keys is written with the shorter or smaller one first. */
  lemma TwoKeys(k: bytes, v: Value, l: bytes, w: Value)
    requires KeyBefore(k, l) && |l| < WORD && Representable(v) && Representable(w)
    ensures k != l && Representable(Map(map[k := v, l := w]))
    ensures Encode(Map(map[k := v, l := w]))
      == Head(5, 2) + (EncodeText(k) + Encode(v) + (EncodeText(l) + Encode(w)))
  {
    var m := map[k := v, l := w];
    KeyOrderByBytes(k, l);
    KeyOrderIsTotal(k, l);
    assert Representable(Map(m));
    hide Representable, KeyLess, KeyBefore, EncodeText, Encode, Head, Lists;
    var list := MapByBytes(m);
    assert m.Keys == {k, l} && |m| == |m.Keys| == 2;
    ListOfTwo(list, k, l);
    WrittenTwo(Map(m), k, l);
  }

  // ----- examples of Appendix A of RFC 8949 -----

  lemma TwoBytes(n: nat)
    requires n < 0x1_0000
    ensures BigEndian(n, 2) == [n / 256, n % 256]
  {
    assert BigEndian(n / 256, 1) == [n / 256];
  }

  lemma IntegerExamples()
    ensures Encode(Int(0)) == [0x00] && Encode(Int(10)) == [0x0a] && Encode(Int(23)) == [0x17]
    ensures Encode(Int(24)) == [0x18, 0x18] && Encode(Int(100)) == [0x18, 0x64]
    ensures Encode(Int(1000)) == [0x19, 0x03, 0xe8]
    ensures Encode(Int(-1)) == [0x20] && Encode(Int(-10)) == [0x29] && Encode(Int(-100)) == [0x38, 0x63]
    ensures Encode(Int(-1000)) == [0x39, 0x03, 0xe7]
  {
    assert BigEndian(24, 1) == [24] && BigEndian(99, 1) == [99] && BigEndian(100, 1) == [100];
    TwoBytes(1000);
    TwoBytes(999);
    hide BigEndian, FromBigEndian;
    assert [0x19] + [0x03, 0xe8] == [0x19, 0x03, 0xe8];
    assert [0x39] + [0x03, 0xe7] == [0x39, 0x03, 0xe7];
  }

  lemma WideIntegerExamples()
    ensures Encode(Int(1000000)) == [0x1a, 0x00, 0x0f, 0x42, 0x40]
    ensures Encode(Int(1000000000000)) == [0x1b, 0x00, 0x00, 0x00, 0xe8, 0xd4, 0xa5, 0x10, 0x00]
    ensures Encode(Double(0x3ff1_9999_9999_999a)) == [0xfb, 0x3f, 0xf1, 0x99, 0x99, 0x99, 0x99, 0x99, 0x9a]
  {
    hide BigEndian, FromBigEndian;
    var word: bytes := [0x00, 0x0f, 0x42, 0x40];
    var long: bytes := [0x00, 0x00, 0x00, 0xe8, 0xd4, 0xa5, 0x10, 0x00];
    var bits: bytes := [0x3f, 0xf1, 0x99, 0x99, 0x99, 0x99, 0x99, 0x9a];
    NumbersByWeight(word);
    NumbersByWeight(long);
    NumbersByWeight(bits);
    FromBigEndianRoundTrip(word);
    FromBigEndianRoundTrip(long);
    FromBigEndianRoundTrip(bits);
    assert [0x1a] + word == [0x1a, 0x00, 0x0f, 0x42, 0x40];
    assert [0x1b] + long == [0x1b, 0x00, 0x00, 0x00, 0xe8, 0xd4, 0xa5, 0x10, 0x00];
    assert [0xfb] + bits == [0xfb, 0x3f, 0xf1, 0x99, 0x99, 0x99, 0x99, 0x99, 0x9a];
  }

  lemma SimpleExamples()
    ensures Encode(Bool(false)) == [0xf4] && Encode(Bool(true)) == [0xf5] && Encode(Null) == [0xf6]
    ensures Encode(Blob([])) == [0x40] && Encode(Text([])) == [0x60] && Encode(Text([0x61])) == [0x61, 0x61]
    ensures Encode(Array([])) == [0x80] && Encode(Map(map[])) == [0xa0]
  {
  }

  lemma StringExamples()
    ensures Encode(Blob([1, 2, 3, 4])) == [0x44, 0x01, 0x02, 0x03, 0x04]
    ensures Encode(Text([0x49, 0x45, 0x54, 0x46])) == [0x64, 0x49, 0x45, 0x54, 0x46]
  {
    assert Head(2, 4) == [0x44] && Head(3, 4) == [0x64];
    hide Head;
  }

  lemma ArrayExample()
    ensures Encode(Array([Int(1), Int(2), Int(3)])) == [0x83, 0x01, 0x02, 0x03]
  {
    var three := [Int(1), Int(2), Int(3)];
    assert three[1..] == [Int(2), Int(3)] && [Int(2), Int(3)][1..] == [Int(3)] && [Int(3)][1..] == [];
    assert EncodeItems([Int(3)]) == [0x03] && EncodeItems([Int(2), Int(3)]) == [0x02, 0x03];
    assert EncodeItems(three) == [0x01, 0x02, 0x03];
  }

  lemma ItemsExample()
    ensures Encode(Int(1)) == [0x01] && Encode(Int(2)) == [0x02]
    ensures Encode(Array([Int(2), Int(3)])) == [0x82, 0x02, 0x03]
  {
    var two := [Int(2), Int(3)];
    assert two[1..] == [Int(3)] && [Int(3)][1..] == [];
    assert EncodeItems([Int(3)]) == [0x03] && EncodeItems(two) == [0x02, 0x03];
  }

  const A: bytes := [0x61]
  const B: bytes := [0x62]
  const AA: bytes := [0x61, 0x61]
  const TWO_THREE := Array([Int(2), Int(3)])

  lemma TextExamples()
    ensures EncodeText(A) == [0x61, 0x61] && EncodeText(B) == [0x61, 0x62]
    ensures EncodeText(AA) == [0x62, 0x61, 0x61] && Head(5, 2) == [0xa2]
    ensures KeyBefore(A, B) && KeyBefore(B, AA)
  {
    assert SmallerAt(A, B, 0);
  }

  /** {"a": 1, "b": [2, 3]} */
  const LETTERS := Map(map[A := Int(1), B := TWO_THREE])

  /** {"b": 1, "aa": 2} */
  const LENGTHS := Map(map[B := Int(1), AA := Int(2)])

  /** Of two keys of one length the smaller is written first. */
  lemma LettersExample()
    ensures Representable(LETTERS)
    ensures Encode(LETTERS) == [0xa2, 0x61, 0x61, 0x01, 0x61, 0x62, 0x82, 0x02, 0x03]
  {
    ItemsExample();
    TextExamples();
    hide Encode, EncodeText, Head, KeyBefore, EncodeItems, EncodeEntries, A, B;
    TwoKeys(A, Int(1), B, TWO_THREE);
    hide Representable;
    assert [0xa2] + ([0x61, 0x61] + [0x01] + ([0x61, 0x62] + [0x82, 0x02, 0x03]))
      == [0xa2, 0x61, 0x61, 0x01, 0x61, 0x62, 0x82, 0x02, 0x03];
  }

  /** Of two keys the shorter is written first, although it is the greater in byte order. */
  lemma LengthsExample()
    ensures Representable(LENGTHS)
    ensures Encode(LENGTHS) == [0xa2, 0x61, 0x62, 0x01, 0x62, 0x61, 0x61, 0x02]
  {
    ItemsExample();
    TextExamples();
    hide Encode, EncodeText, Head, KeyBefore, EncodeItems, EncodeEntries;
    TwoKeys(B, Int(1), AA, Int(2));
    hide Representable;
    assert [0xa2] + ([0x61, 0x62] + [0x01] + ([0x62, 0x61, 0x61] + [0x02]))
      == [0xa2, 0x61, 0x62, 0x01, 0x62, 0x61, 0x61, 0x02];
  }
}
