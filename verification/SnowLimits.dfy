/** Messages that are sent and then refused: the sender does not look at the limits the receiver has. */
module SnowLimits {
  import opened Bytes
  import opened CborValue
  import opened CborCodec
  import opened CborCanonical
  import opened SnowFrame

  // ----- how large a message is -----

  lemma HeadLength(major: nat, n: uint64)
    requires major < 8
    ensures 1 <= |Head(major, n)| <= 9
    ensures n < 24 ==> |Head(major, n)| == 1
  {
  }

  lemma IntegerLength(v: Value)
    requires v.Int?
    ensures |Encode(v)| <= 9
  {
  }

  lemma EntryLength(owner: Value, keys: set<bytes>, k: bytes)
    requires owner.Map? && Representable(owner) && keys <= owner.entries.Keys && k in keys && |k| < 16
    ensures |EncodeEntries(owner, keys)| <= 25 + |Encode(owner.entries[k])| + |EncodeEntries(owner, keys - {k})|
  {
    hide Encode;
    hide EncodeEntries;
    EntriesLength(owner, keys, k);
    HeadLength(3, |k|);
  }

  /** The message map adds at most 168 bytes to its payload. */
  lemma MessageLength(m: Message)
    requires Representable(m.payload)
    ensures Representable(ToCbor(m)) && |Encode(ToCbor(m))| <= 168 + |Encode(m.payload)|
  {
    hide Representable;
    hide Ascii;
    hide KindText;
    hide Head;
    MessageFits(m);
    FieldNames();
    var v := ToCbor(m);
    assert v.entries.Keys == {KIND, REQUEST_ID, CURSOR, PAYLOAD};
    assert |Encode(v)| <= 9 + |EncodeEntries(v, v.entries.Keys)| by {
      MapLength(v);
    }
    EntriesOfMessage(m);
  }

  lemma MapLength(v: Value)
    requires v.Map? && Representable(v)
    ensures |Encode(v)| <= 9 + |EncodeEntries(v, v.entries.Keys)|
  {
    HeadLength(5, |v.entries|);
  }

  lemma EntriesOfMessage(m: Message)
    requires Representable(m.payload)
    ensures Representable(ToCbor(m))
    ensures |EncodeEntries(ToCbor(m), ToCbor(m).entries.Keys)| <= 159 + |Encode(m.payload)|
  {
    hide Encode;
    hide Representable;
    hide ToCbor;
    FieldNames();
    MessageFits(m);
    MessageEntries(m);
    var v := ToCbor(m);
    EntryLength(v, v.entries.Keys, PAYLOAD);
    assert v.entries.Keys - {PAYLOAD} == {KIND, REQUEST_ID, CURSOR};
    EntryLength(v, {KIND, REQUEST_ID, CURSOR}, KIND);
    assert {KIND, REQUEST_ID, CURSOR} - {KIND} == {REQUEST_ID, CURSOR};
    EntryLength(v, {REQUEST_ID, CURSOR}, REQUEST_ID);
    assert {REQUEST_ID, CURSOR} - {REQUEST_ID} == {CURSOR};
    EntryLength(v, {CURSOR}, CURSOR);
    assert {CURSOR} - {CURSOR} == {};
    NothingLeft(v);
    IntegerLength(v.entries[REQUEST_ID]);
    IntegerLength(v.entries[CURSOR]);
    KindLength(m.kind);
  }

  /** The four entries, with different names. */
  lemma MessageEntries(m: Message)
    ensures var v := ToCbor(m);
      && v.Map? && v.entries.Keys == {KIND, REQUEST_ID, CURSOR, PAYLOAD}
      && v.entries[KIND] == Text(Ascii(KindText(m.kind))) && v.entries[PAYLOAD] == m.payload
      && v.entries[REQUEST_ID].Int? && v.entries[CURSOR].Int?
    ensures KIND != REQUEST_ID && KIND != CURSOR && KIND != PAYLOAD
    ensures REQUEST_ID != CURSOR && REQUEST_ID != PAYLOAD && CURSOR != PAYLOAD
  {
    hide Ascii;
    hide KindText;
    FieldNames();
  }

  lemma NothingLeft(v: Value)
    requires v.Map? && Representable(v)
    ensures EncodeEntries(v, {}) == []
  {
  }

  lemma KindLength(kind: Kind)
    ensures |Encode(Text(Ascii(KindText(kind))))| <= 40
  {
    hide Ascii;
    HeadLength(3, |KindText(kind)|);
  }

  // ----- too deep -----

  /** Null inside `n` arrays. */
  function Nest(n: nat): Value {
    if n == 0 then Null else Array([Nest(n - 1)])
  }

  lemma {:induction false} NestLength(n: nat)
    ensures Representable(Nest(n)) && |Encode(Nest(n))| == n + 1
  {
    if n > 0 {
      NestLength(n - 1);
      var xs := [Nest(n - 1)];
      assert EncodeItems(xs) == Encode(xs[0]) + EncodeItems([]) by {
        assert xs[1..] == [];
      }
      HeadLength(4, 1);
    }
  }

  lemma {:induction false} NestFits(n: nat, room: nat)
    ensures Fits(Nest(n), room, MAX_ITEMS) <==> n <= room
  {
    if n > 0 {
      var xs := Nest(n).items;
      assert xs == [Nest(n - 1)] && xs[0] == Nest(n - 1);
      if room > 0 {
        NestFits(n - 1, room - 1);
      }
    }
  }

  // ----- too many -----

  function Nulls(n: nat): seq<Value> {
    seq(n, i => Null)
  }

  lemma {:induction false} NullsLength(n: nat)
    ensures |EncodeItems(Nulls(n))| == n
  {
    if n > 0 {
      assert Nulls(n)[1..] == Nulls(n - 1);
      NullsLength(n - 1);
    }
  }

  lemma WideLength(n: nat)
    requires n < 0x1_0000_0000_0000_0000
    ensures Representable(Array(Nulls(n))) && |Encode(Array(Nulls(n)))| <= n + 9
  {
    NullsLength(n);
    HeadLength(4, n);
  }

  lemma WideDoesNotFit()
    ensures !Fits(Array(Nulls(MAX_ITEMS + 1)), 63, MAX_ITEMS)
  {
  }

  // ----- sent and refused -----

  /** A message with a payload 64 levels deep, and one with 1,000,001 items, are written and not read. */
  lemma SentAndRefused(rest: bytes)
    ensures var deep, wide := Message(Ping, 0, 0, Nest(64)), Message(Ping, 0, 0, Array(Nulls(MAX_ITEMS + 1)));
      && Writable(deep) && ReadFrame(FrameOf(deep) + rest).Refused?
      && Writable(wide) && ReadFrame(FrameOf(wide) + rest).Refused?
  {
    hide Encode;
    hide Representable;
    hide Fits;
    hide ToCbor;
    hide FrameOf;
    hide ReadFrame;
    hide Nest;
    hide Nulls;
    var deep, wide := Message(Ping, 0, 0, Nest(64)), Message(Ping, 0, 0, Array(Nulls(MAX_ITEMS + 1)));
    NestLength(64);
    NestFits(64, 63);
    MessageLength(deep);
    FrameRoundTrip(deep, rest);
    WideLength(MAX_ITEMS + 1);
    WideDoesNotFit();
    MessageLength(wide);
    FrameRoundTrip(wide, rest);
  }

  /** One level less is read back. */
  lemma DeepestIsRead(rest: bytes)
    ensures var m := Message(Ping, 0, 0, Nest(63));
      Writable(m) && ReadFrame(FrameOf(m) + rest) == Received(m, rest)
  {
    hide Encode;
    hide Representable;
    hide Fits;
    hide ToCbor;
    hide FrameOf;
    hide ReadFrame;
    hide Nest;
    var m := Message(Ping, 0, 0, Nest(63));
    NestLength(63);
    NestFits(63, 63);
    MessageLength(m);
    FrameRoundTrip(m, rest);
  }
}
