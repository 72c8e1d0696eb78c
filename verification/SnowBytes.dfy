/** Frames and messages in bytes: the fields of a header at their offsets, and why a frame is refused. */
module SnowBytes {
  import opened Bytes
  import opened CborValue
  import opened CborCodec
  import opened CborCanonical
  import opened CborBytes
  import opened SnowFrame

  // ----- headers -----

  /** The fields of a header, by their offsets. */
  lemma HeaderByBytes(b: bytes)
    requires |b| == 32
    ensures ParseHeader(b) ==
      Header(Word(b, 0), Short(b, 4), Short(b, 6), Word(b, 8), Word(b, 12), Long(b, 16), Long(b, 24))
  {
    hide FromBigEndian, Pow256;
    FieldByBytes(b, 0, 4);
    FieldByBytes(b, 4, 2);
    FieldByBytes(b, 6, 2);
    FieldByBytes(b, 8, 4);
    FieldByBytes(b, 12, 4);
    FieldByBytes(b, 16, 8);
    FieldByBytes(b, 24, 8);
    hide Field, Short, Word, Long;
  }

  lemma FieldByBytes(b: bytes, at: nat, width: nat)
    requires at + width <= |b| && width in {2, 4, 8}
    ensures Field(b, at, width) == if width == 2 then Short(b, at) else if width == 4 then Word(b, at) else Long(b, at)
  {
    hide FromBigEndian, Pow256;
    var part := b[at..at + width];
    NumbersByWeight(part);
    assert forall i | 0 <= i < width :: part[i] == b[at + i];
  }

  /** Why the first bytes of a stream are no frame, in the order in which it is found out. */
  lemma RefusedByBytes(s: bytes)
    ensures var r := ReadFrame(s);
      if |s| < 32 then r == Refused(ConnectionClosed)
      else if Word(s, 0) != 0x534e_4f57 then r == Refused(BadMagic)
      else if Short(s, 4) != 1 then r == Refused(WrongMajor)
      else if Word(s, 12) > 16 * 1024 * 1024 then r == Refused(PayloadTooLarge)
      else if |s| < 32 + Word(s, 12) then r == Refused(IncompletePayload)
      else r.Received? ==> r.rest == s[32 + Word(s, 12)..]
  {
    hide ReadPayload;
    if |s| >= 32 {
      var b := s[..32];
      HeaderByBytes(b);
      assert forall i | 0 <= i < 32 :: b[i] == s[i];
    }
  }

  // ----- messages -----

  /** The number that a field holds, or zero; as an unsigned number it is taken modulo 2 to the 64th. */
  function NumberAt(entries: map<bytes, Value>, key: bytes): int {
    if key in entries && entries[key].Int? then entries[key].number else 0
  }

  /** What a value is read as: a map with a known kind, two numbers and a payload. */
  lemma MessageByFields(v: Value)
    ensures var r := FromCbor(v);
      if !v.Map? then r == Bad(NotAMap)
      else if !KnownKind(v.entries) then r == Bad(UnknownKind)
      else
        && r.Good?
        && v.entries[Ascii("kind")] == Text(Ascii(KindText(r.message.kind)))
        && r.message.requestId == NumberAt(v.entries, Ascii("request_id")) % 0x1_0000_0000_0000_0000
        && r.message.cursor == NumberAt(v.entries, Ascii("cursor")) % 0x1_0000_0000_0000_0000
        && r.message.payload == if Ascii("payload") in v.entries then v.entries[Ascii("payload")] else Map(map[])
  {
    hide Ascii, KindText, KindOf;
    if v.Map? && KIND in v.entries && v.entries[KIND].Text? {
      KindIsKnown(v.entries[KIND].text);
    }
    KindIsKnown([]);
    NoKindIsEmpty();
  }

  /** The map names one of the thirteen kinds. */
  ghost predicate KnownKind(entries: map<bytes, Value>) {
    Ascii("kind") in entries && exists kind :: entries[Ascii("kind")] == Text(Ascii(KindText(kind)))
  }

  /** A text is a kind exactly when it is the text of that kind. */
  lemma KindIsKnown(text: bytes)
    ensures forall kind :: KindOf(text) == Known(kind) <==> text == Ascii(KindText(kind))
  {
    forall kind ensures KindOf(text) == Known(kind) <==> text == Ascii(KindText(kind)) {
      if text == Ascii(KindText(kind)) {
        KindReadsBack(kind);
      }
      if KindOf(text) == Known(kind) {
        TextOfKind(text, kind);
      }
    }
  }

  lemma TextOfKind(text: bytes, kind: Kind)
    requires KindOf(text) == Known(kind)
    ensures text == Ascii(KindText(kind))
  {
    hide Ascii;
  }

  lemma NoKindIsEmpty()
    ensures forall kind :: Ascii(KindText(kind)) != []
  {
  }

  /** The ids of a message must be those of its header. */
  lemma HeaderMustAgree(payload: bytes, h: Header)
    requires |payload| <= MAX_PAYLOAD && ReadPayload(payload, h).Good?
    ensures var m := ReadPayload(payload, h).message; m.requestId == h.requestId && m.cursor == h.cursor
  {
  }

  // ----- the map of a message -----

  lemma FourKeys(list: seq<bytes>, a: bytes, b: bytes, c: bytes, d: bytes)
    requires |a| < |b| < |c| < |d| && Lists(list, {a, b, c, d})
    ensures list == [a, b, c, d]
  {
    assert |{a, b, c, d}| == 4;
    assert list[0] in list && list[1] in list && list[2] in list && list[3] in list;
    forall i, j | 0 <= i < j < 4 ensures |list[i]| < |list[j]| {
      KeysGrow(list, i, j, {a, b, c, d});
    }
    assert list[0] == a && list[1] == b && list[2] == c && list[3] == d;
  }

  /** Of listed keys with different lengths an earlier one is shorter. */
  lemma KeysGrow(list: seq<bytes>, i: nat, j: nat, keys: set<bytes>)
    requires Lists(list, keys) && i < j < |list|
    requires forall k, l | k in keys && l in keys && |k| == |l| :: k == l
    ensures |list[i]| < |list[j]|
  {
    assert list[i] in list && list[j] in list && KeyBefore(list[i], list[j]);
  }

  lemma WrittenFour(owner: Value, a: bytes, b: bytes, c: bytes, d: bytes)
    requires owner.Map? && Representable(owner)
    requires a in owner.entries && b in owner.entries && c in owner.entries && d in owner.entries
    ensures Written(owner, [a, b, c, d])
      == Entry(a, owner.entries[a]) + Entry(b, owner.entries[b])
         + Entry(c, owner.entries[c]) + Entry(d, owner.entries[d])
  {
    hide Encode, EncodeText;
    assert [a, b, c, d][1..] == [b, c, d] && [b, c, d][1..] == [c, d] && [c, d][1..] == [d] && [d][1..] == [];
    assert Written(owner, []) == [];
    assert Written(owner, [d]) == Entry(d, owner.entries[d]);
    assert Written(owner, [c, d]) == Entry(c, owner.entries[c]) + Entry(d, owner.entries[d]);
    assert Written(owner, [b, c, d])
      == Entry(b, owner.entries[b]) + (Entry(c, owner.entries[c]) + Entry(d, owner.entries[d]));
  }

  /** A key and its value. */
  ghost function Entry(key: bytes, value: Value): bytes
    requires |key| < WORD && Representable(value)
  {
    EncodeText(key) + Encode(value)
  }

  lemma FourAre(entries: map<bytes, Value>, a: bytes, b: bytes, c: bytes, d: bytes)
    requires |a| < |b| < |c| < |d| && entries.Keys == {a, b, c, d}
    ensures |entries| == 4
  {
    assert |entries.Keys| == |{a, b, c, d}| == 4;
  }

  /** The keys in the order of their lengths, whatever is in the map. */
  lemma FourEntries(v: Value, a: bytes, b: bytes, c: bytes, d: bytes)
    requires |a| < |b| < |c| < |d| && v.Map? && Representable(v) && v.entries.Keys == {a, b, c, d}
    ensures Encode(v) == [0xa4]
      + (Entry(a, v.entries[a]) + Entry(b, v.entries[b]) + Entry(c, v.entries[c]) + Entry(d, v.entries[d]))
  {
    hide Representable;
    FourAre(v.entries, a, b, c, d);
    assert Head(5, 4) == [0xa4];
    hide Head, Encode, EncodeText, Lists, Written;
    var list := MapByBytes(v.entries);
    FourKeys(list, a, b, c, d);
    WrittenFour(v, a, b, c, d);
  }

  lemma NamesDiffer()
    ensures |KIND| == 4 && |CURSOR| == 6 && |PAYLOAD| == 7 && |REQUEST_ID| == 10
  {
  }

  lemma EnvelopeIsRepresentable(m: Message)
    requires Representable(m.payload)
    ensures Representable(ToCbor(m))
  {
    FourEntriesFit(KIND, REQUEST_ID, CURSOR, PAYLOAD, Text(Ascii(KindText(m.kind))),
                   Int(ToSigned(m.requestId)), Int(ToSigned(m.cursor)), m.payload, 64);
    hide Representable, Ascii, KindText, ToSigned;
  }

  /** The payload of a frame: kind, cursor, payload and request id, as the lengths of their names have it. */
  lemma EnvelopeByBytes(m: Message)
    requires Representable(m.payload)
    ensures Representable(ToCbor(m)) && Representable(Text(Ascii(KindText(m.kind))))
    ensures Encode(ToCbor(m)) == [0xa4]
      + (Entry(KIND, Text(Ascii(KindText(m.kind)))) + Entry(CURSOR, Int(ToSigned(m.cursor)))
         + Entry(PAYLOAD, m.payload) + Entry(REQUEST_ID, Int(ToSigned(m.requestId))))
  {
    var v := ToCbor(m);
    EnvelopeIsRepresentable(m);
    NamesDiffer();
    assert Representable(Text(Ascii(KindText(m.kind))));
    hide Encode, EncodeText, Ascii, KindText, ToSigned, Entry, Representable, KIND, CURSOR, PAYLOAD, REQUEST_ID;
    assert v.entries.Keys == {KIND, CURSOR, PAYLOAD, REQUEST_ID};
    FourEntries(v, KIND, CURSOR, PAYLOAD, REQUEST_ID);
  }

  // ----- one frame, byte by byte -----

  /** Magic, version 1.0, no flags, 40 bytes of payload, request 1, cursor 2. */
  const PING_HEADER: bytes :=
    [0x53, 0x4e, 0x4f, 0x57] + [0, 1] + [0, 0] + [0, 0, 0, 0] + [0, 0, 0, 40]
    + [0, 0, 0, 0, 0, 0, 0, 1] + [0, 0, 0, 0, 0, 0, 0, 2]

  /** kind: ping, cursor: 2, payload: null, request_id: 1 */
  const PING_KIND: bytes := [0x64, 0x6b, 0x69, 0x6e, 0x64, 0x64, 0x70, 0x69, 0x6e, 0x67]
  const PING_CURSOR: bytes := [0x66, 0x63, 0x75, 0x72, 0x73, 0x6f, 0x72, 0x02]
  const PING_PAYLOAD: bytes := [0x67, 0x70, 0x61, 0x79, 0x6c, 0x6f, 0x61, 0x64, 0xf6]
  const PING_REQUEST: bytes := [0x6a, 0x72, 0x65, 0x71, 0x75, 0x65, 0x73, 0x74, 0x5f, 0x69, 0x64, 0x01]

  lemma KindEntry()
    ensures Entry(KIND, Text(Ascii("ping"))) == PING_KIND
  {
    assert EncodeText(KIND) == [0x64, 0x6b, 0x69, 0x6e, 0x64];
    assert EncodeText(Ascii("ping")) == [0x64, 0x70, 0x69, 0x6e, 0x67];
  }

  lemma CursorEntry()
    ensures Entry(CURSOR, Int(2)) == PING_CURSOR
  {
    assert EncodeText(CURSOR) == [0x66, 0x63, 0x75, 0x72, 0x73, 0x6f, 0x72];
  }

  lemma PayloadEntry()
    ensures Entry(PAYLOAD, Null) == PING_PAYLOAD
  {
    assert EncodeText(PAYLOAD) == [0x67, 0x70, 0x61, 0x79, 0x6c, 0x6f, 0x61, 0x64];
  }

  lemma RequestEntry()
    ensures Entry(REQUEST_ID, Int(1)) == PING_REQUEST
  {
    assert EncodeText(REQUEST_ID) == [0x6a, 0x72, 0x65, 0x71, 0x75, 0x65, 0x73, 0x74, 0x5f, 0x69, 0x64];
  }

  lemma FourBytes(n: nat, a: byte, b: byte, c: byte, d: byte)
    requires n == 0x100_0000 * (a as int) + 0x1_0000 * (b as int) + 0x100 * (c as int) + d
    ensures BigEndian(n, 4) == [a, b, c, d]
  {
    hide BigEndian, FromBigEndian;
    NumbersByWeight([a, b, c, d]);
    FromBigEndianRoundTrip([a, b, c, d]);
  }

  lemma SmallInEight(n: byte)
    ensures BigEndian(n, 8) == [0, 0, 0, 0, 0, 0, 0, n]
  {
    hide BigEndian, FromBigEndian;
    var b: bytes := [0, 0, 0, 0, 0, 0, 0, n];
    NumbersByWeight(b);
    FromBigEndianRoundTrip(b);
  }

  lemma PingHeader()
    ensures HeaderBytes(Header(MAGIC, MAJOR, MINOR, 0, 40, 1, 2)) == PING_HEADER
  {
    hide BigEndian;
    FourBytes(MAGIC, 0x53, 0x4e, 0x4f, 0x57);
    TwoBytes(1);
    TwoBytes(0);
    FourBytes(0, 0, 0, 0, 0);
    FourBytes(40, 0, 0, 0, 40);
    SmallInEight(1);
    SmallInEight(2);
  }

  lemma PingLength()
    ensures |[0xa4] + (PING_KIND + PING_CURSOR + PING_PAYLOAD + PING_REQUEST)| == 40
  {
  }

  const PING := Message(Ping, 1, 2, Null)

  lemma PingPayload()
    ensures Representable(ToCbor(PING))
    ensures Encode(ToCbor(PING)) == [0xa4] + (PING_KIND + PING_CURSOR + PING_PAYLOAD + PING_REQUEST)
  {
    hide PING_KIND, PING_CURSOR, PING_PAYLOAD, PING_REQUEST, Encode, EncodeText, Ascii, ToCbor, Entry;
    EnvelopeByBytes(PING);
    KindEntry();
    CursorEntry();
    PayloadEntry();
    RequestEntry();
  }

  /** The whole frame of a ping with request 1, cursor 2 and no payload. */
  lemma PingExample()
    ensures FrameOf(PING) == PING_HEADER + ([0xa4] + (PING_KIND + PING_CURSOR + PING_PAYLOAD + PING_REQUEST))
  {
    PingLength();
    PingPayload();
    PingHeader();
    hide PING_HEADER, PING_KIND, PING_CURSOR, PING_PAYLOAD, PING_REQUEST, Encode, HeaderBytes, ToCbor, Representable;
  }

  /** A message is sent, with the length of its payload in the header, exactly up to 16 MiB of payload. */
  lemma SentUpToLimit(m: Message)
    requires Representable(m.payload)
    ensures Representable(ToCbor(m))
    ensures var payload, frame := Encode(ToCbor(m)), FrameOf(m);
      if |payload| <= 16 * 1024 * 1024 then
        |frame| == 32 + |payload| && Word(frame, 12) == |payload| && frame[32..] == payload
      else frame == []
  {
    EnvelopeIsRepresentable(m);
    hide Encode, ToCbor, Representable, BigEndian, FromBigEndian;
    var payload := Encode(ToCbor(m));
    if |payload| <= 16 * 1024 * 1024 {
      var h := Header(MAGIC, MAJOR, MINOR, 0, |payload|, m.requestId, m.cursor);
      HeaderReadsBack(h);
      HeaderByBytes(HeaderBytes(h));
      hide HeaderBytes, ParseHeader;
      var frame := FrameOf(m);
      assert frame == HeaderBytes(h) + payload;
      assert forall i | 0 <= i < 32 :: frame[i] == HeaderBytes(h)[i];
    }
  }
}
