/** Snow messages as CBOR maps, the 32-byte frame header, and reading and writing of frames. */
module SnowFrame {
  import opened Bytes
  import opened CborValue
  import opened CborCodec
  import opened CborCanonical

  type uint16 = x: int | 0 <= x < 0x1_0000
  type uint32 = x: int | 0 <= x < 0x1_0000_0000

  const MAGIC: uint32 := 0x534e_4f57
  const MAJOR: uint16 := 1
  const MINOR: uint16 := 0
  const MAX_PAYLOAD: nat := 16 * 1024 * 1024
  const HEADER_SIZE: nat := 32
  const LIMITS := Limits(64, MAX_ITEMS)

  datatype Kind =
    | Hello | SnapshotRequest | Snapshot | Delta | Stream | Intent | IntentResult
    | Cancel | Close | Closed | Ping | Pong | Error

  datatype Message = Message(kind: Kind, requestId: uint64, cursor: uint64, payload: Value)

  datatype Failure =
    | ConnectionClosed | BadMagic | WrongMajor | PayloadTooLarge | IncompletePayload
    | BadCbor(error: CborCodec.Error) | NotCanonical | NotAMap | UnknownKind | HeaderMismatch

  // ----- messages as CBOR values -----

  function Ascii(s: string): (b: bytes)
    requires forall i | 0 <= i < |s| :: s[i] as int < 256
    ensures |b| == |s| && forall i | 0 <= i < |s| :: b[i] == s[i] as int
  {
    seq(|s|, i requires 0 <= i < |s| => s[i] as int)
  }

  const KIND: bytes := Ascii("kind")
  const REQUEST_ID: bytes := Ascii("request_id")
  const CURSOR: bytes := Ascii("cursor")
  const PAYLOAD: bytes := Ascii("payload")

  function KindText(kind: Kind): (s: string)
    ensures |s| < 32 && forall i | 0 <= i < |s| :: s[i] as int < 256
  {
    match kind
    case Hello => "hello"
    case SnapshotRequest => "snapshot.request"
    case Snapshot => "snapshot"
    case Delta => "delta"
    case Stream => "stream"
    case Intent => "intent"
    case IntentResult => "intent.result"
    case Cancel => "cancel"
    case Close => "close"
    case Closed => "closed"
    case Ping => "ping"
    case Pong => "pong"
    case Error => "error"
  }

  /** `static_cast<std::int64_t>` and back: two's complement. */
  function ToSigned(u: uint64): int64 {
    if u < 0x8000_0000_0000_0000 then u else u - 0x1_0000_0000_0000_0000
  }

  function ToUnsigned(i: int64): uint64 {
    if i >= 0 then i else i + 0x1_0000_0000_0000_0000
  }

  function ToCbor(m: Message): Value {
    Map(map[KIND := Text(Ascii(KindText(m.kind))),
            REQUEST_ID := Int(ToSigned(m.requestId)),
            CURSOR := Int(ToSigned(m.cursor)),
            PAYLOAD := m.payload])
  }

  function AsString(v: Value): bytes {
    if v.Text? then v.text else []
  }

  function AsInteger(v: Value): int64 {
    if v.Int? then v.number else 0
  }

  datatype Decoded = Good(message: Message) | Bad(failure: Failure)

  function FromCbor(v: Value): Decoded {
    if !v.Map? then Bad(NotAMap)
    else
      var text := if KIND in v.entries then AsString(v.entries[KIND]) else [];
      match KindOf(text)
      case Unknown => Bad(UnknownKind)
      case Known(kind) => WithKind(v.entries, kind)
  }

  datatype MaybeKind = Unknown | Known(kind: Kind)

  function KindOf(text: bytes): MaybeKind {
    if text == Ascii("hello") then Known(Hello)
    else if text == Ascii("snapshot.request") then Known(SnapshotRequest)
    else if text == Ascii("snapshot") then Known(Snapshot)
    else if text == Ascii("delta") then Known(Delta)
    else if text == Ascii("stream") then Known(Stream)
    else if text == Ascii("intent") then Known(Intent)
    else if text == Ascii("intent.result") then Known(IntentResult)
    else if text == Ascii("cancel") then Known(Cancel)
    else if text == Ascii("close") then Known(Close)
    else if text == Ascii("closed") then Known(Closed)
    else if text == Ascii("ping") then Known(Ping)
    else if text == Ascii("pong") then Known(Pong)
    else if text == Ascii("error") then Known(Error)
    else Unknown
  }

  function WithKind(m: map<bytes, Value>, kind: Kind): Decoded {
    Good(Message(kind,
                 if REQUEST_ID in m then ToUnsigned(AsInteger(m[REQUEST_ID])) else 0,
                 if CURSOR in m then ToUnsigned(AsInteger(m[CURSOR])) else 0,
                 if PAYLOAD in m then m[PAYLOAD] else Map(map[])))
  }

  lemma AsciiInjective(a: string, b: string)
    requires forall i | 0 <= i < |a| :: a[i] as int < 256
    requires forall i | 0 <= i < |b| :: b[i] as int < 256
    ensures Ascii(a) == Ascii(b) <==> a == b
  {
    if Ascii(a) == Ascii(b) {
      forall i | 0 <= i < |a| ensures a[i] == b[i] {
        assert Ascii(a)[i] == Ascii(b)[i];
      }
    }
  }

  lemma FieldNames()
    ensures |KIND| == 4 && |REQUEST_ID| == 10 && |CURSOR| == 6 && |PAYLOAD| == 7
  {
  }

  lemma TextsDiffer(kind: Kind, other: Kind)
    ensures Ascii(KindText(kind)) == Ascii(KindText(other)) <==> kind == other
  {
    hide Ascii;
    var s, t := KindText(kind), KindText(other);
    AsciiInjective(s, t);
    if |s| == |t| && kind != other {
      assert s[0] != t[0] || s[1] != t[1];
    }
  }

  /** The text of a kind is decoded to that kind. */
  lemma KindReadsBack(kind: Kind)
    ensures KindOf(Ascii(KindText(kind))) == Known(kind)
  {
    hide Ascii;
    TextsDiffer(kind, Hello);
    TextsDiffer(kind, SnapshotRequest);
    TextsDiffer(kind, Snapshot);
    TextsDiffer(kind, Delta);
    TextsDiffer(kind, Stream);
    TextsDiffer(kind, Intent);
    TextsDiffer(kind, IntentResult);
    TextsDiffer(kind, Cancel);
    TextsDiffer(kind, Close);
    TextsDiffer(kind, Closed);
    TextsDiffer(kind, Ping);
    TextsDiffer(kind, Pong);
    TextsDiffer(kind, Error);
  }

  /** A message survives the trip through CBOR, 64-bit ids through signed integers included. */
  lemma MessageReadsBack(m: Message)
    ensures FromCbor(ToCbor(m)) == Good(m)
  {
    hide KindOf;
    FieldNames();
    KindReadsBack(m.kind);
  }

  // ----- the frame header -----

  datatype Header = Header(magic: uint32, major: uint16, minor: uint16, flags: uint32,
                           payloadSize: uint32, requestId: uint64, cursor: uint64)

  /** Big-endian fields at the offsets 0, 4, 6, 8, 12, 16 and 24. */
  function HeaderBytes(h: Header): (b: bytes)
    ensures |b| == HEADER_SIZE
  {
    BigEndian(h.magic, 4) + BigEndian(h.major, 2) + BigEndian(h.minor, 2) + BigEndian(h.flags, 4)
    + BigEndian(h.payloadSize, 4) + BigEndian(h.requestId, 8) + BigEndian(h.cursor, 8)
  }

  function Field(b: bytes, at: nat, width: nat): (n: nat)
    requires at + width <= |b| && width in {2, 4, 8}
    ensures n < 0x1_0000_0000_0000_0000
    ensures width <= 4 ==> n < 0x1_0000_0000
    ensures width == 2 ==> n < 0x1_0000
  {
    assert Pow256(2) == 0x1_0000 && Pow256(4) == 0x1_0000_0000 && Pow256(8) == 0x1_0000_0000_0000_0000;
    FromBigEndian(b[at..at + width])
  }

  function ParseHeader(b: bytes): Header
    requires |b| == HEADER_SIZE
  {
    Header(Field(b, 0, 4), Field(b, 4, 2), Field(b, 6, 2), Field(b, 8, 4),
           Field(b, 12, 4), Field(b, 16, 8), Field(b, 24, 8))
  }

  lemma FieldReadsBack(before: bytes, n: nat, width: nat, after: bytes)
    requires width in {2, 4, 8} && n < Pow256(width)
    ensures Field(before + BigEndian(n, width) + after, |before|, width) == n
  {
    hide BigEndian;
    hide FromBigEndian;
    var b := before + BigEndian(n, width) + after;
    assert b[|before|..|before| + width] == BigEndian(n, width);
    BigEndianRoundTrip(n, width);
  }

  lemma HeaderReadsBack(h: Header)
    ensures ParseHeader(HeaderBytes(h)) == h
  {
    hide BigEndian;
    hide Field;
    assert Pow256(2) == 0x1_0000 && Pow256(4) == 0x1_0000_0000 && Pow256(8) == 0x1_0000_0000_0000_0000;
    var m, j, n, f := BigEndian(h.magic, 4), BigEndian(h.major, 2), BigEndian(h.minor, 2), BigEndian(h.flags, 4);
    var p, r, c := BigEndian(h.payloadSize, 4), BigEndian(h.requestId, 8), BigEndian(h.cursor, 8);
    var b := HeaderBytes(h);
    assert b == [] + m + (j + n + f + p + r + c);
    FieldReadsBack([], h.magic, 4, j + n + f + p + r + c);
    assert b == m + j + (n + f + p + r + c);
    FieldReadsBack(m, h.major, 2, n + f + p + r + c);
    assert b == (m + j) + n + (f + p + r + c);
    FieldReadsBack(m + j, h.minor, 2, f + p + r + c);
    assert b == (m + j + n) + f + (p + r + c);
    FieldReadsBack(m + j + n, h.flags, 4, p + r + c);
    assert b == (m + j + n + f) + p + (r + c);
    FieldReadsBack(m + j + n + f, h.payloadSize, 4, r + c);
    assert b == (m + j + n + f + p) + r + c;
    FieldReadsBack(m + j + n + f + p, h.requestId, 8, c);
    assert b == (m + j + n + f + p + r) + c + [];
    FieldReadsBack(m + j + n + f + p + r, h.cursor, 8, []);
  }

  /** Every 32 bytes are the header they parse to: nothing of the header is lost. */
  lemma HeaderWritesBack(b: bytes)
    requires |b| == HEADER_SIZE
    ensures HeaderBytes(ParseHeader(b)) == b
  {
    hide BigEndian;
    hide FromBigEndian;
    FromBigEndianRoundTrip(b[0..4]);
    FromBigEndianRoundTrip(b[4..6]);
    FromBigEndianRoundTrip(b[6..8]);
    FromBigEndianRoundTrip(b[8..12]);
    FromBigEndianRoundTrip(b[12..16]);
    FromBigEndianRoundTrip(b[16..24]);
    FromBigEndianRoundTrip(b[24..32]);
  }

  // ----- frames -----

  ghost predicate Writable(m: Message) {
    Representable(ToCbor(m)) && |Encode(ToCbor(m))| <= MAX_PAYLOAD
  }

  /** The bytes `write_message` sends: none when the payload is too large. */
  ghost function FrameOf(m: Message): bytes {
    if Writable(m) then
      var payload := Encode(ToCbor(m));
      HeaderBytes(Header(MAGIC, MAJOR, MINOR, 0, |payload|, m.requestId, m.cursor)) + payload
    else []
  }

  datatype Received = Received(message: Message, rest: bytes) | Refused(failure: Failure)

  /** What `read_message` does with the bytes still to come on a channel. */
  ghost function ReadFrame(s: bytes): Received {
    if |s| < HEADER_SIZE then Refused(ConnectionClosed)
    else
      var h := ParseHeader(s[..HEADER_SIZE]);
      if h.magic != MAGIC then Refused(BadMagic)
      else if h.major != MAJOR then Refused(WrongMajor)
      else if h.payloadSize > MAX_PAYLOAD then Refused(PayloadTooLarge)
      else if |s| - HEADER_SIZE < h.payloadSize then Refused(IncompletePayload)
      else
        var p := ReadPayload(s[HEADER_SIZE..HEADER_SIZE + h.payloadSize], h);
        if p.Bad? then Refused(p.failure) else Received(p.message, s[HEADER_SIZE + h.payloadSize..])
  }

  ghost function ReadPayload(payload: bytes, h: Header): Decoded
    requires |payload| <= MAX_PAYLOAD
  {
    var d := Decode(payload, LIMITS);
    if d.Err? then Bad(BadCbor(d.error))
    else
      DecodeSound(payload, LIMITS);
      if Encode(d.value) != payload then Bad(NotCanonical)
      else
        var m := FromCbor(d.value);
        if m.Bad? then m
        else if m.message.requestId != h.requestId || m.message.cursor != h.cursor then Bad(HeaderMismatch)
        else m
  }

  /** Around a payload, a map of small scalars adds one level of nesting and nothing else. */
  lemma OneLevelUp(entries: map<bytes, Value>, at: bytes, room: nat)
    requires at in entries && room > 0 && |entries| <= 4
    requires forall k | k in entries :: |k| < 16
    requires forall k | k in entries && k != at :: entries[k].Int? || (entries[k].Text? && |entries[k].text| < 32)
    ensures Representable(Map(entries)) <==> Representable(entries[at])
    ensures Fits(Map(entries), room, MAX_ITEMS) <==> Fits(entries[at], room - 1, MAX_ITEMS)
  {
    assert forall k | k in entries && k != at :: Representable(entries[k]) && Fits(entries[k], room - 1, MAX_ITEMS);
  }

  lemma FourEntriesFit(a: bytes, b: bytes, c: bytes, d: bytes, t: Value, i: Value, j: Value, p: Value, room: nat)
    requires a != d && b != d && c != d && |a| < 16 && |b| < 16 && |c| < 16 && |d| < 16 && room > 0
    requires t.Text? && |t.text| < 32 && i.Int? && j.Int?
    ensures var m := Map(map[a := t, b := i, c := j, d := p]);
      (Representable(m) <==> Representable(p)) && (Fits(m, room, MAX_ITEMS) <==> Fits(p, room - 1, MAX_ITEMS))
  {
    hide Fits;
    hide Representable;
    var entries := map[a := t, b := i, c := j, d := p];
    assert entries.Keys == {a, b, c, d} && |{a, b, c, d}| <= 4;
    assert |entries| == |entries.Keys|;
    OneLevelUp(entries, d, room);
  }

  lemma MessageFits(m: Message)
    ensures Representable(ToCbor(m)) <==> Representable(m.payload)
    ensures Fits(ToCbor(m), 64, MAX_ITEMS) <==> Fits(m.payload, 63, MAX_ITEMS)
  {
    hide Fits;
    hide Representable;
    hide Ascii;
    hide KindText;
    FieldNames();
    FourEntriesFit(KIND, REQUEST_ID, CURSOR, PAYLOAD, Text(Ascii(KindText(m.kind))),
                   Int(ToSigned(m.requestId)), Int(ToSigned(m.cursor)), m.payload, 64);
  }

  /**
   * Reading a written frame, whatever follows it, gives the message back and consumes exactly the
   * frame; and it does so exactly when the payload nests at most 63 levels with collections in bounds.
   */
  lemma FrameRoundTrip(m: Message, rest: bytes)
    ensures Writable(m) && Fits(m.payload, 63, MAX_ITEMS) ==> ReadFrame(FrameOf(m) + rest) == Received(m, rest)
    ensures Writable(m) && !Fits(m.payload, 63, MAX_ITEMS) ==> ReadFrame(FrameOf(m) + rest).Refused?
  {
    hide Read;
    hide Encode;
    hide Fits;
    hide Representable;
    hide FromCbor;
    hide ToCbor;
    hide ParseHeader;
    hide HeaderBytes;
    if Writable(m) {
      var payload := Encode(ToCbor(m));
      var h := Header(MAGIC, MAJOR, MINOR, 0, |payload|, m.requestId, m.cursor);
      var s := FrameOf(m) + rest;
      assert s[..HEADER_SIZE] == HeaderBytes(h);
      assert s[HEADER_SIZE..HEADER_SIZE + |payload|] == payload;
      assert s[HEADER_SIZE + |payload|..] == rest;
      HeaderReadsBack(h);
      MessageFits(m);
      DecodeEncodeIff(ToCbor(m), LIMITS);
      MessageReadsBack(m);
    }
  }

  /** What a reader accepts is a well-formed header, then a canonical payload that names the same ids. */
  lemma AcceptedFrame(s: bytes)
    requires ReadFrame(s).Received?
    ensures var r := ReadFrame(s);
      exists h: Header, v: Value ::
        && h.magic == MAGIC && h.major == MAJOR
        && h.requestId == r.message.requestId && h.cursor == r.message.cursor
        && EncodingOf(Encoded(v), v, LIMITS) && |Encoded(v)| == h.payloadSize
        && FromCbor(v) == Good(r.message)
        && s == HeaderBytes(h) + Encoded(v) + r.rest
  {
    hide Read;
    hide Fits;
    hide Representable;
    hide FromCbor;
    hide ParseHeader;
    hide HeaderBytes;
    var h := ParseHeader(s[..HEADER_SIZE]);
    var payload := s[HEADER_SIZE..HEADER_SIZE + h.payloadSize];
    var v := Decode(payload, LIMITS).value;
    DecodeSound(payload, LIMITS);
    HeaderWritesBack(s[..HEADER_SIZE]);
    assert EncodingOf(Encoded(v), v, LIMITS) && Encoded(v) == payload;
    assert s == HeaderBytes(h) + payload + s[HEADER_SIZE + h.payloadSize..];
  }

  ghost function Encoded(v: Value): bytes {
    if Representable(v) then Encode(v) else []
  }

  // ----- a whole conversation -----

  ghost predicate Sendable(ms: seq<Message>) {
    forall i | 0 <= i < |ms| :: Writable(ms[i]) && Fits(ms[i].payload, 63, MAX_ITEMS)
  }

  /** The frames of `ms`, one after the other. */
  ghost function FramesOf(ms: seq<Message>): bytes
    requires Sendable(ms)
  {
    if ms == [] then [] else FrameOf(ms[0]) + FramesOf(ms[1..])
  }

  datatype Conversation = Conversation(messages: seq<Message>, failure: Failure)

  /** Reading until a read fails, as a connection is served. */
  ghost function ReadAll(s: bytes): Conversation
    decreases |s|
  {
    match ReadFrame(s)
    case Refused(f) => Conversation([], f)
    case Received(m, rest) =>
      assert |rest| < |s|;
      var later := ReadAll(rest);
      Conversation([m] + later.messages, later.failure)
  }

  lemma NothingMore()
    ensures ReadAll([]) == Conversation([], ConnectionClosed)
  {
  }

  lemma OneMore(s: bytes, m: Message, rest: bytes)
    requires ReadFrame(s) == Received(m, rest)
    ensures ReadAll(s) == Conversation([m] + ReadAll(rest).messages, ReadAll(rest).failure)
  {
    hide ReadFrame;
  }

  /** A peer that sends any messages and then closes is heard exactly: no message is lost, changed or added. */
  lemma {:induction false} ConversationRoundTrip(ms: seq<Message>)
    requires Sendable(ms)
    ensures ReadAll(FramesOf(ms)) == Conversation(ms, ConnectionClosed)
  {
    hide Fits;
    hide Writable;
    hide FrameOf;
    hide ReadFrame;
    hide ReadAll;
    if ms == [] {
      NothingMore();
    } else {
      FrameRoundTrip(ms[0], FramesOf(ms[1..]));
      OneMore(FramesOf(ms), ms[0], FramesOf(ms[1..]));
      ConversationRoundTrip(ms[1..]);
      assert ms == [ms[0]] + ms[1..];
    }
  }
}
