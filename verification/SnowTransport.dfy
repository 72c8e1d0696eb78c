/** Header buffers written and read by index, and messages sent and received over a channel. */
module SnowTransport {
  import opened Bytes
  import opened CborValue
  import CborCodec
  import CborCanonical
  import opened CborMachine
  import opened SnowFrame

  // ----- integers in a buffer -----

  /** `b` with the bytes `x` written over it at `at`. */
  ghost function Over(b: bytes, at: nat, x: bytes): bytes
    requires at + |x| <= |b|
  {
    b[..at] + x + b[at + |x|..]
  }

  method Put16(output: array<byte>, at: nat, value: uint16)
    requires at + 2 <= output.Length
    modifies output
    ensures output[..] == Over(old(output[..]), at, BigEndian(value, 2))
  {
    BigEndianAt(value, 2, 0);
    BigEndianAt(value, 2, 1);
    assert Pow256(1) == 256 && Pow256(0) == 1;
    output[at] := value / 256 % 256;
    output[at + 1] := value % 256;
    assert BigEndian(value, 2) == [value / 256 % 256, value % 256];
  }

  /** `put32` and `put64`: one loop over the width. */
  method Put(output: array<byte>, at: nat, value: nat, width: nat)
    requires at + width <= output.Length
    modifies output
    ensures output[..] == Over(old(output[..]), at, BigEndian(value, width))
  {
    ghost var before, digits := output[..], BigEndian(value, width);
    var index := 0;
    while index < width
      invariant 0 <= index <= width
      invariant forall k | 0 <= k < index :: output[at + k] == digits[k]
      invariant forall k | 0 <= k < output.Length && !(at <= k < at + index) :: output[k] == before[k]
    {
      BigEndianAt(value, width, index);
      output[at + index] := value / Pow256(width - 1 - index) % 256;
      index := index + 1;
    }
    assert output[..] == Over(before, at, digits);
  }

  /** `get16`, `get32` and `get64`. */
  method Get(input: array<byte>, at: nat, width: nat) returns (value: nat)
    requires at + width <= input.Length && width in {2, 4, 8}
    ensures value == Field(input[..], at, width)
  {
    value := 0;
    var index := 0;
    while index < width
      invariant 0 <= index <= width
      invariant value == FromBigEndian(input[at..at + index])
    {
      assert input[at..at + index + 1][..index] == input[at..at + index];
      value := value * 256 + input[at + index];
      index := index + 1;
    }
    assert input[..][at..at + width] == input[at..at + width];
  }

  method EncodeHeader(h: Header) returns (buffer: array<byte>)
    ensures fresh(buffer) && buffer[..] == HeaderBytes(h)
  {
    hide BigEndian;
    buffer := new byte[HEADER_SIZE](_ => 0);
    Put(buffer, 0, h.magic, 4);
    assert buffer[..4] == BigEndian(h.magic, 4);
    Put16(buffer, 4, h.major);
    assert buffer[..6] == BigEndian(h.magic, 4) + BigEndian(h.major, 2);
    Put16(buffer, 6, h.minor);
    ghost var start := BigEndian(h.magic, 4) + BigEndian(h.major, 2) + BigEndian(h.minor, 2);
    assert buffer[..8] == start;
    Put(buffer, 8, h.flags, 4);
    assert buffer[..12] == start + BigEndian(h.flags, 4);
    Put(buffer, 12, h.payloadSize, 4);
    assert buffer[..16] == start + BigEndian(h.flags, 4) + BigEndian(h.payloadSize, 4);
    Put(buffer, 16, h.requestId, 8);
    ghost var most := start + BigEndian(h.flags, 4) + BigEndian(h.payloadSize, 4) + BigEndian(h.requestId, 8);
    assert buffer[..24] == most;
    Put(buffer, 24, h.cursor, 8);
    assert buffer[..32] == most + BigEndian(h.cursor, 8);
  }

  datatype HeaderResult = HeaderOk(header: Header) | HeaderBad(failure: Failure)

  method DecodeHeader(buffer: array<byte>) returns (r: HeaderResult)
    requires buffer.Length == HEADER_SIZE
    ensures var h := ParseHeader(buffer[..]);
      r == if h.magic != MAGIC then HeaderBad(BadMagic)
           else if h.major != MAJOR then HeaderBad(WrongMajor)
           else if h.payloadSize > MAX_PAYLOAD then HeaderBad(PayloadTooLarge)
           else HeaderOk(h)
  {
    hide Field;
    var magic := Get(buffer, 0, 4);
    var major := Get(buffer, 4, 2);
    var minor := Get(buffer, 6, 2);
    var flags := Get(buffer, 8, 4);
    var size := Get(buffer, 12, 4);
    var requestId := Get(buffer, 16, 8);
    var cursor := Get(buffer, 24, 8);
    if magic != MAGIC { return HeaderBad(BadMagic); }
    if major != MAJOR { return HeaderBad(WrongMajor); }
    if size > MAX_PAYLOAD { return HeaderBad(PayloadTooLarge); }
    return HeaderOk(Header(magic, major, minor, flags, size, requestId, cursor));
  }

  // ----- a channel -----

  /** What a peer has sent and not yet been read, and what was written to the peer. */
  class Channel {
    var incoming: bytes
    var outgoing: bytes

    constructor (incoming: bytes)
      ensures this.incoming == incoming && outgoing == []
    {
      this.incoming, outgoing := incoming, [];
    }

    /** `read_all`: the next `size` bytes, or failure once the peer has closed. */
    method ReadExactly(size: nat) returns (ok: bool, taken: bytes)
      modifies this`incoming
      ensures ok <==> size <= |old(incoming)|
      ensures ok ==> taken == old(incoming)[..size] && incoming == old(incoming)[size..]
    {
      if size <= |incoming| {
        ok, taken := true, incoming[..size];
        incoming := incoming[size..];
      } else {
        ok, taken := false, [];
        incoming := [];
      }
    }

    method ReadMessage() returns (r: Decoded)
      modifies this`incoming
      ensures match ReadFrame(old(incoming))
        case Received(m, rest) => r == Good(m) && incoming == rest
        case Refused(f) => r == Bad(f)
    {
      hide CborCodec.Decode;
      hide CborCodec.Encode;
      hide ParseHeader;
      ghost var s := incoming;
      var ok, headerBytes := ReadExactly(HEADER_SIZE);
      if !ok { return Bad(ConnectionClosed); }
      var buffer := new byte[HEADER_SIZE](i requires 0 <= i < HEADER_SIZE => headerBytes[i]);
      assert buffer[..] == headerBytes;
      var header := DecodeHeader(buffer);
      if header.HeaderBad? { return Bad(header.failure); }
      var h := header.header;
      var payload;
      ok, payload := ReadExactly(h.payloadSize);
      if !ok { return Bad(IncompletePayload); }
      assert s[HEADER_SIZE..][..h.payloadSize] == s[HEADER_SIZE..HEADER_SIZE + h.payloadSize];
      assert s[HEADER_SIZE..][h.payloadSize..] == s[HEADER_SIZE + h.payloadSize..];
      r := CheckPayload(payload, h);
    }

    method WriteMessage(m: Message) returns (ok: bool)
      requires Representable(m.payload)
      modifies this`outgoing
      ensures ok <==> Writable(m)
      ensures outgoing == if Writable(m) then old(outgoing) + FrameOf(m) else old(outgoing)
    {
      hide CborCodec.Encode;
      hide ToCbor;
      MessageFits(m);
      var encoder := new Encoder();
      encoder.EncodeValue(ToCbor(m));
      var payload := encoder.output;
      assert [] + CborCodec.Encode(ToCbor(m)) == CborCodec.Encode(ToCbor(m));
      if |payload| > MAX_PAYLOAD { return false; }
      var header := EncodeHeader(Header(MAGIC, MAJOR, MINOR, 0, |payload|, m.requestId, m.cursor));
      outgoing := outgoing + header[..];
      outgoing := outgoing + payload;
      assert outgoing == old(outgoing) + (header[..] + payload);
      return true;
    }
  }

  /** The part of `read_message` after the bytes have arrived. */
  method CheckPayload(payload: bytes, h: Header) returns (r: Decoded)
    requires |payload| <= MAX_PAYLOAD
    ensures r == ReadPayload(payload, h)
  {
    hide CborCodec.Decode;
    hide CborCodec.Encode;
    hide FromCbor;
    var decoder := new CborMachine.Decoder(payload, LIMITS);
    var decoded := decoder.DecodeAll();
    if decoded.Failure? { return Bad(BadCbor(decoded.error)); }
    CborCanonical.DecodeSound(payload, LIMITS);
    var encoder := new Encoder();
    encoder.EncodeValue(decoded.value);
    assert [] + CborCodec.Encode(decoded.value) == CborCodec.Encode(decoded.value);
    if encoder.output != payload { return Bad(NotCanonical); }
    r := FromCbor(decoded.value);
    if r.Good? && (r.message.requestId != h.requestId || r.message.cursor != h.cursor) {
      return Bad(HeaderMismatch);
    }
  }
}
