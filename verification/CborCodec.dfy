/**
 * What the encoder writes and what the decoder reads, as functions on byte strings.
 * Shifts and masks of the source are quotients and remainders by powers of two here.
 */
module CborCodec {
  import opened Bytes
  import opened CborValue

  datatype Error =
    | NestingLimit | TruncatedValue | ReservedLength | TruncatedArgument
    | IntegerRange | NegativeRange | TruncatedString | ArrayLimit | MapLimit
    | KeyNotText | DuplicateKey | TruncatedFloat | Unsupported | TrailingBytes

  datatype Parsed<+T> = Ok(value: T, rest: bytes) | Err(error: Error)

  // ----- writing -----

  /** RFC 8949 section 4.2.1: the shortest head for an argument. */
  function Head(major: nat, n: uint64): (b: bytes)
    requires major < 8
    ensures |b| >= 1
  {
    if n < 24 then [major * 32 + n]
    else if n <= 0xff then [major * 32 + 24] + BigEndian(n, 1)
    else if n <= 0xffff then [major * 32 + 25] + BigEndian(n, 2)
    else if n <= 0xffff_ffff then [major * 32 + 26] + BigEndian(n, 4)
    else [major * 32 + 27] + BigEndian(n, 8)
  }

  ghost function Encode(v: Value): (b: bytes)
    requires Representable(v)
    ensures |b| >= 1
    decreases v, 0
  {
    match v
    case Null => [0xf6]
    case Bool(flag) => [if flag then 0xf5 else 0xf4]
    case Int(n) => if n >= 0 then Head(0, n) else Head(1, -1 - n)
    case Double(bits) => [0xfb] + BigEndian(bits, 8)
    case Text(t) => EncodeText(t)
    case Blob(b) => Head(2, |b|) + b
    case Array(items) => Head(4, |items|) + EncodeItems(items)
    case Map(entries) => Head(5, |entries|) + EncodeEntries(v, entries.Keys)
  }

  function EncodeText(t: bytes): (b: bytes)
    requires |t| < 0x1_0000_0000_0000_0000
    ensures |b| >= 1
  {
    Head(3, |t|) + t
  }

  ghost function EncodeItems(xs: seq<Value>): bytes
    requires forall i | 0 <= i < |xs| :: Representable(xs[i])
    decreases xs, 0
  {
    if xs == [] then [] else Encode(xs[0]) + EncodeItems(xs[1..])
  }

  /** The entries of a map at `keys`, in canonical key order. */
  ghost function EncodeEntries(owner: Value, keys: set<bytes>): bytes
    requires owner.Map? && Representable(owner) && keys <= owner.entries.Keys
    decreases owner, 0, |keys|
  {
    if keys == {} then []
    else
      var k := Least(keys);
      EncodeText(k) + Encode(owner.entries[k]) + EncodeEntries(owner, keys - {k})
  }

  // ----- reading -----

  function ReadArgument(s: bytes, additional: nat): (r: Parsed<uint64>)
    requires additional < 32
    ensures r.Ok? ==> |r.rest| <= |s|
  {
    if additional < 24 then Ok(additional, s)
    else if additional > 27 then Err(ReservedLength)
    else
      var count := Width(additional);
      if count > |s| then Err(TruncatedArgument)
      else
        assert FromBigEndian(s[..count]) < Pow256(count) <= Pow256(8) == 0x1_0000_0000_0000_0000;
        Ok(FromBigEndian(s[..count]), s[count..])
  }

  function Width(additional: nat): nat {
    if additional == 24 then 1 else if additional == 25 then 2 else if additional == 26 then 4 else 8
  }

  /** The decoder's recursive reader, on the bytes from the cursor on. */
  function Read(s: bytes, depth: nat, limits: Limits): (r: Parsed<Value>)
    ensures r.Ok? ==> |r.rest| < |s|
    decreases |s|, 0
  {
    if depth > limits.depth then Err(NestingLimit)
    else if s == [] then Err(TruncatedValue)
    else
      var major, additional := s[0] / 32, s[0] % 32;
      if major <= 5 then
        var head := ReadArgument(s[1..], additional);
        if head.Err? then Err(head.error)
        else ReadBody(major, head.value, head.rest, depth, limits)
      else if major == 7 then ReadSimple(additional, s[1..])
      else Err(Unsupported)
  }

  /** The part of an item after its head, for the major types that take an argument. */
  function ReadBody(major: nat, n: uint64, s: bytes, depth: nat, limits: Limits): (r: Parsed<Value>)
    requires major <= 5
    ensures r.Ok? ==> |r.rest| <= |s|
    decreases |s|, 2
  {
    if major <= 1 then ReadInteger(major, n, s)
    else if major <= 3 then ReadString(major, n, s)
    else if major == 4 then
      if n > limits.items then Err(ArrayLimit)
      else
        var items := ReadItems(s, n, depth, limits, []);
        if items.Err? then Err(items.error) else Ok(Array(items.value), items.rest)
    else if n > limits.items then Err(MapLimit)
    else
      var entries := ReadEntries(s, n, depth, limits, map[]);
      if entries.Err? then Err(entries.error) else Ok(Map(entries.value), entries.rest)
  }

  function ReadInteger(major: nat, n: uint64, s: bytes): (r: Parsed<Value>)
    requires major <= 1
    ensures r.Ok? ==> r.rest == s
  {
    if n > 0x7fff_ffff_ffff_ffff then Err(if major == 0 then IntegerRange else NegativeRange)
    else Ok(Int(if major == 0 then n else -1 - n), s)
  }

  function ReadString(major: nat, n: uint64, s: bytes): (r: Parsed<Value>)
    requires 2 <= major <= 3
    ensures r.Ok? ==> |r.rest| <= |s|
  {
    if n > |s| then Err(TruncatedString)
    else Ok(if major == 2 then Blob(s[..n]) else Text(s[..n]), s[n..])
  }

  function ReadSimple(additional: nat, s: bytes): (r: Parsed<Value>)
    ensures r.Ok? ==> |r.rest| <= |s|
  {
    if additional == 20 then Ok(Bool(false), s)
    else if additional == 21 then Ok(Bool(true), s)
    else if additional == 22 then Ok(Null, s)
    else if additional != 27 then Err(Unsupported)
    else if 8 > |s| then Err(TruncatedFloat)
    else
      assert FromBigEndian(s[..8]) < Pow256(8) == 0x1_0000_0000_0000_0000;
      Ok(Double(FromBigEndian(s[..8])), s[8..])
  }

  /** `n` more items onto `done`; items sit one level deeper. */
  function ReadItems(s: bytes, n: nat, depth: nat, limits: Limits, done: seq<Value>): (r: Parsed<seq<Value>>)
    ensures r.Ok? ==> |r.rest| <= |s|
    decreases |s|, 1, n
  {
    if n == 0 then Ok(done, s)
    else
      var item := Read(s, depth + 1, limits);
      if item.Err? then Err(item.error)
      else ReadItems(item.rest, n - 1, depth, limits, done + [item.value])
  }

  /** `n` more entries onto `done`; keys must be text and new. */
  function ReadEntries(s: bytes, n: nat, depth: nat, limits: Limits, done: map<bytes, Value>)
    : (r: Parsed<map<bytes, Value>>)
    ensures r.Ok? ==> |r.rest| <= |s|
    decreases |s|, 1, n
  {
    if n == 0 then Ok(done, s)
    else
      var key := Read(s, depth + 1, limits);
      if key.Err? then Err(key.error)
      else if !key.value.Text? then Err(KeyNotText)
      else
        var item := Read(key.rest, depth + 1, limits);
        if item.Err? then Err(item.error)
        else if key.value.text in done then Err(DuplicateKey)
        else ReadEntries(item.rest, n - 1, depth, limits, done[key.value.text := item.value])
  }

  /** `Decoder::decode`: one value and nothing after it. */
  function Decode(b: bytes, limits: Limits): (r: Parsed<Value>) {
    var v := Read(b, 0, limits);
    if v.Err? then v
    else if v.rest != [] then Err(TrailingBytes)
    else v
  }
}
