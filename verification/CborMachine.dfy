/** The encoder that appends to an output buffer and the decoder that moves a cursor. */
module CborMachine {
  import opened Bytes
  import opened CborValue
  import opened CborCodec
  import opened CborCanonical

  datatype Result<+T> = Success(value: T) | Failure(error: Error)

  class Encoder {
    var output: bytes

    constructor ()
      ensures output == []
    {
      output := [];
    }

    /** The `shift` loops: bytes of `value` from the most significant down. */
    method PushBytes(value: nat, width: nat)
      modifies this
      ensures output == old(output) + BigEndian(value, width)
    {
      var shift := width;
      while shift > 0
        invariant 0 <= shift <= width
        invariant output == old(output) + BigEndian(value, width)[..width - shift]
      {
        shift := shift - 1;
        BigEndianAt(value, width, width - 1 - shift);
        output := output + [value / Pow256(shift) % 256];
      }
    }

    method WriteArgument(major: nat, value: uint64)
      requires major < 8
      modifies this
      ensures output == old(output) + Head(major, value)
    {
      var prefix := major * 32;
      if value < 24 {
        output := output + [prefix + value];
      } else if value <= 0xff {
        output := output + [prefix + 24];
        PushBytes(value, 1);
      } else if value <= 0xffff {
        output := output + [prefix + 25];
        PushBytes(value, 2);
      } else if value <= 0xffff_ffff {
        output := output + [prefix + 26];
        PushBytes(value, 4);
      } else {
        output := output + [prefix + 27];
        PushBytes(value, 8);
      }
    }

    method WriteText(t: bytes)
      requires |t| < WORD
      modifies this
      ensures output == old(output) + EncodeText(t)
    {
      WriteArgument(3, |t|);
      output := output + t;
    }

    method EncodeValue(v: Value)
      requires Representable(v)
      modifies this
      ensures output == old(output) + Encode(v)
      decreases v
    {
      match v
      case Null => output := output + [0xf6];
      case Bool(flag) => output := output + [if flag then 0xf5 else 0xf4];
      case Int(n) =>
        if n >= 0 {
          WriteArgument(0, n);
        } else {
          WriteArgument(1, -1 - n);
        }
      case Double(bits) =>
        output := output + [0xfb];
        PushBytes(bits, 8);
      case Text(t) => WriteText(t);
      case Blob(b) =>
        WriteArgument(2, |b|);
        output := output + b;
      case Array(items) => EncodeArray(v);
      case Map(entries) => EncodeMap(v);
    }

    method EncodeArray(v: Value)
      requires v.Array? && Representable(v)
      modifies this
      ensures output == old(output) + Encode(v)
      decreases v, 0
    {
      hide Head;
      hide Encode;
      hide EncodeItems;
      hide Representable;
      ArrayEncoding(v);
      WriteArgument(4, |v.items|);
      ghost var target := output + EncodeItems(v.items);
      var i := 0;
      assert v.items[0..] == v.items;
      while i < |v.items|
        invariant 0 <= i <= |v.items|
        invariant output + EncodeItems(v.items[i..]) == target
      {
        ghost var before := output;
        ItemsStep(v.items, i);
        EncodeValue(v.items[i]);
        assert output + EncodeItems(v.items[i + 1..])
            == before + (Encode(v.items[i]) + EncodeItems(v.items[i + 1..]));
        i := i + 1;
      }
      assert v.items[i..] == [] && output + [] == output;
    }

    method EncodeMap(v: Value)
      requires v.Map? && Representable(v)
      modifies this
      ensures output == old(output) + Encode(v)
      decreases v, 0
    {
      hide Head;
      hide Encode;
      hide EncodeText;
      hide EncodeEntries;
      hide Members;
      hide Representable;
      hide StrictlySorted;
      MapEncoding(v);
      WriteArgument(5, |v.entries|);
      ghost var target := output + EncodeEntries(v, v.entries.Keys);
      var ordered := SortKeys(v.entries);
      assert ordered[0..] == ordered;
      var i := 0;
      while i < |ordered|
        invariant 0 <= i <= |ordered|
        invariant Members(ordered[i..]) <= v.entries.Keys
        invariant output + EncodeEntries(v, Members(ordered[i..])) == target
      {
        var k := ordered[i];
        ghost var before, tail := output, Members(ordered[i + 1..]);
        NextKeyIsLeast(ordered, i);
        FirstEntryWritten(v, Members(ordered[i..]));
        WriteText(k);
        EncodeValue(v.entries[k]);
        assert output + EncodeEntries(v, tail)
            == before + (EncodeText(k) + Encode(v.entries[k]) + EncodeEntries(v, tail));
        i := i + 1;
      }
      NoEntries(v, ordered, i);
      assert output + [] == output;
    }
  }

  lemma FirstEntryWritten(owner: Value, keys: set<bytes>)
    requires owner.Map? && Representable(owner) && keys <= owner.entries.Keys && keys != {}
    ensures var k := Least(keys);
      && k in owner.entries && |k| < WORD && Representable(owner.entries[k])
      && EncodeEntries(owner, keys) == EncodeText(k) + Encode(owner.entries[k]) + EncodeEntries(owner, keys - {k})
  {
    hide EncodeText;
    hide Encode;
  }

  lemma NoEntries(owner: Value, keys: seq<bytes>, i: nat)
    requires owner.Map? && Representable(owner) && i == |keys|
    ensures Members(keys[i..]) == {} && EncodeEntries(owner, {}) == []
  {
  }

  /** `Decoder`: the bytes, a cursor into them and the limits. */
  class Decoder {
    const data: bytes
    const limits: Limits
    var cursor: nat

    constructor (data: bytes, limits: Limits)
      ensures this.data == data && this.limits == limits && cursor == 0
    {
      this.data, this.limits, cursor := data, limits, 0;
    }

    /** `r` and the cursor are what a reading of the bytes from `start` on gives. */
    ghost predicate Follows<T>(r: Result<T>, p: Parsed<T>)
      reads this
    {
      match p
      case Ok(v, rest) => r == Success(v) && cursor == |data| - |rest| && data[cursor..] == rest
      case Err(e) => r == Failure(e)
    }

    method Argument(additional: nat) returns (r: Result<uint64>)
      requires additional < 32 && cursor <= |data|
      modifies this
      ensures Follows(r, ReadArgument(data[old(cursor)..], additional))
      ensures cursor <= |data|
    {
      if additional < 24 { return Success(additional); }
      var count := 0;
      if additional == 24 { count := 1; }
      else if additional == 25 { count := 2; }
      else if additional == 26 { count := 4; }
      else if additional == 27 { count := 8; }
      else { return Failure(ReservedLength); }
      if cursor + count > |data| { return Failure(TruncatedArgument); }
      var value := TakeBytes(count);
      return Success(value);
    }

    /** The loops that shift bytes into a 64-bit word. */
    method TakeBytes(count: nat) returns (value: uint64)
      requires count <= 8 && cursor + count <= |data|
      modifies this
      ensures cursor == old(cursor) + count
      ensures value == FromBigEndian(data[old(cursor)..][..count])
      ensures data[cursor..] == data[old(cursor)..][count..]
    {
      value := 0;
      var index := 0;
      ghost var taken := data[cursor..][..count];
      while index < count
        invariant 0 <= index <= count && cursor == old(cursor) + index
        invariant value == FromBigEndian(taken[..index])
      {
        assert taken[..index + 1][..index] == taken[..index];
        PowerBound(index + 1);
        value := value * 256 + data[cursor];
        cursor := cursor + 1;
        index := index + 1;
      }
      assert taken[..index] == taken;
    }

    method ReadValue(depth: nat) returns (r: Result<Value>)
      requires cursor <= |data|
      modifies this
      ensures cursor <= |data|
      ensures Follows(r, Read(data[old(cursor)..], depth, limits))
      decreases |data| - cursor, 0
    {
      hide ReadArgument;
      hide ReadItems;
      hide ReadEntries;
      hide FromBigEndian;
      ghost var s := data[cursor..];
      if depth > limits.depth { return Failure(NestingLimit); }
      if cursor >= |data| { return Failure(TruncatedValue); }
      var initial := data[cursor];
      cursor := cursor + 1;
      assert data[cursor..] == s[1..];
      var major, additional := initial / 32, initial % 32;
      if major <= 5 {
        var length := Argument(additional);
        if length.Failure? { return Failure(length.error); }
        r := ReadAfterHead(major, length.value, depth);
      } else if major == 7 {
        r := ReadOther(additional);
      } else {
        r := Failure(Unsupported);
      }
    }

    method ReadOther(additional: nat) returns (r: Result<Value>)
      requires cursor <= |data|
      modifies this
      ensures cursor <= |data|
      ensures Follows(r, ReadSimple(additional, data[old(cursor)..]))
    {
      hide FromBigEndian;
      if additional == 20 { return Success(Bool(false)); }
      if additional == 21 { return Success(Bool(true)); }
      if additional == 22 { return Success(Null); }
      if additional == 27 {
        if cursor + 8 > |data| { return Failure(TruncatedFloat); }
        var bits := TakeBytes(8);
        return Success(Double(bits));
      }
      return Failure(Unsupported);
    }

    method ReadAfterHead(major: nat, length: uint64, depth: nat) returns (r: Result<Value>)
      requires major <= 5 && cursor <= |data|
      modifies this
      ensures cursor <= |data|
      ensures Follows(r, ReadBody(major, length, data[old(cursor)..], depth, limits))
      decreases |data| - cursor, 3
    {
      hide ReadItems;
      hide ReadEntries;
      ghost var s := data[cursor..];
      if major == 0 {
        if length > 0x7fff_ffff_ffff_ffff { return Failure(IntegerRange); }
        return Success(Int(length));
      }
      if major == 1 {
        if length > 0x7fff_ffff_ffff_ffff { return Failure(NegativeRange); }
        return Success(Int(-1 - length));
      }
      if major == 2 || major == 3 {
        if length > |data| - cursor { return Failure(TruncatedString); }
        var text := data[cursor..cursor + length];
        cursor := cursor + length;
        assert text == s[..length] && data[cursor..] == s[length..];
        return Success(if major == 2 then Blob(text) else Text(text));
      }
      if major == 4 {
        if length > limits.items { return Failure(ArrayLimit); }
        r := ReadArray(length, depth);
      } else {
        if length > limits.items { return Failure(MapLimit); }
        r := ReadMap(length, depth);
      }
    }

    method ReadArray(length: nat, depth: nat) returns (r: Result<Value>)
      requires cursor <= |data| && length <= limits.items && length < WORD
      modifies this
      ensures cursor <= |data|
      ensures Follows(r, ReadBody(4, length, data[old(cursor)..], depth, limits))
      decreases |data| - cursor, 2
    {
      hide Read;
      var items: seq<Value> := [];
      ghost var whole := ReadItems(data[cursor..], length, depth, limits, items);
      var index := 0;
      while index < length
        invariant 0 <= index <= length && old(cursor) <= cursor <= |data|
        invariant whole == ReadItems(data[cursor..], length - index, depth, limits, items)
      {
        var item := ReadValue(depth + 1);
        if item.Failure? { return Failure(item.error); }
        items := items + [item.value];
        index := index + 1;
      }
      return Success(Array(items));
    }

    method ReadMap(length: nat, depth: nat) returns (r: Result<Value>)
      requires cursor <= |data| && length <= limits.items && length < WORD
      modifies this
      ensures cursor <= |data|
      ensures Follows(r, ReadBody(5, length, data[old(cursor)..], depth, limits))
      decreases |data| - cursor, 2
    {
      hide Read;
      var entries: map<bytes, Value> := map[];
      ghost var whole := ReadEntries(data[cursor..], length, depth, limits, entries);
      var index := 0;
      while index < length
        invariant 0 <= index <= length && old(cursor) <= cursor <= |data|
        invariant whole == ReadEntries(data[cursor..], length - index, depth, limits, entries)
      {
        var key := ReadValue(depth + 1);
        if key.Failure? { return Failure(key.error); }
        if !key.value.Text? { return Failure(KeyNotText); }
        var item := ReadValue(depth + 1);
        if item.Failure? { return Failure(item.error); }
        if key.value.text in entries { return Failure(DuplicateKey); }
        entries := entries[key.value.text := item.value];
        index := index + 1;
      }
      return Success(Map(entries));
    }

    method DecodeAll() returns (r: Result<Value>)
      requires cursor == 0
      modifies this
      ensures match Decode(data, limits)
        case Ok(v, _) => r == Success(v)
        case Err(e) => r == Failure(e)
    {
      hide Read;
      assert data[0..] == data;
      r := ReadValue(0);
      if r.Success? && cursor != |data| { return Failure(TrailingBytes); }
    }
  }

  lemma PowerBound(index: nat)
    requires index <= 8
    ensures Pow256(index) <= WORD
    decreases 8 - index
  {
    assert Pow256(8) == WORD;
    if index < 8 { assert Pow256(index) <= Pow256(index + 1); PowerBound(index + 1); }
  }

  // ----- one step of the encoder's loops -----

  lemma ArrayEncoding(v: Value)
    requires v.Array? && Representable(v)
    ensures |v.items| < WORD && forall j | 0 <= j < |v.items| :: Representable(v.items[j])
    ensures Encode(v) == Head(4, |v.items|) + EncodeItems(v.items)
    ensures EncodeItems([]) == []
  {
    hide Head;
  }

  lemma MapEncoding(v: Value)
    requires v.Map? && Representable(v)
    ensures |v.entries| < WORD
    ensures Encode(v) == Head(5, |v.entries|) + EncodeEntries(v, v.entries.Keys)
  {
    hide Head;
    hide EncodeEntries;
  }

  lemma ItemsStep(xs: seq<Value>, i: nat)
    requires i < |xs| && forall j | 0 <= j < |xs| :: Representable(xs[j])
    ensures EncodeItems(xs[i..]) == Encode(xs[i]) + EncodeItems(xs[i + 1..])
  {
    hide Encode;
    assert xs[i..][1..] == xs[i + 1..];
  }

  // ----- the key order of a map -----

  ghost function Members(keys: seq<bytes>): set<bytes> {
    set k | k in keys
  }

  ghost predicate StrictlySorted(keys: seq<bytes>) {
    forall i, j | 0 <= i < j < |keys| :: KeyLess(keys[i], keys[j])
  }

  /** In a sorted list, the next key is the least of those left, and it occurs once. */
  lemma NextKeyIsLeast(keys: seq<bytes>, i: nat)
    requires StrictlySorted(keys) && i < |keys|
    ensures Members(keys[i..]) != {} && keys[i] == Least(Members(keys[i..]))
    ensures Members(keys[i + 1..]) == Members(keys[i..]) - {keys[i]}
  {
    hide KeyLess;
    var left := Members(keys[i..]);
    assert keys[i..] == [keys[i]] + keys[i + 1..];
    assert keys[i] in left;
    forall o | o in left && o != keys[i] ensures KeyLess(keys[i], o) {
      var j :| 0 <= j < |keys[i..]| && keys[i..][j] == o;
      assert keys[i + j] == o;
    }
    LeastIsUnique(keys[i], left);
    if keys[i] in keys[i + 1..] {
      var j :| 0 <= j < |keys[i + 1..]| && keys[i + 1..][j] == keys[i];
      assert KeyLess(keys[i], keys[i + 1 + j]);
      KeyOrderIsTotal(keys[i], keys[i]);
      assert false;
    }
  }

  /** `std::sort` over the entries: the keys of the map, each once, in canonical order. */
  method SortKeys(m: map<bytes, Value>) returns (ordered: seq<bytes>)
    ensures StrictlySorted(ordered)
    ensures Members(ordered) == m.Keys
  {
    hide KeyLess;
    ordered := [];
    var left := m.Keys;
    while left != {}
      invariant left <= m.Keys && StrictlySorted(ordered)
      invariant Members(ordered) == m.Keys - left
    {
      var k :| k in left;
      assert k !in Members(ordered);
      var i := 0;
      while i < |ordered| && KeyLess(ordered[i], k)
        invariant 0 <= i <= |ordered|
        invariant forall j | 0 <= j < i :: KeyLess(ordered[j], k)
      {
        i := i + 1;
      }
      InsertSorted(ordered, i, k);
      ordered := ordered[..i] + [k] + ordered[i..];
      left := left - {k};
      assert Members(ordered) == m.Keys - left;
    }
  }

  lemma InsertSorted(keys: seq<bytes>, at: nat, k: bytes)
    requires StrictlySorted(keys) && k !in keys && at <= |keys|
    requires forall j | 0 <= j < at :: KeyLess(keys[j], k)
    requires at < |keys| ==> !KeyLess(keys[at], k)
    ensures StrictlySorted(keys[..at] + [k] + keys[at..])
    ensures Members(keys[..at] + [k] + keys[at..]) == Members(keys) + {k}
  {
    hide KeyLess;
    forall j | at <= j < |keys| ensures KeyLess(k, keys[j]) {
      KeyOrderIsTotal(k, keys[at]);
      assert keys[at] in keys;
      if j > at {
        KeyOrderIsTransitive(k, keys[at], keys[j]);
      }
    }
    assert keys == keys[..at] + keys[at..];
  }
}
