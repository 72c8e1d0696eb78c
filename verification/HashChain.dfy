/** The material a photon's hash covers, the integrity check of a window, and what a tail hash commits to. */
module HashChain {
  import opened Basics
  import opened Bytes
  import opened CborValue
  import CborCodec
  import CborTheorems
  import CborMachine

  datatype Photon = Photon(
    sequence: uint64, id: bytes, ray: bytes, parent: Option<bytes>, kind: bytes, schema: bytes, payload: Value,
    epoch: uint64, committedAt: int64, previousHash: bytes, hash: bytes, causedByAct: bytes)

  predicate NulFree(b: bytes) { 0 !in b }

  // ----- decimal numbers -----

  function Decimal(n: nat): (b: bytes)
    ensures b != [] && forall i | 0 <= i < |b| :: 48 <= b[i] <= 57
  {
    (if n < 10 then [] else Decimal(n / 10)) + [48 + n % 10]
  }

  function SignedDecimal(i: int): (b: bytes)
    ensures NulFree(b)
  {
    if i < 0 then [45] + Decimal(-i) else Decimal(i)
  }

  lemma {:induction false} DecimalInjective(m: nat, n: nat)
    requires Decimal(m) == Decimal(n)
    ensures m == n
    decreases m
  {
    var a, b := Decimal(m), Decimal(n);
    assert a[|a| - 1] == b[|b| - 1];
    if m >= 10 && n >= 10 {
      assert a[..|a| - 1] == Decimal(m / 10) && b[..|b| - 1] == Decimal(n / 10);
      DecimalInjective(m / 10, n / 10);
    }
  }

  lemma SignedDecimalInjective(i: int, j: int)
    requires SignedDecimal(i) == SignedDecimal(j)
    ensures i == j
  {
    hide Decimal;
    assert SignedDecimal(i)[0] == SignedDecimal(j)[0];
    if i < 0 && j < 0 {
      assert SignedDecimal(i)[1..] == Decimal(-i) && SignedDecimal(j)[1..] == Decimal(-j);
      DecimalInjective(-i, -j);
    } else if i >= 0 && j >= 0 {
      DecimalInjective(i, j);
    }
  }

  // ----- fields that end in a NUL -----

  function Fields(xs: seq<bytes>): bytes {
    if xs == [] then [] else xs[0] + [0] + Fields(xs[1..])
  }

  ghost predicate AllNulFree(xs: seq<bytes>) {
    forall i | 0 <= i < |xs| :: NulFree(xs[i])
  }

  lemma {:induction false} FieldsSnoc(xs: seq<bytes>, x: bytes)
    ensures Fields(xs + [x]) == Fields(xs) + x + [0]
  {
    if xs != [] {
      assert (xs + [x])[1..] == xs[1..] + [x];
      FieldsSnoc(xs[1..], x);
    } else {
      assert [x][1..] == [];
    }
  }

  lemma FirstFieldIsUnique(a: bytes, b: bytes, r: bytes, s: bytes)
    requires NulFree(a) && NulFree(b) && a + [0] + r == b + [0] + s
    ensures a == b && r == s
  {
    var t := a + [0] + r;
    assert t[|a|] == 0 && t[|b|] == 0;
    assert forall k | 0 <= k < |a| :: a[k] == t[k];
    assert forall k | 0 <= k < |b| :: b[k] == t[k];
    assert a == t[..|a|] && b == t[..|b|];
    assert r == t[|a| + 1..] && s == t[|b| + 1..];
  }

  lemma {:induction false} FieldsAreUnique(xs: seq<bytes>, ys: seq<bytes>, r: bytes, s: bytes)
    requires |xs| == |ys| && AllNulFree(xs) && AllNulFree(ys) && Fields(xs) + r == Fields(ys) + s
    ensures xs == ys && r == s
  {
    if xs != [] {
      var r', s' := Fields(xs[1..]) + r, Fields(ys[1..]) + s;
      assert Fields(xs) + r == xs[0] + [0] + r' && Fields(ys) + s == ys[0] + [0] + s';
      FirstFieldIsUnique(xs[0], ys[0], r', s');
      FieldsAreUnique(xs[1..], ys[1..], r, s);
      assert xs == [xs[0]] + xs[1..] && ys == [ys[0]] + ys[1..];
    } else {
      assert Fields(xs) + r == r && Fields(ys) + s == s;
    }
  }

  // ----- the material -----

  function ParentText(p: Photon): bytes {
    if p.parent.None? then [] else p.parent.value
  }

  function Head(p: Photon): seq<bytes> {
    [p.previousHash, Decimal(p.sequence), p.id, p.ray, ParentText(p), p.kind, p.schema]
  }

  function Tail(p: Photon): seq<bytes> {
    [SignedDecimal(p.epoch), SignedDecimal(p.committedAt)]
  }

  /** What is hashed: the fields around an encoded payload that may itself hold NULs. */
  ghost function Material(p: Photon): bytes
    requires Representable(p.payload)
  {
    Fields(Head(p)) + CborCodec.Encode(p.payload) + [0] + Fields(Tail(p)) + p.causedByAct
  }

  method HashMaterial(photon: Photon) returns (value: bytes)
    requires Representable(photon.payload)
    ensures value == Material(photon)
  {
    hide CborCodec.Encode;
    hide Fields;
    hide Decimal;
    hide SignedDecimal;
    var encoder := new CborMachine.Encoder();
    encoder.EncodeValue(photon.payload);
    var encoded := encoder.output;
    assert encoded == CborCodec.Encode(photon.payload);
    value := AppendFields([], Head(photon));
    value := value + encoded;
    value := value + [0];
    ghost var front := value;
    value := AppendFields(value, Tail(photon));
    value := value + photon.causedByAct;
    assert [] + Fields(Head(photon)) == Fields(Head(photon));
  }

  /** `append` and `push_back('\0')`, field by field. */
  method AppendFields(start: bytes, fields: seq<bytes>) returns (value: bytes)
    ensures value == start + Fields(fields)
  {
    value := start;
    for i := 0 to |fields|
      invariant value == start + Fields(fields[..i])
    {
      FieldsSnoc(fields[..i], fields[i]);
      assert fields[..i + 1] == fields[..i] + [fields[i]];
      value := value + fields[i];
      value := value + [0];
    }
    assert fields[..|fields|] == fields;
  }

  /** The text fields between which a NUL can move a boundary. */
  predicate NulInIdentity(p: Photon) {
    !NulFree(p.id) || !NulFree(p.ray) || !NulFree(ParentText(p)) || !NulFree(p.kind) || !NulFree(p.schema)
  }

  /** Behind a NUL in `x` stands a number, up to the end or the next NUL. */
  predicate NumberBehindNul(x: bytes, a: bytes, n: uint64, rest: bytes) {
    x == a + [0] + Decimal(n) + rest && (rest == [] || rest[0] == 0)
  }

  ghost predicate NumberInPrevious(p: Photon) {
    exists a, n, rest :: NumberBehindNul(p.previousHash, a, n, rest)
  }

  /** The fields can be read in another way; the payload and the causing act play no part in it. */
  ghost predicate Ambiguous(p: Photon) {
    NulInIdentity(p) || NumberInPrevious(p)
  }

  ghost predicate Clean(p: Photon) {
    Representable(p.payload) && !Ambiguous(p)
  }

  /** The photons differ at most in their own hash and in an absent or empty parent. */
  predicate SameContent(p: Photon, q: Photon) {
    p.(hash := [], parent := None) == q.(hash := [], parent := None) && ParentText(p) == ParentText(q)
  }

  /** Photons that are not ambiguous have the same material exactly when they have the same content. */
  lemma MaterialIsInjective(p: Photon, q: Photon)
    requires Clean(p) && Clean(q)
    ensures Material(p) == Material(q) <==> SameContent(p, q)
  {
    hide CborCodec.Encode;
    hide Representable;
    hide Decimal;
    hide Fields;
    hide NumberInPrevious;
    if Material(p) == Material(q) {
      MaterialIsHeadAndRest(p);
      MaterialIsHeadAndRest(q);
      SamePrevious(p, q);
      var x, y := Fields(Later(p)) + Rest(p), Fields(Later(q)) + Rest(q);
      assert p.previousHash + [0] + x == q.previousHash + [0] + y;
      assert x == (p.previousHash + [0] + x)[|p.previousHash| + 1..];
      assert y == (q.previousHash + [0] + y)[|q.previousHash| + 1..];
      LaterIsClean(p);
      LaterIsClean(q);
      FieldsAreUnique(Later(p), Later(q), Rest(p), Rest(q));
      SameLater(p, q);
      RestIsInjective(p, q);
    }
  }

  /** The fields between the previous hash and the payload. */
  function Later(p: Photon): seq<bytes> {
    [Decimal(p.sequence), p.id, p.ray, ParentText(p), p.kind, p.schema]
  }

  lemma MaterialIsHeadAndRest(p: Photon)
    requires Representable(p.payload)
    ensures Material(p) == p.previousHash + [0] + (Fields(Later(p)) + Rest(p))
  {
    hide CborCodec.Encode;
    hide Representable;
    hide Decimal;
    assert Head(p)[1..] == Later(p);
    assert Fields(Head(p)) == p.previousHash + [0] + Fields(Later(p));
    hide Fields;
    assert Material(p) == Fields(Head(p)) + Rest(p);
  }

  lemma LaterIsClean(p: Photon)
    requires !NulInIdentity(p)
    ensures AllNulFree(Later(p)) && AllNulFree(Tail(p))
  {
    assert NulFree(Decimal(p.sequence));
  }

  /**
   * Where one previous hash is shorter, the sequence of its photon is a number behind a NUL inside the longer one.
   */
  lemma SamePrevious(p: Photon, q: Photon)
    requires Clean(p) && Clean(q) && Material(p) == Material(q)
    ensures p.previousHash == q.previousHash
  {
    hide CborCodec.Encode;
    hide Representable;
    hide Fields;
    hide Material;
    hide Decimal;
    MaterialIsHeadAndRest(p);
    MaterialIsHeadAndRest(q);
    var a, b := p.previousHash, q.previousHash;
    var x, y := Fields(Later(p)) + Rest(p), Fields(Later(q)) + Rest(q);
    if |a| < |b| {
      NumberFollows(p, a, x, b, y);
      assert false;
    } else if |b| < |a| {
      NumberFollows(q, b, y, a, x);
      assert false;
    } else {
      assert a == (a + [0] + x)[..|a|] && b == (b + [0] + y)[..|b|];
    }
  }

  lemma NumberFollows(p: Photon, a: bytes, x: bytes, b: bytes, y: bytes)
    requires Representable(p.payload) && x == Fields(Later(p)) + Rest(p)
    requires |a| < |b| && a + [0] + x == b + [0] + y
    ensures exists n, rest :: NumberBehindNul(b, a, n, rest)
  {
    hide CborCodec.Encode;
    hide Representable;
    hide Decimal;
    var number := Decimal(p.sequence);
    assert Fields(Later(p)) == number + [0] + Fields(Later(p)[1..]);
    hide Fields;
    var v := Fields(Later(p)[1..]) + Rest(p);
    assert x == number + [0] + v;
    assert x == number + [0] + v by {
      assert number + [0] + Fields(Later(p)[1..]) + Rest(p) == number + [0] + v;
    }
    ShorterStart(a, x, b, y);
    var u := b[|a| + 1..];
    FieldLeads(number, v, u, y);
    assert a + [0] + number + u[|number|..] == a + [0] + u;
    assert NumberBehindNul(b, a, p.sequence, u[|number|..]);
  }

  lemma ShorterStart(a: bytes, x: bytes, b: bytes, y: bytes)
    requires |a| < |b| && a + [0] + x == b + [0] + y
    ensures b == a + [0] + b[|a| + 1..] && x == b[|a| + 1..] + [0] + y
  {
    var t, s := a + [0] + x, b + [0] + y;
    var u := b[|a| + 1..];
    assert forall k | 0 <= k < |b| :: s[k] == b[k];
    assert forall k | 0 <= k < |a| :: t[k] == a[k];
    assert t[|a|] == 0;
    assert x == t[|a| + 1..];
    assert u + [0] + y == s[|a| + 1..];
  }

  /** A field without NULs that starts a text which `u` and a NUL start too is a first part of `u`. */
  lemma FieldLeads(number: bytes, v: bytes, u: bytes, y: bytes)
    requires NulFree(number) && number + [0] + v == u + [0] + y
    ensures |number| <= |u| && number == u[..|number|] && (|number| < |u| ==> u[|number|] == 0)
  {
    var t := number + [0] + v;
    assert t[|u|] == 0 && t[|number|] == 0;
    assert forall k | 0 <= k < |number| :: t[k] == number[k];
    assert forall k | 0 <= k < |u| :: t[k] == u[k];
  }

  ghost function Rest(p: Photon): bytes
    requires Representable(p.payload)
  {
    CborCodec.Encode(p.payload) + ([0] + (Fields(Tail(p)) + p.causedByAct))
  }

  lemma SameLater(p: Photon, q: Photon)
    requires Later(p) == Later(q)
    ensures p.sequence == q.sequence && p.id == q.id && p.ray == q.ray
    ensures ParentText(p) == ParentText(q) && p.kind == q.kind && p.schema == q.schema
  {
    hide Decimal;
    var a, b := Later(p), Later(q);
    assert a[0] == b[0] && a[1] == b[1] && a[2] == b[2] && a[3] == b[3] && a[4] == b[4] && a[5] == b[5];
    DecimalInjective(p.sequence, q.sequence);
  }

  /** The payload is found by its own structure, whatever bytes it holds. */
  lemma RestIsInjective(p: Photon, q: Photon)
    requires Clean(p) && Clean(q) && Rest(p) == Rest(q)
    ensures p.payload == q.payload && p.epoch == q.epoch && p.committedAt == q.committedAt
    ensures p.causedByAct == q.causedByAct
  {
    hide CborCodec.Encode;
    hide Representable;
    hide Fields;
    hide SignedDecimal;
    var x, y := Fields(Tail(p)) + p.causedByAct, Fields(Tail(q)) + q.causedByAct;
    CborTheorems.EncodingIsPrefixFree(p.payload, q.payload, [0] + x, [0] + y);
    assert ([0] + x)[1..] == x && ([0] + y)[1..] == y;
    LaterIsClean(p);
    LaterIsClean(q);
    FieldsAreUnique(Tail(p), Tail(q), p.causedByAct, q.causedByAct);
    assert Tail(p)[0] == Tail(q)[0] && Tail(p)[1] == Tail(q)[1];
    SignedDecimalInjective(p.epoch, q.epoch);
    SignedDecimalInjective(p.committedAt, q.committedAt);
  }

  /** Every photon with a NUL in one of these fields shares its material with a different photon. */
  lemma NulBreaksInjectivity(p: Photon) returns (q: Photon)
    requires Representable(p.payload) && NulInIdentity(p)
    ensures q.payload == p.payload && Material(q) == Material(p)
    ensures q.id != p.id || q.ray != p.ray || ParentText(q) != ParentText(p) || q.kind != p.kind
  {
    hide Decimal;
    hide CborCodec.Encode;
    hide Fields;
    var front := [p.previousHash, Decimal(p.sequence)];
    if !NulFree(p.id) {
      var a, b := SplitAtNul(p.id);
      q := p.(id := a, ray := b + [0] + p.ray);
      var back := [ParentText(p), p.kind, p.schema];
      BoundaryMoves(front, a, b, p.ray, back);
      assert Head(p) == front + [p.id, p.ray] + back && Head(q) == front + [q.id, q.ray] + back;
    } else if !NulFree(p.ray) {
      var a, b := SplitAtNul(p.ray);
      q := p.(ray := a, parent := Some(b + [0] + ParentText(p)));
      var back := [p.kind, p.schema];
      BoundaryMoves(front + [p.id], a, b, ParentText(p), back);
      assert Head(p) == front + [p.id] + [p.ray, ParentText(p)] + back;
      assert Head(q) == front + [p.id] + [q.ray, ParentText(q)] + back;
    } else if !NulFree(ParentText(p)) {
      var a, b := SplitAtNul(ParentText(p));
      q := p.(parent := Some(a), kind := b + [0] + p.kind);
      BoundaryMoves(front + [p.id, p.ray], a, b, p.kind, [p.schema]);
      assert Head(p) == front + [p.id, p.ray] + [ParentText(p), p.kind] + [p.schema];
      assert Head(q) == front + [p.id, p.ray] + [ParentText(q), q.kind] + [p.schema];
    } else {
      front := front + [p.id, p.ray, ParentText(p)];
      assert Head(p) == front + [p.kind, p.schema] + [];
      if !NulFree(p.kind) {
        var a, b := SplitAtNul(p.kind);
        q := p.(kind := a, schema := b + [0] + p.schema);
        BoundaryMoves(front, a, b, p.schema, []);
      } else {
        var a, b := SplitAtNul(p.schema);
        q := p.(kind := p.kind + [0] + a, schema := b);
        BoundaryMoves(front, p.kind, a, b, []);
      }
      assert Head(q) == front + [q.kind, q.schema] + [];
    }
    assert Fields(Head(p)) == Fields(Head(q));
  }

  /**
   * A NUL in the previous hash with a number behind it does the same: the number can be read as the sequence, and
   * every later field as the one after it.
   */
  lemma NumberBreaksInjectivity(p: Photon, a: bytes, n: uint64, rest: bytes) returns (q: Photon)
    requires Representable(p.payload) && NumberBehindNul(p.previousHash, a, n, rest)
    ensures q.payload == p.payload && Material(q) == Material(p)
    ensures q.previousHash == a && q.sequence == n && q.previousHash != p.previousHash
  {
    hide CborCodec.Encode;
    hide Fields;
    hide Decimal;
    var number, own := Decimal(n), Decimal(p.sequence);
    q := p.(previousHash := a, sequence := n, ray := p.id, parent := Some(p.ray), kind := ParentText(p),
            schema := p.kind + [0] + p.schema);
    var later := [p.id, p.ray, ParentText(p), p.kind, p.schema];
    var init := [p.id, p.ray, ParentText(p)];
    if rest == [] {
      q := q.(id := own);
      assert p.previousHash == a + [0] + number;
      FieldSplits([], a, number, [own] + later);
      assert Head(p) == [] + [a + [0] + number] + ([own] + later);
      FieldSplits([a, number, own] + init, p.kind, p.schema, []);
      assert Head(q) == [a, number, own] + init + [p.kind + [0] + p.schema] + [];
      assert [] + [a, number] + ([own] + later) == [a, number, own] + init + [p.kind, p.schema] + [];
    } else {
      var r := rest[1..];
      q := q.(id := r + [0] + own);
      assert p.previousHash == a + [0] + (number + [0] + r);
      FieldSplits([], a, number + [0] + r, [own] + later);
      assert Head(p) == [] + [a + [0] + (number + [0] + r)] + ([own] + later);
      assert [] + [a, number + [0] + r] + ([own] + later) == [a] + [number + [0] + r] + ([own] + later);
      FieldSplits([a], number, r, [own] + later);
      FieldSplits([a, number], r, own, init + [p.kind + [0] + p.schema]);
      assert Head(q) == [a, number] + [r + [0] + own] + (init + [p.kind + [0] + p.schema]);
      FieldSplits([a, number, r, own] + init, p.kind, p.schema, []);
      assert [a, number] + [r, own] + (init + [p.kind + [0] + p.schema])
          == [a, number, r, own] + init + [p.kind + [0] + p.schema] + [];
      assert [a] + [number, r] + ([own] + later) == [a, number, r, own] + init + [p.kind, p.schema] + [];
    }
  }

  /** Every ambiguous photon shares its material with a photon of other content: the condition is exact. */
  lemma AmbiguousCollides(p: Photon) returns (q: Photon)
    requires Representable(p.payload) && Ambiguous(p)
    ensures Representable(q.payload) && Material(q) == Material(p) && !SameContent(p, q)
  {
    hide Material;
    hide Representable;
    hide NumberBehindNul;
    if NulInIdentity(p) {
      q := NulBreaksInjectivity(p);
    } else {
      var a, n, rest :| NumberBehindNul(p.previousHash, a, n, rest);
      q := NumberBreaksInjectivity(p, a, n, rest);
    }
  }

  /** A field with a NUL in it is written as two fields are. */
  lemma FieldSplits(xs: seq<bytes>, a: bytes, b: bytes, ys: seq<bytes>)
    ensures Fields(xs + [a + [0] + b] + ys) == Fields(xs + [a, b] + ys)
  {
    hide Fields;
    var x := a + [0] + b;
    FieldsAppend(xs + [x], ys);
    FieldsSnoc(xs, x);
    FieldsAppend(xs + [a, b], ys);
    FieldsAppend(xs, [a, b]);
    TwoFields(a, b);
    assert Fields(xs) + x + [0] == Fields(xs) + (a + [0] + b + [0]);
  }

  lemma SplitAtNul(x: bytes) returns (a: bytes, b: bytes)
    requires !NulFree(x)
    ensures x == a + [0] + b && a != x
  {
    var i :| 0 <= i < |x| && x[i] == 0;
    a, b := x[..i], x[i + 1..];
  }

  /** A NUL inside a field and the NUL that ends it can change places. */
  lemma BoundaryMoves(xs: seq<bytes>, a: bytes, b: bytes, c: bytes, ys: seq<bytes>)
    ensures Fields(xs + [a + [0] + b, c] + ys) == Fields(xs + [a, b + [0] + c] + ys)
  {
    hide Fields;
    var x, y := a + [0] + b, b + [0] + c;
    FieldsAppend(xs + [x, c], ys);
    FieldsAppend(xs, [x, c]);
    FieldsAppend(xs + [a, y], ys);
    FieldsAppend(xs, [a, y]);
    TwoFields(x, c);
    TwoFields(a, y);
    assert x + [0] + c + [0] == a + [0] + y + [0];
  }

  lemma {:induction false} FieldsAppend(xs: seq<bytes>, ys: seq<bytes>)
    ensures Fields(xs + ys) == Fields(xs) + Fields(ys)
  {
    if xs == [] {
      assert xs + ys == ys;
    } else {
      assert (xs + ys)[1..] == xs[1..] + ys;
      FieldsAppend(xs[1..], ys);
    }
  }

  lemma TwoFields(a: bytes, b: bytes)
    ensures Fields([a, b]) == a + [0] + b + [0]
  {
    FieldsSnoc([], a);
    FieldsSnoc([a], b);
    assert [] + [a] == [a] && [a] + [b] == [a, b];
    assert [] + a + [0] == a + [0];
  }

  // ----- a window -----

  datatype Code =
    | SequenceGapOrReuse | PreviousHashMismatch | ContentHashMismatch | DuplicateOrEmptyId
    | SchemaOrIdentityMissing | InvalidParent | UnknownCausingAct

  datatype Violation = Violation(sequence: uint64, photon: bytes, code: Code)

  const ACT: bytes := [97, 99, 116, 46]

  predicate IsAct(p: Photon) { ACT <= p.kind }

  ghost predicate Readable(w: seq<Photon>) {
    forall i | 0 <= i < |w| :: Representable(w[i].payload)
  }

  /** The codes a photon earns after `before`. */
  ghost function CodesAt(before: seq<Photon>, p: Photon, hash: bytes -> bytes): seq<Code>
    requires Representable(p.payload)
  {
    var previous := if before == [] then None else Some(before[|before| - 1]);
    When(previous.Some? && p.sequence != (previous.value.sequence + 1) % 0x1_0000_0000_0000_0000, SequenceGapOrReuse)
    + When(previous.Some? && p.previousHash != previous.value.hash, PreviousHashMismatch)
    + When(|p.hash| != 64 || p.hash != hash(Material(p)), ContentHashMismatch)
    + When(p.id == [] || p.id in IdsOf(before), DuplicateOrEmptyId)
    + When(p.ray == [] || p.kind == [] || p.schema == [], SchemaOrIdentityMissing)
    + When(p.parent.Some? && p.parent.value !in IdsOf(before + [p]), InvalidParent)
    + When(p.causedByAct != [] && !IsAct(p) && p.causedByAct !in ActsOf(before), UnknownCausingAct)
  }

  function When(condition: bool, code: Code): seq<Code> {
    if condition then [code] else []
  }

  ghost function IdsOf(w: seq<Photon>): set<bytes> {
    set i | 0 <= i < |w| && w[i].id != [] :: w[i].id
  }

  ghost function ActsOf(w: seq<Photon>): set<bytes> {
    set i | 0 <= i < |w| && IsAct(w[i]) && w[i].causedByAct != [] :: w[i].causedByAct
  }

  function Tagged(p: Photon, codes: seq<Code>): seq<Violation> {
    if codes == [] then [] else [Violation(p.sequence, p.id, codes[0])] + Tagged(p, codes[1..])
  }

  ghost function Violations(w: seq<Photon>, hash: bytes -> bytes): seq<Violation>
    requires Readable(w)
  {
    if w == [] then []
    else
      var n := |w| - 1;
      Violations(w[..n], hash) + Tagged(w[n], CodesAt(w[..n], w[n], hash))
  }

  /** The check over a window; `hash` stands for the SHA-256 of the repository. */
  method VerifyWindow(w: seq<Photon>, hash: bytes -> bytes) returns (violations: seq<Violation>)
    requires Readable(w)
    ensures violations == Violations(w, hash)
    ensures violations == [] <==> Sound(w, hash)
  {
    hide Representable;
    hide CodesAt;
    violations := [];
    var ids: set<bytes> := {};
    var acts: set<bytes> := {};
    for i := 0 to |w|
      invariant violations == Violations(w[..i], hash)
      invariant ids == IdsOf(w[..i]) && acts == ActsOf(w[..i])
    {
      var p := w[i];
      var codes;
      assert w[..i + 1] == w[..i] + [p];
      codes := Inspect(w, i, ids, acts, hash);
      GrowIds(w[..i], p);
      if p.id != [] { ids := ids + {p.id}; }
      if IsAct(p) && p.causedByAct != [] { acts := acts + {p.causedByAct}; }
      assert w[..i + 1][..i] == w[..i];
      violations := violations + Tagged(p, codes);
    }
    assert w[..|w|] == w;
    NoViolationsIffSound(w, hash);
  }

  method Inspect(w: seq<Photon>, i: nat, ids: set<bytes>, acts: set<bytes>, hash: bytes -> bytes)
      returns (codes: seq<Code>)
    requires i < |w| && Representable(w[i].payload) && ids == IdsOf(w[..i]) && acts == ActsOf(w[..i])
    ensures codes == CodesAt(w[..i], w[i], hash)
  {
    hide Representable;
    hide Material;
    hide When;
    hide IdsOf;
    hide ActsOf;
    var p := w[i];
    var hasPrevious := i > 0;
    codes := When(hasPrevious && p.sequence != (w[i - 1].sequence + 1) % 0x1_0000_0000_0000_0000, SequenceGapOrReuse);
    codes := codes + When(hasPrevious && p.previousHash != w[i - 1].hash, PreviousHashMismatch);
    var material := HashMaterial(p);
    codes := codes + When(|p.hash| != 64 || p.hash != hash(material), ContentHashMismatch);
    codes := codes + When(p.id == [] || p.id in ids, DuplicateOrEmptyId);
    codes := codes + When(p.ray == [] || p.kind == [] || p.schema == [], SchemaOrIdentityMissing);
    GrowIds(w[..i], p);
    var known := if p.id == [] then ids else ids + {p.id};
    codes := codes + When(p.parent.Some? && p.parent.value !in known, InvalidParent);
    codes := codes + When(p.causedByAct != [] && !IsAct(p) && p.causedByAct !in acts, UnknownCausingAct);
  }

  lemma GrowIds(w: seq<Photon>, p: Photon)
    ensures IdsOf(w + [p]) == IdsOf(w) + if p.id == [] then {} else {p.id}
    ensures ActsOf(w + [p]) == ActsOf(w) + if IsAct(p) && p.causedByAct != [] then {p.causedByAct} else {}
  {
    var all := w + [p];
    forall x ensures x in IdsOf(all) <==> x in IdsOf(w) || (p.id != [] && x == p.id) {
      if x in IdsOf(w) {
        var i :| 0 <= i < |w| && w[i].id != [] && w[i].id == x;
        assert all[i].id == x;
      }
      if p.id != [] && x == p.id { assert all[|w|].id == x; }
    }
    forall x ensures x in ActsOf(all) <==> x in ActsOf(w) || (IsAct(p) && p.causedByAct != [] && x == p.causedByAct) {
      if x in ActsOf(w) {
        var i :| 0 <= i < |w| && IsAct(w[i]) && w[i].causedByAct != [] && w[i].causedByAct == x;
        assert all[i] == w[i];
      }
      if IsAct(p) && p.causedByAct != [] && x == p.causedByAct { assert all[|w|] == p; }
    }
  }

  /** What a window without violations is. */
  ghost predicate Sound(w: seq<Photon>, hash: bytes -> bytes)
    requires Readable(w)
  {
    forall i | 0 <= i < |w| :: SoundAt(w, i, hash)
  }

  ghost predicate SoundAt(w: seq<Photon>, i: nat, hash: bytes -> bytes)
    requires i < |w| && Representable(w[i].payload)
  {
    && (i > 0 ==> w[i].sequence == (w[i - 1].sequence + 1) % 0x1_0000_0000_0000_0000
                  && w[i].previousHash == w[i - 1].hash)
    && |w[i].hash| == 64 && w[i].hash == hash(Material(w[i]))
    && w[i].id != [] && (forall j | 0 <= j < i :: w[j].id != w[i].id)
    && w[i].ray != [] && w[i].kind != [] && w[i].schema != []
    && (w[i].parent.Some? ==> w[i].parent.value != [] && exists j | 0 <= j <= i :: w[j].id == w[i].parent.value)
    && (w[i].causedByAct != [] && !IsAct(w[i]) ==>
          exists j | 0 <= j < i :: IsAct(w[j]) && w[j].causedByAct == w[i].causedByAct)
  }

  lemma CodesIffSound(w: seq<Photon>, i: nat, hash: bytes -> bytes)
    requires i < |w| && Representable(w[i].payload)
    ensures CodesAt(w[..i], w[i], hash) == [] <==> SoundAt(w, i, hash)
  {
    hide Representable;
    hide Material;
    assert w[..i] + [w[i]] == w[..i + 1];
    IdsAre(w, i, w[i].id);
    if w[i].parent.Some? { IdsAre(w, i + 1, w[i].parent.value); }
    ActsAre(w, i, w[i].causedByAct);
  }

  lemma IdsAre(w: seq<Photon>, n: nat, id: bytes)
    requires n <= |w|
    ensures id in IdsOf(w[..n]) <==> id != [] && exists j | 0 <= j < n :: w[j].id == id
  {
    if id != [] && exists j | 0 <= j < n :: w[j].id == id {
      var j :| 0 <= j < n && w[j].id == id;
      assert w[..n][j].id == id;
    }
  }

  lemma ActsAre(w: seq<Photon>, n: nat, act: bytes)
    requires n <= |w|
    ensures act in ActsOf(w[..n]) <==> act != [] && exists j | 0 <= j < n :: IsAct(w[j]) && w[j].causedByAct == act
  {
    if act != [] && exists j | 0 <= j < n :: IsAct(w[j]) && w[j].causedByAct == act {
      var j :| 0 <= j < n && IsAct(w[j]) && w[j].causedByAct == act;
      assert w[..n][j] == w[j];
    }
  }

  lemma {:induction false} NoViolationsIffSound(w: seq<Photon>, hash: bytes -> bytes)
    requires Readable(w)
    ensures Violations(w, hash) == [] <==> Sound(w, hash)
  {
    hide Representable;
    hide CodesAt;
    if w != [] {
      var n := |w| - 1;
      NoViolationsIffSound(w[..n], hash);
      CodesIffSound(w, n, hash);
      forall i | 0 <= i < n ensures SoundAt(w, i, hash) <==> SoundAt(w[..n], i, hash) {
        SoundInPrefix(w, n, i, hash);
      }
    }
  }

  lemma SoundInPrefix(w: seq<Photon>, n: nat, i: nat, hash: bytes -> bytes)
    requires i < n <= |w| && Representable(w[i].payload)
    ensures SoundAt(w, i, hash) <==> SoundAt(w[..n], i, hash)
  {
    hide Representable;
    hide Material;
    var v := w[..n];
    assert forall j | 0 <= j < n :: v[j] == w[j];
  }

  // ----- the tail hash commits to the history -----

  ghost predicate CleanWindow(w: seq<Photon>) {
    forall i | 0 <= i < |w| :: Clean(w[i])
  }

  /** The hash tells the materials of the two windows apart. */
  ghost predicate NoCollision(a: seq<Photon>, b: seq<Photon>, hash: bytes -> bytes)
    requires Readable(a) && Readable(b)
  {
    forall i, j | 0 <= i < |a| && 0 <= j < |b| ::
      hash(Material(a[i])) == hash(Material(b[j])) ==> Material(a[i]) == Material(b[j])
  }

  lemma SameHashSamePhoton(a: seq<Photon>, i: nat, b: seq<Photon>, j: nat, hash: bytes -> bytes)
    requires i < |a| && j < |b| && Clean(a[i]) && Clean(b[j])
    requires SoundAt(a, i, hash) && SoundAt(b, j, hash) && a[i].hash == b[j].hash
    requires hash(Material(a[i])) == hash(Material(b[j])) ==> Material(a[i]) == Material(b[j])
    ensures a[i] == b[j]
  {
    hide Material;
    hide Representable;
    MaterialIsInjective(a[i], b[j]);
  }

  /** Of two windows without violations and with the same tail hash, the shorter is a suffix of the longer. */
  lemma {:induction false} SharedTailMeansSuffix(a: seq<Photon>, b: seq<Photon>, hash: bytes -> bytes)
    requires CleanWindow(a) && CleanWindow(b) && Readable(a) && Readable(b)
    requires Sound(a, hash) && Sound(b, hash) && NoCollision(a, b, hash)
    requires 0 < |a| <= |b| && a[|a| - 1].hash == b[|b| - 1].hash
    ensures a == b[|b| - |a|..]
    decreases |a|
  {
    hide Material;
    hide Clean;
    hide Representable;
    var m, n := |a| - 1, |b| - 1;
    SameHashSamePhoton(a, m, b, n, hash);
    if m > 0 {
      var c, d := a[..m], b[..n];
      assert SoundAt(a, m, hash) && SoundAt(b, n, hash);
      forall i | 0 <= i < m ensures SoundAt(c, i, hash) { SoundInPrefix(a, m, i, hash); }
      forall i | 0 <= i < n ensures SoundAt(d, i, hash) { SoundInPrefix(b, n, i, hash); }
      SharedTailMeansSuffix(c, d, hash);
      assert a == c + [a[m]] && b == d + [b[n]];
    }
  }
}
