/** The bytes a photon's hash covers, and which violation is reported for what. */
module HashBytes {
  import opened Basics
  import opened Bytes
  import opened CborValue
  import CborCodec
  import opened HashChain

  // ----- numbers in decimal -----

  /** What decimal digits denote. */
  function NumberOf(digits: bytes): int {
    if digits == [] then 0 else 10 * NumberOf(digits[..|digits| - 1]) + (digits[|digits| - 1] as int - 48)
  }

  /** A number is written in digits that denote it, without a leading zero. */
  lemma {:induction false} DecimalDenotes(n: nat)
    ensures NumberOf(Decimal(n)) == n && (|Decimal(n)| > 1 ==> Decimal(n)[0] != 48)
  {
    if n >= 10 {
      DecimalDenotes(n / 10);
      assert Decimal(n)[..|Decimal(n)| - 1] == Decimal(n / 10);
      if |Decimal(n / 10)| == 1 {
        assert NumberOf(Decimal(n / 10)) == Decimal(n / 10)[0] - 48 by {
          assert Decimal(n / 10)[..0] == [];
        }
      }
    } else {
      assert Decimal(n) == [48 + n] && [48 + n][..0] == [];
    }
  }

  // ----- the order of the fields -----

  /** A field ended by a NUL, and what follows it. */
  function Ended(field: bytes, rest: bytes): bytes {
    field + [0] + rest
  }

  lemma OneField(field: bytes, xs: seq<bytes>, rest: bytes)
    ensures Fields([field] + xs) + rest == Ended(field, Fields(xs) + rest)
  {
    assert ([field] + xs)[1..] == xs;
  }

  lemma TwoEnded(a: bytes, b: bytes, rest: bytes)
    ensures Fields([a, b]) + rest == Ended(a, Ended(b, rest))
  {
    hide Fields, Ended;
    OneField(a, [b], rest);
    OneField(b, [], rest);
    NoField(rest);
    assert [a] + [b] == [a, b] && [b] + [] == [b];
  }

  lemma NoField(rest: bytes)
    ensures Fields([]) + rest == rest
  {
  }

  lemma SevenEnded(a: bytes, b: bytes, c: bytes, d: bytes, e: bytes, f: bytes, g: bytes, rest: bytes)
    ensures Fields([a, b, c, d, e, f, g]) + rest
      == Ended(a, Ended(b, Ended(c, Ended(d, Ended(e, Ended(f, Ended(g, rest)))))))
  {
    hide Fields, Ended;
    OneField(a, [b, c, d, e, f, g], rest);
    OneField(b, [c, d, e, f, g], rest);
    OneField(c, [d, e, f, g], rest);
    OneField(d, [e, f, g], rest);
    OneField(e, [f, g], rest);
    TwoEnded(f, g, rest);
    assert [a] + [b, c, d, e, f, g] == [a, b, c, d, e, f, g] && [b] + [c, d, e, f, g] == [b, c, d, e, f, g];
    assert [c] + [d, e, f, g] == [c, d, e, f, g] && [d] + [e, f, g] == [d, e, f, g] && [e] + [f, g] == [e, f, g];
  }

  /** The material: previous hash, sequence, id, ray, parent, kind, schema, payload, epoch, time, and the cause. */
  lemma MaterialByFields(p: Photon)
    requires Representable(p.payload)
    ensures Material(p) ==
      Ended(p.previousHash, Ended(Decimal(p.sequence), Ended(p.id, Ended(p.ray, Ended(ParentText(p),
      Ended(p.kind, Ended(p.schema, Ended(CborCodec.Encode(p.payload),
      Ended(SignedDecimal(p.epoch), Ended(SignedDecimal(p.committedAt), p.causedByAct))))))))))
  {
    hide CborCodec.Encode, Decimal, SignedDecimal, Representable, Fields;
    var epoch, time, payload := SignedDecimal(p.epoch), SignedDecimal(p.committedAt), CborCodec.Encode(p.payload);
    TwoEnded(epoch, time, p.causedByAct);
    var rest := Ended(payload, Ended(epoch, Ended(time, p.causedByAct)));
    SevenEnded(p.previousHash, Decimal(p.sequence), p.id, p.ray, ParentText(p), p.kind, p.schema, rest);
    assert Material(p) == Fields(Head(p)) + rest;
  }

  const SAMPLE := Photon(12, [0x69], [0x72], Some([0x70]), [0x6b], [0x73], Null, 3, -45, [0x78], [], [0x63])

  lemma SampleFront(rest: bytes)
    ensures Ended([0x78], Ended([0x31, 0x32], Ended([0x69], Ended([0x72], rest))))
      == [0x78, 0, 0x31, 0x32, 0, 0x69, 0, 0x72, 0] + rest
  {
  }

  lemma SampleMiddle(rest: bytes)
    ensures Ended([0x70], Ended([0x6b], Ended([0x73], rest))) == [0x70, 0, 0x6b, 0, 0x73, 0] + rest
  {
  }

  lemma SampleBack()
    ensures Ended([0xf6], Ended([0x33], Ended([0x2d, 0x34, 0x35], [0x63])))
      == [0xf6, 0, 0x33, 0, 0x2d, 0x34, 0x35, 0, 0x63]
  {
  }

  lemma SampleNumbers()
    ensures Decimal(12) == [0x31, 0x32] && SignedDecimal(3) == [0x33] && SignedDecimal(-45) == [0x2d, 0x34, 0x35]
  {
    TwoDigits(1, 2);
    TwoDigits(4, 5);
  }

  /** One letter for each text: x, sequence 12, i, r, p, k, s, the payload null, epoch 3, time -45, and the cause c. */
  lemma MaterialExample()
    ensures Material(SAMPLE) == [0x78, 0, 0x31, 0x32, 0, 0x69, 0, 0x72, 0] + [0x70, 0, 0x6b, 0, 0x73, 0]
      + [0xf6, 0, 0x33, 0, 0x2d, 0x34, 0x35, 0, 0x63]
  {
    MaterialByFields(SAMPLE);
    SampleNumbers();
    hide Decimal, SignedDecimal, Material, Ended, Fields;
    var back: bytes := [0xf6, 0, 0x33, 0, 0x2d, 0x34, 0x35, 0, 0x63];
    SampleBack();
    SampleMiddle(back);
    var middle: bytes := [0x70, 0, 0x6b, 0, 0x73, 0] + back;
    SampleFront(middle);
    assert CborCodec.Encode(Null) == [0xf6];
  }

  lemma TwoDigits(a: nat, b: nat)
    requires 1 <= a <= 9 && b <= 9
    ensures Decimal(10 * a + b) == [48 + a, 48 + b]
  {
    assert Decimal(a) == [48 + a];
    assert (10 * a + b) / 10 == a && (10 * a + b) % 10 == b;
    OneMoreDigit(10 * a + b);
    hide Decimal;
  }

  lemma OneMoreDigit(n: nat)
    requires n >= 10
    ensures Decimal(n) == Decimal(n / 10) + [48 + n % 10]
  {
  }

  // ----- violations -----

  /** The kind begins with `act.`. */
  predicate BeginsWithAct(kind: bytes) {
    |kind| >= 4 && forall i | 0 <= i < 4 :: kind[i] == "act."[i] as int
  }

  /** What each code reports of photon `i` of a window. */
  ghost predicate Reports(w: seq<Photon>, i: nat, hash: bytes -> bytes, code: Code)
    requires i < |w| && Representable(w[i].payload)
  {
    match code
    case SequenceGapOrReuse => i > 0 && w[i].sequence != (w[i - 1].sequence + 1) % 0x1_0000_0000_0000_0000
    case PreviousHashMismatch => i > 0 && w[i].previousHash != w[i - 1].hash
    case ContentHashMismatch => |w[i].hash| != 64 || w[i].hash != hash(Material(w[i]))
    case DuplicateOrEmptyId => w[i].id == [] || exists j | 0 <= j < i :: w[j].id == w[i].id
    case SchemaOrIdentityMissing => w[i].ray == [] || w[i].kind == [] || w[i].schema == []
    case InvalidParent =>
      && w[i].parent.Some?
      && (w[i].parent.value == [] || forall j | 0 <= j <= i :: w[j].id != w[i].parent.value)
    case UnknownCausingAct =>
      && w[i].causedByAct != [] && !BeginsWithAct(w[i].kind)
      && forall j | 0 <= j < i && BeginsWithAct(w[j].kind) :: w[j].causedByAct != w[i].causedByAct
  }

  /** The code alone, where it is to be reported. */
  ghost function Reported(w: seq<Photon>, i: nat, hash: bytes -> bytes, code: Code): seq<Code>
    requires i < |w| && Representable(w[i].payload)
  {
    if Reports(w, i, hash, code) then [code] else []
  }

  /** Every code is reported of a photon exactly for its own reason, once, and in this order. */
  lemma CodesByReason(w: seq<Photon>, i: nat, hash: bytes -> bytes)
    requires i < |w| && Representable(w[i].payload)
    ensures CodesAt(w[..i], w[i], hash) ==
      Reported(w, i, hash, SequenceGapOrReuse) + Reported(w, i, hash, PreviousHashMismatch)
      + Reported(w, i, hash, ContentHashMismatch) + Reported(w, i, hash, DuplicateOrEmptyId)
      + Reported(w, i, hash, SchemaOrIdentityMissing) + Reported(w, i, hash, InvalidParent)
      + Reported(w, i, hash, UnknownCausingAct)
  {
    hide Representable, Material;
    var before, p := w[..i], w[i];
    assert before + [p] == w[..i + 1];
    IdsAre(w, i, p.id);
    if p.parent.Some? { IdsAre(w, i + 1, p.parent.value); }
    ActsAre(w, i, p.causedByAct);
    forall j | 0 <= j <= i ensures IsAct(w[j]) <==> BeginsWithAct(w[j].kind) {
      ActIsPrefix(w[j]);
    }
    hide IsAct, BeginsWithAct, IdsOf, ActsOf;
    assert Reports(w, i, hash, DuplicateOrEmptyId) <==> p.id == [] || p.id in IdsOf(before);
    assert Reports(w, i, hash, InvalidParent) <==> p.parent.Some? && p.parent.value !in IdsOf(before + [p]);
    assert Reports(w, i, hash, UnknownCausingAct) <==>
      p.causedByAct != [] && !IsAct(p) && p.causedByAct !in ActsOf(before);
  }

  lemma ActIsPrefix(p: Photon)
    ensures IsAct(p) <==> BeginsWithAct(p.kind)
  {
    if BeginsWithAct(p.kind) {
      assert p.kind[..4] == ACT;
    }
  }

  /** Photon `i` is reported with the code. */
  ghost predicate IsReported(w: seq<Photon>, hash: bytes -> bytes, v: Violation, i: nat)
    requires Readable(w)
  {
    i < |w| && v.sequence == w[i].sequence && v.photon == w[i].id && Reports(w, i, hash, v.code)
  }

  /** A violation is reported exactly where a photon gives the reason for it, with its sequence and its id. */
  lemma {:induction false} ViolationsByReason(w: seq<Photon>, hash: bytes -> bytes, v: Violation)
    requires Readable(w)
    ensures v in Violations(w, hash) <==> exists i: nat :: IsReported(w, hash, v, i)
  {
    hide CodesAt, Reports, Representable;
    if w != [] {
      var n := |w| - 1;
      var init, p := w[..n], w[n];
      ViolationsByReason(init, hash, v);
      forall i | 0 <= i < n ensures IsReported(init, hash, v, i) <==> IsReported(w, hash, v, i) {
        ReasonInPrefix(w, n, i, hash, v.code);
      }
      CodesByReason(w, n, hash);
      TaggedAre(p, CodesAt(init, p, hash), v);
      assert v in Tagged(p, CodesAt(init, p, hash)) <==> IsReported(w, hash, v, n) by {
        CodeIsReported(w, n, hash, v.code);
      }
    }
  }

  lemma CodeIsReported(w: seq<Photon>, i: nat, hash: bytes -> bytes, code: Code)
    requires i < |w| && Representable(w[i].payload)
    ensures code in CodesAt(w[..i], w[i], hash) <==> Reports(w, i, hash, code)
  {
    hide CodesAt, Reports, Representable;
    CodesByReason(w, i, hash);
    match code {
      case SequenceGapOrReuse =>
      case _ =>
    }
  }

  lemma ReasonInPrefix(w: seq<Photon>, n: nat, i: nat, hash: bytes -> bytes, code: Code)
    requires i < n <= |w| && Representable(w[i].payload)
    ensures Reports(w[..n], i, hash, code) <==> Reports(w, i, hash, code)
  {
    hide Representable, Material, BeginsWithAct;
    var v := w[..n];
    assert forall j | 0 <= j < n :: v[j] == w[j];
  }

  lemma {:induction false} TaggedAre(p: Photon, codes: seq<Code>, v: Violation)
    ensures v in Tagged(p, codes) <==> v.code in codes && v.sequence == p.sequence && v.photon == p.id
  {
    if codes != [] {
      TaggedAre(p, codes[1..], v);
      assert codes == [codes[0]] + codes[1..];
    }
  }
}
