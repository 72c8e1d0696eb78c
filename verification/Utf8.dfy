/** Validation, bounding and repair of UTF-8 text. */
module Utf8 {
  import opened Bytes

  // ----- the grammar of section 4 of RFC 3629 -----

  predicate Tail(b: byte) { 0x80 <= b <= 0xbf }

  /** UTF8-char: one character of one to four octets. */
  predicate Char(s: bytes) {
    if |s| == 1 then s[0] <= 0x7f
    else if |s| == 2 then 0xc2 <= s[0] <= 0xdf && Tail(s[1])
    else if |s| == 3 then
      && Tail(s[2])
      && (|| (s[0] == 0xe0 && 0xa0 <= s[1] <= 0xbf)
          || (0xe1 <= s[0] <= 0xec && Tail(s[1]))
          || (s[0] == 0xed && 0x80 <= s[1] <= 0x9f)
          || (0xee <= s[0] <= 0xef && Tail(s[1])))
    else if |s| == 4 then
      && Tail(s[2]) && Tail(s[3])
      && (|| (s[0] == 0xf0 && 0x90 <= s[1] <= 0xbf)
          || (0xf1 <= s[0] <= 0xf3 && Tail(s[1]))
          || (s[0] == 0xf4 && 0x80 <= s[1] <= 0x8f))
    else false
  }

  /** UTF8-octets: any number of characters. */
  ghost predicate Octets(s: bytes)
    decreases |s|
  {
    s == [] || exists n | 1 <= n <= |s| :: Char(s[..n]) && Octets(s[n..])
  }

  // ----- the scanner -----

  predicate Continuation(text: bytes, at: nat) {
    at < |text| && text[at] / 64 == 2
  }

  function SequenceWidth(text: bytes, index: nat): (width: nat)
    requires index < |text|
  {
    var first := text[index];
    if first < 0x80 then 1
    else if 0xc2 <= first <= 0xdf then (if Continuation(text, index + 1) then 2 else 0)
    else if 0xe0 <= first <= 0xef then
      if !Continuation(text, index + 1) || !Continuation(text, index + 2) then 0
      else
        var second := text[index + 1];
        if (first == 0xe0 && second < 0xa0) || (first == 0xed && second >= 0xa0) then 0 else 3
    else if 0xf0 <= first <= 0xf4 then
      if !Continuation(text, index + 1) || !Continuation(text, index + 2) || !Continuation(text, index + 3) then 0
      else
        var second := text[index + 1];
        if (first == 0xf0 && second < 0x90) || (first == 0xf4 && second >= 0x90) then 0 else 4
    else 0
  }

  /** The scanner finds a character of `n` octets exactly when the grammar has one there. */
  lemma WidthIsGrammar(text: bytes, index: nat, n: nat)
    requires index < |text| && n > 0
    ensures SequenceWidth(text, index) == n <==> index + n <= |text| && Char(text[index..index + n])
  {
    if n <= 4 && index + n <= |text| {
      var s := text[index..index + n];
      assert forall k | 0 <= k < n :: s[k] == text[index + k];
    }
  }

  lemma NoWidth(s: bytes)
    requires s != [] && SequenceWidth(s, 0) == 0
    ensures forall n | 1 <= n <= |s| :: !Char(s[..n])
  {
    forall n | 1 <= n <= |s| ensures !Char(s[..n]) {
      WidthIsGrammar(s, 0, n);
      assert s[0..0 + n] == s[..n];
    }
  }

  lemma WidthOfSuffix(text: bytes, index: nat)
    requires index < |text|
    ensures SequenceWidth(text, index) == SequenceWidth(text[index..], 0)
    ensures SequenceWidth(text, index) <= |text| - index
  {
    var s := text[index..];
    assert forall k | 0 <= k < |s| :: s[k] == text[index + k];
  }

  // ----- characters are prefix-free -----

  lemma CharsArePrefixFree(a: bytes, b: bytes, s: bytes, t: bytes)
    requires Char(a) && Char(b) && a + s == b + t
    ensures a == b && s == t
  {
    var text := a + s;
    assert text[0..|a|] == a && text[0..|b|] == b;
    WidthIsGrammar(text, 0, |a|);
    WidthIsGrammar(text, 0, |b|);
    assert s == text[|a|..] == t;
  }

  lemma OctetsAfterChar(c: bytes, s: bytes)
    requires Char(c)
    ensures Octets(c + s) <==> Octets(s)
  {
    var text := c + s;
    assert text[..|c|] == c && text[|c|..] == s;
    if Octets(text) {
      var n :| 1 <= n <= |text| && Char(text[..n]) && Octets(text[n..]);
      CharsArePrefixFree(c, text[..n], s, text[n..]);
    }
  }

  // ----- validation -----

  method ValidUtf8(text: bytes) returns (valid: bool)
    ensures valid <==> Octets(text)
  {
    var index := 0;
    assert text[0..] == text;
    while index < |text|
      invariant 0 <= index <= |text|
      invariant Octets(text) <==> Octets(text[index..])
    {
      var width := SequenceWidth(text, index);
      ScanStep(text, index);
      if width == 0 { return false; }
      index := index + width;
    }
    return true;
  }

  lemma ScanStep(text: bytes, index: nat)
    requires index < |text|
    ensures var width := SequenceWidth(text, index);
      && index + width <= |text|
      && (width == 0 ==> !Octets(text[index..]))
      && (width > 0 ==> Char(text[index..index + width]))
      && (width > 0 ==> (Octets(text[index..]) <==> Octets(text[index + width..])))
  {
    var width, s := SequenceWidth(text, index), text[index..];
    WidthOfSuffix(text, index);
    if width == 0 {
      NoWidth(s);
    } else {
      WidthIsGrammar(text, index, width);
      assert s == text[index..index + width] + text[index + width..];
      OctetsAfterChar(text[index..index + width], text[index + width..]);
    }
  }

  // ----- bounding and repair -----

  const REPLACEMENT: bytes := [0xef, 0xbf, 0xbd]

  /** What one scanning step contributes: the character, or U+FFFD for a byte that starts none. */
  function Unit(s: bytes): bytes
    requires s != []
  {
    WidthOfSuffix(s, 0);
    var width := SequenceWidth(s, 0);
    if width == 0 then REPLACEMENT else s[..width]
  }

  /** How many bytes one scanning step consumes. */
  function Step(s: bytes): (n: nat)
    requires s != []
    ensures 1 <= n <= |s|
  {
    WidthOfSuffix(s, 0);
    var width := SequenceWidth(s, 0);
    if width == 0 then 1 else width
  }

  /** The text with every byte that is in no character replaced, whatever its size. */
  function Replaced(s: bytes): bytes
    decreases |s|
  {
    if s == [] then [] else Unit(s) + Replaced(s[Step(s)..])
  }

  /** Whole units of the replaced text while they fit in `room`. */
  function Bounded(s: bytes, room: nat): bytes
    decreases |s|
  {
    if s == [] || |Unit(s)| > room then []
    else Unit(s) + Bounded(s[Step(s)..], room - |Unit(s)|)
  }

  method BoundedUtf8(text: bytes, maxBytes: nat) returns (result: bytes)
    ensures result == Bounded(text, maxBytes)
  {
    hide SequenceWidth;
    hide Bounded;
    hide Unit;
    hide Step;
    result := [];
    var index := 0;
    assert text[0..] == text;
    while index < |text|
      invariant 0 <= index <= |text| && |result| <= maxBytes
      invariant Bounded(text, maxBytes) == result + Bounded(text[index..], maxBytes - |result|)
    {
      UnitAt(text, index);
      BoundedStep(text[index..], maxBytes - |result|);
      ghost var unit, before := Unit(text[index..]), result;
      var width := SequenceWidth(text, index);
      if width != 0 {
        if |result| + width > maxBytes { break; }
        result := result + text[index..index + width];
        index := index + width;
      } else {
        if |result| + |REPLACEMENT| > maxBytes { break; }
        result := result + REPLACEMENT;
        index := index + 1;
      }
      assert before + (unit + Bounded(text[index..], maxBytes - |result|))
          == result + Bounded(text[index..], maxBytes - |result|);
    }
    if index == |text| {
      BoundedStep(text[index..], maxBytes - |result|);
    }
    assert result + [] == result;
  }

  lemma UnitAt(text: bytes, index: nat)
    requires index < |text|
    ensures var s, width := text[index..], SequenceWidth(text, index);
      && index + width <= |text|
      && Unit(s) == (if width == 0 then REPLACEMENT else text[index..index + width])
      && s[Step(s)..] == text[if width == 0 then index + 1 else index + width..]
  {
    hide SequenceWidth;
    WidthOfSuffix(text, index);
  }

  lemma BoundedStep(s: bytes, room: nat)
    ensures s == [] ==> Bounded(s, room) == []
    ensures s != [] && |Unit(s)| > room ==> Bounded(s, room) == []
    ensures s != [] && |Unit(s)| <= room ==> Bounded(s, room) == Unit(s) + Bounded(s[Step(s)..], room - |Unit(s)|)
  {
  }

  method RepairUtf8(text: bytes) returns (result: bytes)
    ensures result == Replaced(text)
    ensures result == text <==> Octets(text)
    ensures Octets(result)
  {
    var valid := ValidUtf8(text);
    ReplacedIsValid(text);
    ReplacedIsIdentityExactlyOnValid(text);
    if valid { return text; }
    result := BoundedUtf8(text, |text| * 3);
    ReplacedAtMostTriples(text);
    EnoughRoomKeepsAll(text, |text| * 3);
  }

  lemma UnitIsChar(s: bytes)
    requires s != []
    ensures Char(Unit(s))
  {
    ScanStep(s, 0);
    var width := SequenceWidth(s, 0);
    if width > 0 {
      assert s[0..0 + width] == s[..width];
    }
  }

  lemma {:induction false} ReplacedIsValid(s: bytes)
    ensures Octets(Replaced(s))
    decreases |s|
  {
    if s != [] {
      UnitIsChar(s);
      ReplacedIsValid(s[Step(s)..]);
      OctetsAfterChar(Unit(s), Replaced(s[Step(s)..]));
    }
  }

  lemma UnitThenRest(s: bytes)
    requires s != [] && SequenceWidth(s, 0) > 0
    ensures var width := SequenceWidth(s, 0);
      && width <= |s| && Replaced(s) == s[..width] + Replaced(s[width..])
      && (Octets(s) <==> Octets(s[width..]))
  {
    hide SequenceWidth, Octets;
    ScanStep(s, 0);
    assert s[0..] == s;
  }

  lemma NothingToRepair()
    ensures Replaced([]) == [] && Octets([])
  {
  }

  lemma SameRest(a: bytes, b: bytes, c: bytes)
    ensures a + b == a + c <==> b == c
  {
    assert b == (a + b)[|a|..] && c == (a + c)[|a|..];
  }

  /** Repair changes nothing exactly when there is nothing to repair. */
  lemma {:induction false} ReplacedIsIdentityExactlyOnValid(s: bytes)
    ensures Replaced(s) == s <==> Octets(s)
    decreases |s|
  {
    hide SequenceWidth, Replaced, Octets;
    if s == [] {
      NothingToRepair();
    } else {
      var width := SequenceWidth(s, 0);
      if width == 0 {
        ReplacedIsValid(s);
        ScanStep(s, 0);
        assert s[0..] == s;
      } else {
        UnitThenRest(s);
        ReplacedIsIdentityExactlyOnValid(s[width..]);
        SameRest(s[..width], Replaced(s[width..]), s[width..]);
        assert s == s[..width] + s[width..];
      }
    }
  }

  /** Repairing twice is repairing once. */
  lemma RepairIsIdempotent(s: bytes)
    ensures Replaced(Replaced(s)) == Replaced(s)
  {
    ReplacedIsValid(s);
    ReplacedIsIdentityExactlyOnValid(Replaced(s));
  }

  lemma {:induction false} ReplacedAtMostTriples(s: bytes)
    ensures |Replaced(s)| <= 3 * |s|
    decreases |s|
  {
    if s != [] {
      ReplacedAtMostTriples(s[Step(s)..]);
    }
  }

  /** With room for all of it, nothing is truncated. */
  lemma {:induction false} EnoughRoomKeepsAll(s: bytes, room: nat)
    requires |Replaced(s)| <= room
    ensures Bounded(s, room) == Replaced(s)
    decreases |s|
  {
    if s != [] {
      EnoughRoomKeepsAll(s[Step(s)..], room - |Unit(s)|);
    }
  }

  lemma {:induction false} BoundedIsValidPrefix(s: bytes, room: nat)
    ensures Bounded(s, room) <= Replaced(s)
    ensures Octets(Bounded(s, room)) && |Bounded(s, room)| <= room
    decreases |s|
  {
    if s != [] && |Unit(s)| <= room {
      var rest := s[Step(s)..];
      UnitIsChar(s);
      BoundedIsValidPrefix(rest, room - |Unit(s)|);
      OctetsAfterChar(Unit(s), Bounded(rest, room - |Unit(s)|));
    }
  }

  /** No valid prefix of the replaced text that fits is longer. */
  lemma {:induction false} BoundedIsLongest(s: bytes, room: nat, q: bytes)
    requires q <= Replaced(s) && Octets(q) && |q| <= room
    ensures |q| <= |Bounded(s, room)|
    decreases |s|
  {
    hide Char;
    hide Unit;
    hide Step;
    if s != [] && q != [] {
      var rest := s[Step(s)..];
      var n :| 1 <= n <= |q| && Char(q[..n]) && Octets(q[n..]);
      UnitIsChar(s);
      var text := Replaced(s);
      assert text == q[..n] + text[n..];
      CharsArePrefixFree(Unit(s), q[..n], Replaced(rest), text[n..]);
      assert q[n..] <= Replaced(rest);
      BoundedIsLongest(rest, room - n, q[n..]);
    }
  }

  /**
   * The bounded text is valid, within the bound, and the longest prefix of the repaired text that is
   * both; for valid input it is therefore the longest such prefix of the input itself.
   */
  lemma BoundedIsLongestValidPrefix(s: bytes, room: nat, q: bytes)
    ensures var r := Bounded(s, room);
      && r <= Replaced(s) && Octets(r) && |r| <= room
      && (q <= Replaced(s) && Octets(q) && |q| <= room ==> q <= r)
      && (Octets(s) ==> r <= s && (q <= s && Octets(q) && |q| <= room ==> q <= r))
  {
    BoundedIsValidPrefix(s, room);
    ReplacedIsIdentityExactlyOnValid(s);
    if q <= Replaced(s) && Octets(q) && |q| <= room {
      BoundedIsLongest(s, room, q);
    }
  }

  // ----- characters are code points -----

  /** Section 3 of RFC 3629: the octets of a code point, by its size. */
  function OctetsOf(point: nat): bytes
    requires point < 0x11_0000
  {
    if point < 0x80 then [point]
    else if point < 0x800 then [0xc0 + point / 64, 0x80 + point % 64]
    else if point < 0x1_0000 then [0xe0 + point / 64 / 64, 0x80 + point / 64 % 64, 0x80 + point % 64]
    else [0xf0 + point / 64 / 64 / 64, 0x80 + point / 64 / 64 % 64, 0x80 + point / 64 % 64, 0x80 + point % 64]
  }

  /** Up to U+10FFFF, and no surrogate. */
  predicate Scalar(point: nat) {
    point < 0xd800 || 0xe000 <= point < 0x11_0000
  }

  lemma ScalarIsChar(point: nat)
    requires Scalar(point)
    ensures Char(OctetsOf(point))
  {
  }

  lemma SixBits(high: nat, low: nat)
    requires low < 64
    ensures (high * 64 + low) / 64 == high && (high * 64 + low) % 64 == low
  {
  }

  lemma CharIsScalar(s: bytes) returns (point: nat)
    requires Char(s)
    ensures Scalar(point) && OctetsOf(point) == s
  {
    if |s| == 1 {
      point := s[0];
    } else if |s| == 2 {
      point := (s[0] as int - 0xc0) * 64 + (s[1] as int - 0x80);
    } else if |s| == 3 {
      point := ThreeOctets(s);
    } else {
      point := FourOctets(s);
    }
  }

  lemma ThreeOctets(s: bytes) returns (point: nat)
    requires |s| == 3 && Char(s)
    ensures Scalar(point) && OctetsOf(point) == s
  {
    var a, b, c := s[0] as int - 0xe0, s[1] as int - 0x80, s[2] as int - 0x80;
    var high := a * 64 + b;
    point := high * 64 + c;
    SixBits(a, b);
    SixBits(high, c);
    assert 32 <= high < 0x360 || 0x380 <= high < 0x400;
    hide Char;
  }

  lemma FourOctets(s: bytes) returns (point: nat)
    requires |s| == 4 && Char(s)
    ensures Scalar(point) && OctetsOf(point) == s
  {
    var a, b, c, d := s[0] as int - 0xf0, s[1] as int - 0x80, s[2] as int - 0x80, s[3] as int - 0x80;
    var high := a * 64 + b;
    var middle := high * 64 + c;
    point := middle * 64 + d;
    SixBits(a, b);
    SixBits(high, c);
    SixBits(middle, d);
    assert 16 <= high < 0x110;
    hide Char;
  }

  /** The characters of the grammar are the octets of the code points that are no surrogates. */
  lemma CharsAreScalars(s: bytes)
    ensures Char(s) <==> exists point: nat | Scalar(point) :: OctetsOf(point) == s
  {
    hide Char;
    if Char(s) {
      var point := CharIsScalar(s);
    }
    if point: nat :| Scalar(point) && OctetsOf(point) == s {
      ScalarIsChar(point);
    }
  }

  // ----- what repair puts in place -----

  /** A character is kept. */
  lemma CharIsKept(c: bytes, rest: bytes)
    requires Char(c)
    ensures Replaced(c + rest) == c + Replaced(rest)
  {
    var s := c + rest;
    assert s[0..0 + |c|] == c;
    WidthIsGrammar(s, 0, |c|);
    assert s[|c|..] == rest && s[..|c|] == c;
    hide SequenceWidth, Char;
  }

  lemma NoWidthWithoutChar(s: bytes)
    requires s != [] && forall n | 1 <= n <= |s| :: !Char(s[..n])
    ensures SequenceWidth(s, 0) == 0
  {
    hide SequenceWidth, Char;
    var width := SequenceWidth(s, 0);
    ScanStep(s, 0);
    assert s[0..0 + width] == s[..width];
  }

  /** A byte at which no character begins gives way to U+FFFD alone. */
  lemma ByteIsReplaced(s: bytes)
    requires s != [] && forall n | 1 <= n <= |s| :: !Char(s[..n])
    ensures Replaced(s) == OctetsOf(0xfffd) + Replaced(s[1..])
  {
    hide SequenceWidth, Char, OctetsOf, REPLACEMENT;
    NoWidthWithoutChar(s);
    ReplacementIsFffd();
  }

  lemma ReplacementIsFffd()
    ensures REPLACEMENT == OctetsOf(0xfffd)
  {
  }
}
