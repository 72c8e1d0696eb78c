/** The policy matcher `wildcard_match` and what its patterns mean. */
module Glob {

  /** The intended meaning: `*` is any string, `?` any one character, the rest is literal. */
  predicate Means(p: string, v: string)
    decreases |p| + |v|
  {
    if p == "" then v == ""
    else if p[0] == '*' then Means(p[1..], v) || (v != "" && Means(p, v[1..]))
    else v != "" && (p[0] == '?' || p[0] == v[0]) && Means(p[1..], v[1..])
  }

  /** The meaning the code gives: a `*` that meets a `*` of the value stands for that character only. */
  ghost predicate Accepts(p: string, v: string)
    decreases |p|
  {
    if v == "" then OnlyStars(p)
    else if p == "" then false
    else if p[0] == '?' || p[0] == v[0] then Accepts(p[1..], v[1..])
    else if p[0] == '*' then exists k | 0 <= k <= |v| :: Accepts(p[1..], v[k..])
    else false
  }

  predicate OnlyStars(p: string) {
    forall i | 0 <= i < |p| :: p[i] == '*'
  }

  /** Some tail of `v` that starts at `from` or later is accepted by `p`. */
  ghost predicate AcceptsTail(p: string, v: string, from: nat) {
    exists k | from <= k <= |v| :: Accepts(p, v[k..])
  }

  /** `m` characters of `p` from `x` on match those of `v` from `y` on, one to one. */
  ghost predicate Matched(p: string, v: string, x: nat, y: nat, m: nat) {
    && x + m <= |p| && y + m <= |v|
    && forall i | x <= i < x + m :: p[i] == '?' || p[i] == v[y - x + i]
  }

  lemma OnlyStarsFrom(p: string, x: nat)
    requires x <= |p|
    ensures OnlyStars(p[x..]) <==> forall i | x <= i < |p| :: p[i] == '*'
  {
    if OnlyStars(p[x..]) {
      forall i | x <= i < |p| ensures p[i] == '*' { assert p[x..][i - x] == '*'; }
    }
  }

  // ----- one step of the meaning, by position -----

  lemma CharacterStep(p: string, v: string, i: nat, j: nat)
    requires i < |p| && j < |v| && (p[i] == '?' || p[i] == v[j])
    ensures Accepts(p[i..], v[j..]) <==> Accepts(p[i + 1..], v[j + 1..])
  {
    assert p[i..][1..] == p[i + 1..] && v[j..][1..] == v[j + 1..];
  }

  lemma MismatchStep(p: string, v: string, i: nat, j: nat)
    requires i <= |p| && j < |v| && (i < |p| ==> p[i] != '?' && p[i] != v[j] && p[i] != '*')
    ensures !Accepts(p[i..], v[j..])
  {
  }

  lemma EndStep(p: string, v: string, i: nat)
    requires i <= |p|
    ensures Accepts(p[i..], v[|v|..]) <==> forall t | i <= t < |p| :: p[t] == '*'
  {
    OnlyStarsFrom(p, i);
  }

  /** A star that meets another character accepts whatever some tail accepts. */
  lemma StarAcceptsTails(p: string, v: string, i: nat, j: nat)
    requires i < |p| && j < |v| && p[i] == '*' && v[j] != '*'
    ensures Accepts(p[i..], v[j..]) <==> AcceptsTail(p[i + 1..], v, j)
  {
    assert p[i..][1..] == p[i + 1..];
    if Accepts(p[i..], v[j..]) {
      var k :| 0 <= k <= |v[j..]| && Accepts(p[i..][1..], v[j..][k..]);
      assert v[j..][k..] == v[j + k..];
    }
    if AcceptsTail(p[i + 1..], v, j) {
      var k :| j <= k <= |v| && Accepts(p[i + 1..], v[k..]);
      assert v[j..][k - j..] == v[k..];
    }
  }

  // ----- why one saved retry point is enough -----

  /**
   * If the characters of `p` after a star match `v` at `y`, then however far the star stretches, the rest of
   * `p` is reached no earlier than behind that first match.
   */
  lemma {:induction false} FirstMatchIsLeftmost(p: string, v: string, x: nat, y: nat, m: nat, k: nat)
    requires Matched(p, v, x, y, m) && y <= k <= |v|
    requires Accepts(p[x..], v[k..])
    ensures AcceptsTail(p[x + m..], v, y + m)
    decreases m
  {
    hide Accepts;
    if m == 0 {
    } else if k == |v| {
      EndStep(p, v, x);
      EndStep(p, v, x + m);
    } else if p[x] == '?' || p[x] == v[k] {
      CharacterStep(p, v, x, k);
      FirstMatchIsLeftmost(p, v, x + 1, y + 1, m - 1, k + 1);
    } else if p[x] == '*' {
      StarAcceptsTails(p, v, x, k);
      var j :| k <= j <= |v| && Accepts(p[x + 1..], v[j..]);
      FirstMatchIsLeftmost(p, v, x + 1, y + 1, m - 1, j);
    } else {
      MismatchStep(p, v, x, k);
    }
  }

  lemma TailSplits(p: string, v: string, from: nat)
    requires from <= |v|
    ensures AcceptsTail(p, v, from) <==> Accepts(p, v[from..]) || AcceptsTail(p, v, from + 1)
  {
  }

  // ----- the loop -----

  /** The whole question, in terms of where the loop is and of the retry point it has saved. */
  ghost predicate Tracks(p: string, v: string, i: nat, j: nat, star: int, retry: nat) {
    && i <= |p| && j <= |v| && -1 <= star < |p|
    && (star == -1 ==> (Accepts(p, v) <==> Accepts(p[i..], v[j..])))
    && (star >= 0 ==>
          && p[star] == '*' && star < i && retry <= j
          && i - (star + 1) == j - retry
          && Matched(p, v, star + 1, retry, j - retry)
          && (Accepts(p, v) <==> Accepts(p[i..], v[j..]) || AcceptsTail(p[star + 1..], v, retry + 1)))
  }

  lemma AdvanceTracks(p: string, v: string, i: nat, j: nat, star: int, retry: nat)
    requires Tracks(p, v, i, j, star, retry) && i < |p| && j < |v| && (p[i] == '?' || p[i] == v[j])
    ensures Tracks(p, v, i + 1, j + 1, star, retry)
  {
    hide Accepts;
    CharacterStep(p, v, i, j);
  }

  lemma StarTracks(p: string, v: string, i: nat, j: nat, star: int, retry: nat)
    requires Tracks(p, v, i, j, star, retry) && i < |p| && j < |v| && p[i] == '*' && v[j] != '*'
    ensures Tracks(p, v, i + 1, j, i, j)
  {
    hide Accepts;
    StarAcceptsTails(p, v, i, j);
    TailSplits(p[i + 1..], v, j);
    if star >= 0 && AcceptsTail(p[star + 1..], v, retry + 1) {
      LaterStarReached(p, v, i, j, star, retry);
    }
  }

  /** Whatever a later stretch of the saved star reaches, the star at `i` reaches too. */
  lemma LaterStarReached(p: string, v: string, i: nat, j: nat, star: nat, retry: nat)
    requires i < |p| && j < |v| && p[i] == '*' && star < i && retry <= j && i - (star + 1) == j - retry
    requires Matched(p, v, star + 1, retry, j - retry) && AcceptsTail(p[star + 1..], v, retry + 1)
    ensures AcceptsTail(p[i + 1..], v, j)
  {
    hide Accepts;
    var k :| retry + 1 <= k <= |v| && Accepts(p[star + 1..], v[k..]);
    FirstMatchIsLeftmost(p, v, star + 1, retry, j - retry, k);
    var k' :| j <= k' <= |v| && Accepts(p[i..], v[k'..]);
    StarReached(p, v, i, k');
  }

  lemma StarReached(p: string, v: string, i: nat, k: nat)
    requires i < |p| && p[i] == '*' && k <= |v| && Accepts(p[i..], v[k..])
    ensures AcceptsTail(p[i + 1..], v, k)
  {
    hide Accepts;
    if k == |v| {
      EndStep(p, v, i);
      EndStep(p, v, i + 1);
    } else if v[k] == '*' {
      CharacterStep(p, v, i, k);
    } else {
      StarAcceptsTails(p, v, i, k);
    }
  }

  lemma RetryTracks(p: string, v: string, i: nat, j: nat, star: int, retry: nat)
    requires Tracks(p, v, i, j, star, retry) && star >= 0 && j < |v|
    requires i < |p| ==> p[i] != '?' && p[i] != v[j] && p[i] != '*'
    ensures Tracks(p, v, star + 1, retry + 1, star, retry + 1)
  {
    hide Accepts;
    MismatchStep(p, v, i, j);
    TailSplits(p[star + 1..], v, retry + 1);
  }

  lemma EndTracks(p: string, v: string, i: nat, j: nat, star: int, retry: nat)
    requires Tracks(p, v, i, j, star, retry) && j == |v|
    ensures Accepts(p, v) <==> OnlyStars(p[i..])
  {
    hide Accepts;
    EndStep(p, v, i);
    OnlyStarsFrom(p, i);
    if star >= 0 && AcceptsTail(p[star + 1..], v, retry + 1) {
      var k :| retry + 1 <= k <= |v| && Accepts(p[star + 1..], v[k..]);
      FirstMatchIsLeftmost(p, v, star + 1, retry, j - retry, k);
    }
  }

  /** One saved retry point decides exactly the meaning the code gives, for every pattern and every value. */
  method WildcardMatch(pattern: string, value: string) returns (matched: bool)
    ensures matched <==> Accepts(pattern, value)
  {
    hide Tracks;
    hide Accepts;
    var patternIndex, valueIndex := 0, 0;
    var star, retry := -1, 0;
    StartTracks(pattern, value);
    while valueIndex < |value|
      invariant 0 <= patternIndex <= |pattern| && 0 <= valueIndex <= |value| && 0 <= retry
      invariant -1 <= star < |pattern| && star < patternIndex && (star == -1 || pattern[star] == '*')
      invariant star >= 0 ==> retry <= valueIndex
      invariant Tracks(pattern, value, patternIndex, valueIndex, star, retry)
      decreases |pattern| - star, |value| - retry, |value| - valueIndex
    {
      if patternIndex < |pattern| && (pattern[patternIndex] == '?' || pattern[patternIndex] == value[valueIndex]) {
        AdvanceTracks(pattern, value, patternIndex, valueIndex, star, retry);
        patternIndex, valueIndex := patternIndex + 1, valueIndex + 1;
      } else if patternIndex < |pattern| && pattern[patternIndex] == '*' {
        StarTracks(pattern, value, patternIndex, valueIndex, star, retry);
        star := patternIndex;
        patternIndex := patternIndex + 1;
        retry := valueIndex;
      } else if star != -1 {
        RetryTracks(pattern, value, patternIndex, valueIndex, star, retry);
        patternIndex := star + 1;
        retry := retry + 1;
        valueIndex := retry;
      } else {
        MismatchRejects(pattern, value, patternIndex, valueIndex, retry);
        return false;
      }
    }
    EndTracks(pattern, value, patternIndex, valueIndex, star, retry);
    ghost var rest := pattern[patternIndex..];
    ghost var from := patternIndex;
    while patternIndex < |pattern| && pattern[patternIndex] == '*'
      invariant from <= patternIndex <= |pattern|
      invariant OnlyStars(rest) <==> OnlyStars(pattern[patternIndex..])
    {
      assert pattern[patternIndex..] == ['*'] + pattern[patternIndex + 1..];
      patternIndex := patternIndex + 1;
    }
    if patternIndex < |pattern| {
      assert pattern[patternIndex..][0] != '*';
    }
    return patternIndex == |pattern|;
  }

  lemma StartTracks(p: string, v: string)
    ensures Tracks(p, v, 0, 0, -1, 0)
  {
    assert p[0..] == p && v[0..] == v;
  }

  lemma MismatchRejects(p: string, v: string, i: nat, j: nat, retry: nat)
    requires Tracks(p, v, i, j, -1, retry) && j < |v|
    requires i < |p| ==> p[i] != '?' && p[i] != v[j] && p[i] != '*'
    ensures !Accepts(p, v)
  {
    MismatchStep(p, v, i, j);
  }

  // ----- the meaning the code gives and the intended one -----

  lemma {:induction false} StarMeansTails(p: string, v: string, k: nat)
    requires p != "" && p[0] == '*' && k <= |v| && Means(p[1..], v[k..])
    ensures Means(p, v)
    decreases |v|
  {
    if k > 0 {
      assert v[1..][k - 1..] == v[k..];
      StarMeansTails(p, v[1..], k - 1);
    }
  }

  /** Never a false positive: whatever the code accepts, the intended meaning accepts. */
  lemma {:induction false} AcceptedIsMeant(p: string, v: string)
    requires Accepts(p, v)
    ensures Means(p, v)
    decreases |p|
  {
    if v == "" {
      if p != "" {
        assert p[0] == '*';
        assert OnlyStars(p[1..]);
        AcceptedIsMeant(p[1..], v);
      }
    } else if p[0] == '?' || p[0] == v[0] {
      AcceptedIsMeant(p[1..], v[1..]);
      if p[0] == '*' {
        StarMeansTails(p, v, 1);
      }
    } else {
      var k :| 0 <= k <= |v| && Accepts(p[1..], v[k..]);
      AcceptedIsMeant(p[1..], v[k..]);
      StarMeansTails(p, v, k);
    }
  }

  /** For a value without `*` the code decides the intended meaning. */
  lemma {:induction false} MeantIsAccepted(p: string, v: string)
    requires '*' !in v && Means(p, v)
    ensures Accepts(p, v)
    decreases |p|, |v|
  {
    if p != "" {
      if p[0] == '*' {
        var k := StretchOf(p, v);
        assert '*' !in v[k..];
        MeantIsAccepted(p[1..], v[k..]);
        if v == "" {
          assert p == ['*'] + p[1..];
        }
      } else {
        MeantIsAccepted(p[1..], v[1..]);
      }
    }
  }

  lemma {:induction false} StretchOf(p: string, v: string) returns (k: nat)
    requires p != "" && p[0] == '*' && Means(p, v)
    ensures k <= |v| && Means(p[1..], v[k..])
    decreases |v|
  {
    if Means(p[1..], v) {
      k := 0;
      assert v[0..] == v;
    } else {
      var j := StretchOf(p, v[1..]);
      k := j + 1;
      assert v[1..][j..] == v[k..];
    }
  }

  /** A value with a `*` in it is refused by a pattern that means to accept it. */
  lemma {:induction false} StarInValueIsMissed(v: string) returns (p: string)
    requires '*' in v
    ensures Means(p, v) && !Accepts(p, v)
    decreases |v|
  {
    if v[0] == '*' {
      p := "*" + seq(|v|, _ => '?');
      assert p[1..] == seq(|v|, _ => '?');
      QuestionMarks(seq(|v|, _ => '?'), v);
      assert v[0..] == v;
      StarMeansTails(p, v, 0);
      QuestionMarks(seq(|v|, _ => '?'), v[1..]);
    } else {
      var q := StarInValueIsMissed(v[1..]);
      p := [v[0]] + q;
      assert p[1..] == q;
    }
  }

  /** A row of `?` accepts, and means, the values of its length. */
  lemma {:induction false} QuestionMarks(p: string, v: string)
    requires forall i | 0 <= i < |p| :: p[i] == '?'
    ensures Means(p, v) <==> |p| == |v|
    ensures Accepts(p, v) <==> |p| == |v|
    decreases |p|
  {
    if p != "" && v != "" {
      QuestionMarks(p[1..], v[1..]);
    } else if p != "" {
      assert p[0] == '?';
    }
  }

  /** The code agrees with the intended meaning on every pattern exactly for the values without `*`. */
  lemma AgreesExactlyOnStarFreeValues(v: string)
    ensures (forall p :: Accepts(p, v) <==> Means(p, v)) <==> '*' !in v
  {
    if '*' !in v {
      forall p ensures Accepts(p, v) <==> Means(p, v) {
        if Accepts(p, v) { AcceptedIsMeant(p, v); }
        if Means(p, v) { MeantIsAccepted(p, v); }
      }
    } else {
      var p := StarInValueIsMissed(v);
      assert Means(p, v) && !Accepts(p, v);
    }
  }

  /** The pattern `*` does not match the value `*a`. */
  lemma StarRefusesStarValue()
    ensures Means("*", "*a") && !Accepts("*", "*a")
  {
    assert "*"[1..] == "" && "*a"[1..] == "a" && "a"[1..] == "";
    assert Means("", "") && Means("*", "") && Means("*", "a") && Means("*", "*a");
  }

  // ----- the caller -----

  /** `any_match`: no patterns means no restriction. */
  method AnyMatch(patterns: seq<string>, value: string) returns (matched: bool)
    ensures matched <==> patterns == [] || exists i | 0 <= i < |patterns| :: Accepts(patterns[i], value)
  {
    hide Accepts;
    if patterns == [] { return true; }
    for i := 0 to |patterns|
      invariant forall j | 0 <= j < i :: !Accepts(patterns[j], value)
    {
      var found := WildcardMatch(patterns[i], value);
      if found { return true; }
    }
    return false;
  }

  // ----- the meaning, piece by piece -----

  /** The value has the characters of the pattern, and any character where that has a question mark. */
  predicate Fits(p: string, v: string) {
    |p| == |v| && forall i | 0 <= i < |p| :: p[i] == '?' || p[i] == v[i]
  }

  /** A pattern without a star means the values that fit it. */
  lemma {:induction false} MeansWithoutStars(p: string, v: string)
    requires '*' !in p
    ensures Means(p, v) <==> Fits(p, v)
    decreases |p|
  {
    if p != "" && v != "" {
      MeansWithoutStars(p[1..], v[1..]);
      assert p == [p[0]] + p[1..] && v == [v[0]] + v[1..];
    }
  }

  lemma {:induction false} MeansStar(b: string, v: string)
    ensures Means("*" + b, v) <==> exists k | 0 <= k <= |v| :: Means(b, v[k..])
    decreases |v|
  {
    assert ("*" + b)[1..] == b && v[0..] == v;
    if v != "" {
      var rest := v[1..];
      MeansStar(b, rest);
      if Means("*" + b, rest) {
        var k :| 0 <= k <= |rest| && Means(b, rest[k..]);
        assert v[k + 1..] == rest[k..];
      }
      if k :| 0 <= k <= |v| && Means(b, v[k..]) {
        if k > 0 { assert rest[k - 1..] == v[k..]; }
      }
    }
  }

  /** Up to its first star a pattern must fit; the star takes any stretch, and what follows must match the rest. */
  lemma {:induction false} MeansAtStar(a: string, b: string, v: string)
    requires '*' !in a
    ensures Means(a + "*" + b, v) <==>
      |a| <= |v| && Fits(a, v[..|a|]) && exists k | |a| <= k <= |v| :: Means(b, v[k..])
    decreases |a|
  {
    if a == "" {
      assert a + "*" + b == "*" + b;
      MeansStar(b, v);
    } else {
      var p := a + "*" + b;
      assert p[0] == a[0] && p[1..] == a[1..] + "*" + b;
      if v != "" {
        MeansAtStar(a[1..], b, v[1..]);
        hide Means;
        if |a| <= |v| {
          assert Fits(a, v[..|a|]) <==> (a[0] == '?' || a[0] == v[0]) && Fits(a[1..], v[1..][..|a| - 1]) by {
            assert forall i | 0 <= i < |a| - 1 :: a[1..][i] == a[i + 1] && v[1..][..|a| - 1][i] == v[..|a|][i + 1];
            assert forall i | 1 <= i < |a| :: a[i] == a[1..][i - 1] && v[..|a|][i] == v[1..][..|a| - 1][i - 1];
          }
          Shifted(a, b, v);
        }
      }
    }
  }

  lemma Shifted(a: string, b: string, v: string)
    requires 1 <= |a| <= |v|
    ensures (exists k | |a| <= k <= |v| :: Means(b, v[k..])) <==>
      exists k | |a| - 1 <= k <= |v| - 1 :: Means(b, v[1..][k..])
  {
    hide Means;
    if k :| |a| <= k <= |v| && Means(b, v[k..]) {
      assert v[1..][k - 1..] == v[k..];
    }
    if k :| |a| - 1 <= k <= |v| - 1 && Means(b, v[1..][k..]) {
      assert v[k + 1..] == v[1..][k..];
    }
  }
}
