/** Command lines by their characters: what is quoted, what separates, and the documented examples. */
module WindowsExamples {
  import opened WindowsQuoting

  // ----- what is quoted -----

  lemma {:induction false} BodyIsLonger(a: string, held: nat)
    ensures |Body(a, held)| >= |a| + held + 1
    decreases |a|
  {
    if a != "" {
      BodyIsLonger(a[1..], if a[0] == '\\' then held + 1 else 0);
    }
  }

  /** An argument is left as it is exactly when it is not empty and holds no space, tab or quote. */
  lemma UnquotedExactly(a: string)
    ensures Quote(a) == a <==> a != "" && ' ' !in a && '\t' !in a && '"' !in a
  {
    BodyIsLonger(a, 0);
    if NeedsQuotes(a) {
      assert |Quote(a)| > |a|;
    }
  }

  // ----- what separates -----

  predicate Ordinary(c: char) {
    c != 0 as char && c != '\\' && c != '"'
  }

  /** Between two letters, of all ordinary characters a space and a tab separate arguments, and no others. */
  lemma SeparatesArguments(c: char)
    requires Ordinary(c)
    ensures ParseArguments(['a', c, 'b']) == if c == ' ' || c == '\t' then ["a", "b"] else [['a', c, 'b']]
  {
    var s := ['a', c, 'b'];
    assert s[1..] == [c, 'b'] && [c, 'b'][1..] == ['b'] && ['b'][1..] == [];
    EndsHere("", false, "a");
    EndsHere("", false, "b");
    EndsHere("", false, ['a', c, 'b']);
    OneMoreCharacter('b', "", false, "");
    OneMoreCharacter('b', "", false, ['a', c]);
    assert ['b'] + "" == ['b'] && "" + ['b'] == "b" && ['a', c] + ['b'] == ['a', c, 'b'];
    OneMoreCharacter('a', [c, 'b'], false, "");
    assert ['a'] + [c, 'b'] == s && "" + ['a'] == "a";
    if c == ' ' || c == '\t' {
      assert ParseArgument([c, 'b'], false, 0, "a") == ["a" + Backslashes(0)] + ParseArguments(['b']);
      assert "a" + Backslashes(0) == "a";
    } else {
      OneMoreCharacter(c, ['b'], false, "a");
      assert [c] + ['b'] == [c, 'b'] && "a" + [c] == ['a', c];
    }
  }

  /** What stands behind a NUL is not seen. */
  lemma NulEndsTheLine()
    ensures ParseArguments(['a', 0 as char, 'b']) == ["a"]
    ensures ParseProgram(['a', 0 as char, 'b'], false, "").name == "a"
  {
    var rest := [0 as char, 'b'];
    assert ['a'] + rest == ['a', 0 as char, 'b'] && "" + ['a'] == "a";
    OneMoreCharacter('a', rest, false, "");
    EndsHere(rest, false, "a");
    ProgramStep('a', rest, false, "");
  }

  lemma EndsHere(s: string, quoted: bool, text: string)
    requires AtEnd(s)
    ensures ParseArgument(s, quoted, 0, text) == [text]
  {
    assert text + Backslashes(0) == text;
  }

  /** A character that means nothing is added to the argument. */
  lemma OneMoreCharacter(c: char, rest: string, quoted: bool, text: string)
    requires Ordinary(c) && (quoted || !(c == ' ' || c == '\t'))
    ensures ParseArgument([c] + rest, quoted, 0, text) == ParseArgument(rest, quoted, 0, text + [c])
  {
    assert ([c] + rest)[1..] == rest;
    assert text + Backslashes(0) + [c] == text + [c];
  }

  // ----- the rule of backslashes -----

  lemma {:induction false} BackslashesAreHeld(n: nat, held: nat, rest: string, quoted: bool, text: string)
    ensures ParseArgument(Backslashes(n) + rest, quoted, held, text) == ParseArgument(rest, quoted, held + n, text)
  {
    if n == 0 {
      assert Backslashes(0) + rest == rest;
    } else {
      var s := Backslashes(n) + rest;
      assert s[0] == '\\' && s[1..] == Backslashes(n - 1) + rest;
      BackslashesAreHeld(n - 1, held + 1, rest, quoted, text);
    }
  }

  /**
   * Backslashes before a quote count half; an odd one makes the quote a character, and so does a quote that another
   * one precedes inside quotes. Otherwise the quote opens or closes.
   */
  lemma BackslashesBeforeQuote(n: nat, rest: string, quoted: bool, text: string)
    ensures var r, half := ParseArgument(Backslashes(n) + ("\"" + rest), quoted, 0, text), text + Backslashes(n / 2);
      && (n % 2 == 1 ==> r == ParseArgument(rest, quoted, 0, half + "\""))
      && (n % 2 == 0 && quoted && rest != "" && rest[0] == '"' ==> r == ParseArgument(rest[1..], true, 0, half + "\""))
      && (n % 2 == 0 && !(quoted && rest != "" && rest[0] == '"') ==> r == ParseArgument(rest, !quoted, 0, half))
  {
    BackslashesAreHeld(n, 0, "\"" + rest, quoted, text);
    assert ("\"" + rest)[1..] == rest;
    if rest != "" {
      assert ("\"" + rest)[2..] == rest[1..];
    }
  }

  /** Backslashes before any other character are themselves. */
  lemma BackslashesElsewhere(n: nat, c: char, rest: string, quoted: bool, text: string)
    requires Ordinary(c) && (quoted || !(c == ' ' || c == '\t'))
    ensures ParseArgument(Backslashes(n) + ([c] + rest), quoted, 0, text)
      == ParseArgument(rest, quoted, 0, text + Backslashes(n) + [c])
  {
    BackslashesAreHeld(n, 0, [c] + rest, quoted, text);
    assert ([c] + rest)[1..] == rest;
  }

  /** The name of the program ends at the first space or tab outside quotes; backslashes mean nothing in it. */
  lemma ProgramEndsAt(c: char)
    requires c != 0 as char && c != '"'
    ensures ParseProgram(['a', c, 'b'], false, "")
      == if c == ' ' || c == '\t' then Program("a", [c, 'b']) else Program(['a', c, 'b'], "")
    ensures ParseProgram(['a', c, 'b'], true, "") == Program(['a', c, 'b'], "")
  {
    ProgramStep('a', [c, 'b'], false, "");
    ProgramStep('a', [c, 'b'], true, "");
    ProgramStep(c, ['b'], false, "a");
    ProgramStep(c, ['b'], true, "a");
    ProgramStep('b', "", false, ['a', c]);
    ProgramStep('b', "", true, ['a', c]);
    assert ['a'] + [c, 'b'] == ['a', c, 'b'] && [c] + ['b'] == [c, 'b'] && ['b'] + "" == ['b'];
    assert "" + ['a'] == "a" && "a" + [c] == ['a', c] && ['a', c] + ['b'] == ['a', c, 'b'];
  }

  lemma ProgramStep(c: char, rest: string, quoted: bool, text: string)
    requires c != 0 as char && c != '"'
    ensures ParseProgram([c] + rest, quoted, text)
      == if (c == ' ' || c == '\t') && !quoted then Program(text, [c] + rest)
         else ParseProgram(rest, quoted, text + [c])
  {
    assert ([c] + rest)[1..] == rest;
  }

  /** Arguments that need no quotes stand behind one another, one space apart. */
  lemma OneSpaceApart(a: string, b: string, c: string)
    requires Quote(a) == a && Quote(b) == b && Quote(c) == c
    ensures CommandLine([a, b, c]) == a + " " + b + " " + c
  {
    hide Quote;
    assert [a, b, c][1..] == [b, c] && [b, c][1..] == [c] && [c][1..] == [];
    assert Further([]) == "";
    assert Further([c]) == " " + c + "";
    assert Further([b, c]) == " " + b + (" " + c);
  }
}
