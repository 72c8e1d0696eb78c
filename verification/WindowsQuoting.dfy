/**
 * Quoting of process arguments into one Windows command line, against the rules of Microsoft's
 * "Parsing C command-line arguments".
 */
module WindowsQuoting {
  import opened Bytes

  const NUL := 0 as char

  predicate Blank(c: char) { c == ' ' || c == '\t' }

  function Backslashes(n: nat): (s: string)
    ensures |s| == n
  {
    seq(n, _ => '\\')
  }

  // ----- writing -----

  predicate NeedsQuotes(a: string) {
    a == "" || exists i | 0 <= i < |a| :: Blank(a[i]) || a[i] == '"'
  }

  /** What follows the opening quote, with `held` backslashes not yet written. */
  function Body(a: string, held: nat): string
    decreases |a|
  {
    if a == "" then Backslashes(2 * held) + "\""
    else if a[0] == '\\' then Body(a[1..], held + 1)
    else if a[0] == '"' then Backslashes(2 * held + 1) + "\"" + Body(a[1..], 0)
    else Backslashes(held) + [a[0]] + Body(a[1..], 0)
  }

  function Quote(a: string): string {
    if NeedsQuotes(a) then "\"" + Body(a, 0) else a
  }

  method QuoteWindowsArgument(argument: string) returns (quoted: string)
    ensures quoted == Quote(argument)
  {
    var plain := argument != "";
    for i := 0 to |argument|
      invariant plain <==> argument != "" && forall j | 0 <= j < i :: !Blank(argument[j]) && argument[j] != '"'
    {
      if Blank(argument[i]) || argument[i] == '"' { plain := false; }
    }
    if plain { return argument; }
    quoted := "\"";
    var backslashes := 0;
    assert argument[0..] == argument;
    for i := 0 to |argument|
      invariant 0 <= backslashes
      invariant quoted + Body(argument[i..], backslashes) == "\"" + Body(argument, 0)
    {
      var character := argument[i];
      ghost var before := quoted;
      assert argument[i..][0] == character && argument[i..][1..] == argument[i + 1..];
      if character == '\\' {
        backslashes := backslashes + 1;
      } else if character == '"' {
        quoted := quoted + Backslashes(2 * backslashes + 1);
        quoted := quoted + "\"";
        assert quoted + Body(argument[i + 1..], 0)
            == before + (Backslashes(2 * backslashes + 1) + "\"" + Body(argument[i + 1..], 0));
        backslashes := 0;
      } else {
        quoted := quoted + Backslashes(backslashes);
        quoted := quoted + [character];
        assert quoted + Body(argument[i + 1..], 0)
            == before + (Backslashes(backslashes) + [character] + Body(argument[i + 1..], 0));
        backslashes := 0;
      }
    }
    assert argument[|argument|..] == "";
    ghost var before := quoted;
    quoted := quoted + Backslashes(2 * backslashes);
    quoted := quoted + "\"";
    assert quoted == before + (Backslashes(2 * backslashes) + "\"");
  }

  /** Every further argument behind a space. */
  function Further(args: seq<string>): string {
    if args == [] then "" else " " + Quote(args[0]) + Further(args[1..])
  }

  function CommandLine(argv: seq<string>): string
    requires argv != []
  {
    Quote(argv[0]) + Further(argv[1..])
  }

  datatype Command = Command(line: string) | EmptyArgv | InvalidText

  /** `widen`: the text in the units a command line is made of, empty where it is no UTF-8. */
  function Wide(item: bytes, decode: bytes -> string): string {
    if item == [] then "" else decode(item)
  }

  function WideAll(argv: seq<bytes>, decode: bytes -> string): (wide: seq<string>)
    ensures |wide| == |argv|
  {
    seq(|argv|, i requires 0 <= i < |argv| => Wide(argv[i], decode))
  }

  predicate Undecodable(item: bytes, decode: bytes -> string) {
    item != [] && Wide(item, decode) == ""
  }

  /** The joined command line; `decode` stands for the system's strict UTF-8 conversion. */
  method BuildCommand(argv: seq<bytes>, decode: bytes -> string) returns (r: Command)
    ensures r == EmptyArgv <==> argv == [] || argv[0] == []
    ensures r == InvalidText <==>
      argv != [] && argv[0] != [] && exists i | 0 <= i < |argv| :: argv[i] != [] && decode(argv[i]) == ""
    ensures r.Command? ==>
      argv != [] && WideAll(argv, decode)[0] != "" && r.line == CommandLine(WideAll(argv, decode))
    ensures forall i | 0 <= i < |argv| ::
      WideAll(argv, decode)[i] == if argv[i] == [] then "" else decode(argv[i])
  {
    hide Quote;
    if argv == [] || argv[0] == [] { return EmptyArgv; }
    var command := "";
    ghost var wideAll := WideAll(argv, decode);
    for i := 0 to |argv|
      invariant i == 0 ==> command == ""
      invariant i > 0 ==> command != "" && command + Further(wideAll[i..]) == CommandLine(wideAll)
      invariant forall j | 0 <= j < i :: !Undecodable(argv[j], decode)
    {
      ghost var before := command;
      if command != "" { command := command + " "; }
      var wide := Wide(argv[i], decode);
      if wide == "" && argv[i] != [] {
        assert Undecodable(argv[i], decode);
        return InvalidText;
      }
      var item := QuoteWindowsArgument(wide);
      QuotedIsNotEmpty(wide);
      command := command + item;
      assert wideAll[i] == wide && wideAll[i..][1..] == wideAll[i + 1..];
      assert i > 0 ==> command + Further(wideAll[i + 1..]) == before + (" " + item + Further(wideAll[i + 1..]));
    }
    assert wideAll[|argv|..] == [];
    assert !Undecodable(argv[0], decode);
    return Command(command);
  }

  lemma QuotedIsNotEmpty(a: string)
    ensures Quote(a) != ""
  {
  }

  // ----- parsing -----

  /** The end of a command line is its terminating NUL. */
  predicate AtEnd(s: string) { s == "" || s[0] == NUL }

  function ParseArguments(s: string): seq<string>
    decreases |s|, 1
  {
    if AtEnd(s) then []
    else if Blank(s[0]) then ParseArguments(s[1..])
    else ParseArgument(s, false, 0, "")
  }

  /** Inside an argument: `held` backslashes have been seen since `text`. */
  function ParseArgument(s: string, quoted: bool, held: nat, text: string): seq<string>
    decreases |s|, 0
  {
    if AtEnd(s) then [text + Backslashes(held)]
    else if s[0] == '\\' then ParseArgument(s[1..], quoted, held + 1, text)
    else if s[0] == '"' then
      if held % 2 == 1 then ParseArgument(s[1..], quoted, 0, text + Backslashes(held / 2) + "\"")
      else if quoted && |s| > 1 && s[1] == '"' then
        ParseArgument(s[2..], true, 0, text + Backslashes(held / 2) + "\"")
      else ParseArgument(s[1..], !quoted, 0, text + Backslashes(held / 2))
    else if Blank(s[0]) && !quoted then [text + Backslashes(held)] + ParseArguments(s[1..])
    else ParseArgument(s[1..], quoted, 0, text + Backslashes(held) + [s[0]])
  }

  datatype Program = Program(name: string, rest: string)

  /** The first argument: quotes group, backslashes mean nothing. */
  function ParseProgram(s: string, quoted: bool, text: string): Program
    decreases |s|
  {
    if AtEnd(s) || (Blank(s[0]) && !quoted) then Program(text, s)
    else if s[0] == '"' then ParseProgram(s[1..], !quoted, text)
    else ParseProgram(s[1..], quoted, text + [s[0]])
  }

  function ParseCommandLine(s: string): seq<string> {
    var p := ParseProgram(s, false, "");
    [p.name] + ParseArguments(p.rest)
  }

  // ----- one argument -----

  predicate NulFree(a: string) { NUL !in a }

  /** What may follow an argument: the end or a blank. */
  predicate Delimited(t: string) { AtEnd(t) || Blank(t[0]) }

  function Finish(t: string, text: string): seq<string>
    requires Delimited(t)
  {
    [text] + (if AtEnd(t) then [] else ParseArguments(t[1..]))
  }

  lemma {:induction false} BackslashesParse(k: nat, t: string, quoted: bool, held: nat, text: string)
    ensures ParseArgument(Backslashes(k) + t, quoted, held, text) == ParseArgument(t, quoted, held + k, text)
    decreases k
  {
    if k == 0 {
      assert Backslashes(k) + t == t;
    } else {
      assert (Backslashes(k) + t)[1..] == Backslashes(k - 1) + t;
      BackslashesParse(k - 1, t, quoted, held + 1, text);
    }
  }

  lemma {:induction false} BodyParses(a: string, held: nat, t: string, text: string)
    requires NulFree(a) && Delimited(t)
    ensures ParseArgument(Body(a, held) + t, true, 0, text) == Finish(t, text + Backslashes(held) + a)
    decreases |a|
  {
    if a == "" {
      assert Body(a, held) + t == Backslashes(2 * held) + ("\"" + t);
      BackslashesParse(2 * held, "\"" + t, true, 0, text);
      assert ("\"" + t)[1..] == t;
      EndOfArgument(t, text + Backslashes(held));
      assert text + Backslashes(held) + a == text + Backslashes(held);
    } else if a[0] == '\\' {
      BodyParses(a[1..], held + 1, t, text);
      assert text + Backslashes(held + 1) + a[1..] == text + Backslashes(held) + a;
    } else if a[0] == '"' {
      var tail := Body(a[1..], 0) + t;
      assert Body(a, held) + t == Backslashes(2 * held + 1) + ("\"" + tail);
      BackslashesParse(2 * held + 1, "\"" + tail, true, 0, text);
      assert ("\"" + tail)[1..] == tail;
      BodyParses(a[1..], 0, t, text + Backslashes(held) + "\"");
      assert text + Backslashes(held) + "\"" + Backslashes(0) + a[1..] == text + Backslashes(held) + a;
    } else {
      var tail := Body(a[1..], 0) + t;
      assert Body(a, held) + t == Backslashes(held) + ([a[0]] + tail);
      BackslashesParse(held, [a[0]] + tail, true, 0, text);
      assert ([a[0]] + tail)[1..] == tail;
      BodyParses(a[1..], 0, t, text + Backslashes(held) + [a[0]]);
      assert text + Backslashes(held) + [a[0]] + Backslashes(0) + a[1..] == text + Backslashes(held) + a;
    }
  }

  lemma EndOfArgument(t: string, text: string)
    requires Delimited(t)
    ensures ParseArgument(t, false, 0, text) == Finish(t, text)
  {
    assert text + Backslashes(0) == text;
  }

  lemma {:induction false} PlainParses(a: string, held: nat, t: string, text: string)
    requires NulFree(a) && Delimited(t)
    requires forall i | 0 <= i < |a| :: !Blank(a[i]) && a[i] != '"'
    ensures ParseArgument(a + t, false, held, text) == Finish(t, text + Backslashes(held) + a)
    decreases |a|
  {
    if a == "" {
      assert a + t == t && text + Backslashes(held) + a == text + Backslashes(held);
    } else {
      assert (a + t)[1..] == a[1..] + t;
      if a[0] == '\\' {
        PlainParses(a[1..], held + 1, t, text);
        assert text + Backslashes(held + 1) + a[1..] == text + Backslashes(held) + a;
      } else {
        PlainParses(a[1..], 0, t, text + Backslashes(held) + [a[0]]);
        assert text + Backslashes(held) + [a[0]] + Backslashes(0) + a[1..] == text + Backslashes(held) + a;
      }
    }
  }

  /** A quoted argument between blanks parses to the argument, empty ones and backslash runs included. */
  lemma QuoteParses(a: string, t: string)
    requires NulFree(a) && Delimited(t)
    ensures ParseArguments(Quote(a) + t) == Finish(t, a)
  {
    assert "" + Backslashes(0) + a == a;
    if NeedsQuotes(a) {
      var s := Quote(a) + t;
      assert s[1..] == Body(a, 0) + t;
      hide Body, Finish, Delimited, Quote, NeedsQuotes, ParseArguments;
      var inner := s[1..];
      BodyParses(a, 0, t, "");
      assert ParseArgument(s, false, 0, "") == ParseArgument(inner, true, 0, "" + Backslashes(0));
      assert "" + Backslashes(0) == "";
    } else {
      PlainParses(a, 0, t, "");
      assert (a + t)[0] == a[0] && a[0] in a;
    }
  }

  // ----- the whole command line -----

  lemma FurtherIsDelimited(args: seq<string>)
    ensures Delimited(Further(args))
  {
  }

  /** Joining the quoted forms with spaces and parsing returns the arguments. */
  lemma {:induction false} FurtherParses(args: seq<string>)
    requires forall i | 0 <= i < |args| :: NulFree(args[i])
    ensures ParseArguments(Further(args)) == args
  {
    hide Quote;
    if args != [] {
      var t := Further(args[1..]);
      FurtherIsDelimited(args[1..]);
      assert Further(args)[1..] == Quote(args[0]) + t;
      QuoteParses(args[0], t);
      FurtherParses(args[1..]);
      assert t != "" ==> t[0] == ' ';
      assert args == [args[0]] + args[1..];
    }
  }

  /** The program name comes through exactly under this condition. */
  predicate ProgramSurvives(p: string) {
    '"' !in p && (NeedsQuotes(p) && p != "" ==> p[|p| - 1] != '\\')
  }

  /** Without quotes in it, a body is the text itself, its trailing backslashes doubled, and a quote. */
  lemma {:induction false} BodyWithoutQuotes(a: string, held: nat) returns (n: nat)
    requires '"' !in a
    ensures Body(a, held) == Backslashes(held) + a + Backslashes(n) + "\""
    ensures n == 0 <==> if a == "" then held == 0 else a[|a| - 1] != '\\'
    decreases |a|
  {
    if a == "" {
      n := held;
    } else if a[0] == '\\' {
      n := BodyWithoutQuotes(a[1..], held + 1);
      assert Backslashes(held + 1) + a[1..] == Backslashes(held) + a;
    } else {
      n := BodyWithoutQuotes(a[1..], 0);
      assert Backslashes(held) + [a[0]] + (Backslashes(0) + a[1..] + Backslashes(n) + "\"")
          == Backslashes(held) + a + Backslashes(n) + "\"";
    }
  }

  lemma {:induction false} ProgramTextParses(a: string, quoted: bool, t: string, text: string)
    requires NulFree(a) && '"' !in a && (quoted || forall i | 0 <= i < |a| :: !Blank(a[i]))
    ensures ParseProgram(a + t, quoted, text) == ParseProgram(t, quoted, text + a)
    decreases |a|
  {
    if a == "" {
      assert a + t == t && text + a == text;
    } else {
      assert (a + t)[1..] == a[1..] + t;
      assert a[0] in a;
      ProgramTextParses(a[1..], quoted, t, text + [a[0]]);
      assert text + [a[0]] + a[1..] == text + a;
    }
  }

  /** A program name without quotes parses to itself and the doubled part of its trailing backslashes. */
  lemma QuotedProgramParses(p: string, t: string) returns (n: nat)
    requires p != "" && NulFree(p) && '"' !in p && Delimited(t)
    ensures ParseProgram(Quote(p) + t, false, "") == Program(p + Backslashes(n), t)
    ensures n == 0 <==> ProgramSurvives(p)
  {
    hide ParseProgram;
    hide Body;
    if NeedsQuotes(p) {
      hide NeedsQuotes;
      n := BodyWithoutQuotes(p, 0);
      assert Backslashes(0) + p == p;
      QuotedTextParses(p + Backslashes(n), t);
      assert Quote(p) + t == "\"" + (p + Backslashes(n)) + "\"" + t;
    } else {
      n := 0;
      PlainProgramParses(p, t);
      assert p + Backslashes(0) == p;
    }
  }

  lemma PlainProgramParses(p: string, t: string)
    requires NulFree(p) && !NeedsQuotes(p) && Delimited(t)
    ensures ParseProgram(p + t, false, "") == Program(p, t)
  {
    ProgramTextParses(p, false, t, "");
    assert "" + p == p;
  }

  lemma QuotedTextParses(inner: string, t: string)
    requires NulFree(inner) && '"' !in inner && Delimited(t)
    ensures ParseProgram("\"" + inner + "\"" + t, false, "") == Program(inner, t)
  {
    var s := "\"" + inner + "\"" + t;
    assert s[1..] == inner + ("\"" + t);
    ProgramTextParses(inner, true, "\"" + t, "");
    assert "" + inner == inner;
    assert ("\"" + t)[1..] == t;
  }

  lemma {:induction false} ProgramHasNoQuote(s: string, quoted: bool, text: string)
    requires '"' !in text && NulFree(text)
    ensures '"' !in ParseProgram(s, quoted, text).name && NulFree(ParseProgram(s, quoted, text).name)
    decreases |s|
  {
    if AtEnd(s) || (Blank(s[0]) && !quoted) {
    } else if s[0] == '"' {
      ProgramHasNoQuote(s[1..], !quoted, text);
    } else {
      ProgramHasNoQuote(s[1..], quoted, text + [s[0]]);
    }
  }

  ghost predicate AllNulFree(args: seq<string>) {
    forall i | 0 <= i < |args| :: NulFree(args[i])
  }

  lemma {:induction false} ParsedIsNulFree(s: string)
    ensures AllNulFree(ParseArguments(s))
    decreases |s|, 1
  {
    if AtEnd(s) {
    } else if Blank(s[0]) {
      ParsedIsNulFree(s[1..]);
    } else {
      ParsedArgumentIsNulFree(s, false, 0, "");
    }
  }

  lemma {:induction false} ParsedArgumentIsNulFree(s: string, quoted: bool, held: nat, text: string)
    requires NulFree(text)
    ensures AllNulFree(ParseArgument(s, quoted, held, text))
    decreases |s|, 0
  {
    assert NulFree(text + Backslashes(held)) && NulFree(text + Backslashes(held / 2) + "\"");
    if AtEnd(s) {
    } else if s[0] == '\\' {
      ParsedArgumentIsNulFree(s[1..], quoted, held + 1, text);
    } else if s[0] == '"' {
      if held % 2 == 1 {
        ParsedArgumentIsNulFree(s[1..], quoted, 0, text + Backslashes(held / 2) + "\"");
      } else if quoted && |s| > 1 && s[1] == '"' {
        ParsedArgumentIsNulFree(s[2..], true, 0, text + Backslashes(held / 2) + "\"");
      } else {
        ParsedArgumentIsNulFree(s[1..], !quoted, 0, text + Backslashes(held / 2));
      }
    } else if Blank(s[0]) && !quoted {
      ParsedIsNulFree(s[1..]);
    } else {
      ParsedArgumentIsNulFree(s[1..], quoted, 0, text + Backslashes(held) + [s[0]]);
    }
  }

  /**
   * The child sees the argument vector it was given exactly when no argument holds a NUL and the
   * program name holds no quote and, if it holds a blank, does not end in a backslash.
   */
  lemma CommandLineRoundTrip(argv: seq<string>)
    requires argv != [] && argv[0] != ""
    ensures ParseCommandLine(CommandLine(argv)) == argv <==> AllNulFree(argv) && ProgramSurvives(argv[0])
  {
    var line := CommandLine(argv);
    var p := ParseProgram(line, false, "");
    var parsed := ParseCommandLine(line);
    ProgramHasNoQuote(line, false, "");
    ParsedIsNulFree(p.rest);
    assert AllNulFree(parsed);
    if NulFree(argv[0]) && '"' !in argv[0] {
      FurtherIsDelimited(argv[1..]);
      var n := QuotedProgramParses(argv[0], Further(argv[1..]));
      assert p == Program(argv[0] + Backslashes(n), Further(argv[1..]));
      assert |p.name| == |argv[0]| + n;
      assert parsed[0] == p.name;
      if AllNulFree(argv) && ProgramSurvives(argv[0]) {
        FurtherParses(argv[1..]);
        assert argv[0] + Backslashes(0) == argv[0];
        assert argv == [argv[0]] + argv[1..];
      }
    } else {
      assert parsed[0] == p.name;
    }
  }

  /** `a b\` reaches the child with its backslash doubled, and `a"b` with a backslash for its quote. */
  lemma ProgramsThatChange()
    ensures ParseCommandLine(CommandLine(["a b\\"])) == ["a b\\\\"]
    ensures ParseCommandLine(CommandLine(["a\"b"])) == ["a\\b"]
  {
    TrailingBackslash();
    QuoteInside();
  }

  lemma TrailingBackslash()
    ensures ParseCommandLine(CommandLine(["a b\\"])) == ["a b\\\\"]
  {
    var p := "a b\\";
    assert p[1] == ' ';
    assert p[1..] == " b\\" && " b\\"[1..] == "b\\" && "b\\"[1..] == "\\" && "\\"[1..] == "";
    assert Body("\\", 0) == Backslashes(2) + "\"" == "\\\\\"";
    assert Body("b\\", 0) == "b\\\\\"";
    assert Quote(p) == "\"a b\\\\\"";
    var inner := "a b\\\\";
    assert CommandLine([p]) == "\"" + inner + "\"" + "";
    QuotedTextParses(inner, "");
  }

  lemma QuoteInside()
    ensures ParseCommandLine(CommandLine(["a\"b"])) == ["a\\b"]
  {
    hide Quote;
    hide ParseProgram;
    QuoteIsEscaped();
    EscapedQuoteToggles();
    assert CommandLine(["a\"b"]) == Quote("a\"b") + "" == "\"a\\\"b\"";
  }

  lemma QuoteIsEscaped()
    ensures Quote("a\"b") == "\"a\\\"b\""
  {
    var p := "a\"b";
    assert p[1] == '"';
    assert p[1..] == "\"b" && "\"b"[1..] == "b" && "b"[1..] == "";
    assert Body("b", 0) == "b\"";
    assert Body("\"b", 0) == "\\\"b\"";
  }

  /** To the rules for the first argument a backslash is just a character, and the quote behind it a quote. */
  lemma EscapedQuoteToggles()
    ensures ParseProgram("\"a\\\"b\"", false, "") == Program("a\\b", "")
  {
    hide ParseProgram;
    ProgramStep("\"a\\\"b\"", false, "");
    assert "\"a\\\"b\""[1..] == "a\\\"b\"";
    ProgramStep("a\\\"b\"", true, "");
    assert "a\\\"b\""[1..] == "\\\"b\"" && "" + ['a'] == "a";
    ProgramStep("\\\"b\"", true, "a");
    assert "\\\"b\""[1..] == "\"b\"" && "a" + ['\\'] == "a\\";
    ProgramStep("\"b\"", true, "a\\");
    assert "\"b\""[1..] == "b\"";
    ProgramStep("b\"", false, "a\\");
    assert "b\""[1..] == "\"" && "a\\" + ['b'] == "a\\b";
    ProgramStep("\"", false, "a\\b");
    assert "\""[1..] == "";
    ProgramStep("", true, "a\\b");
  }

  lemma ProgramStep(s: string, quoted: bool, text: string)
    ensures ParseProgram(s, quoted, text)
         == if AtEnd(s) || (Blank(s[0]) && !quoted) then Program(text, s)
            else if s[0] == '"' then ParseProgram(s[1..], !quoted, text)
            else ParseProgram(s[1..], quoted, text + [s[0]])
  {
  }
}
