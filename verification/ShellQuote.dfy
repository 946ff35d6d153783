/** Word splitting of one simple command line, after sections 2.2.1 (escape character), 2.2.2 (single
    quotes) and 2.3 (token recognition) of the POSIX.1-2017 Shell Command Language. It is deliberately
    strict: every unquoted character that could start an expansion, an operator, a pattern, a comment or
    a second command is refused, so a line it accepts means the same words to any such shell. */
module PosixWords {
  import opened Collections

  datatype Mode = Plain | Escaped | Quoted

  datatype Reader =
    | Reading(words: seq<string>, word: Option<string>, mode: Mode)
    | Refused

  /** Characters that must be quoted to stand for themselves (section 2.2), plus the unquoted newline
      that would end the command. Single quote, backslash, space and tab are handled on their own. */
  predicate IsSpecial(c: char) {
    c in "|&;<>()$`\"\n*?[#~%"
  }

  function Extend(word: Option<string>, c: char): Option<string> {
    Some((if word.Some? then word.value else "") + [c])
  }

  function Finish(words: seq<string>, word: Option<string>): seq<string> {
    if word.Some? then words + [word.value] else words
  }

  function Step(r: Reader, c: char): Reader {
    match r
    case Refused => Refused
    case Reading(words, word, Quoted) =>
      if c == '\'' then Reading(words, word, Plain) else Reading(words, Extend(word, c), Quoted)
    case Reading(words, word, Escaped) =>
      // An escaped newline is a line continuation and leaves nothing behind.
      if c == '\n' then Reading(words, word, Plain) else Reading(words, Extend(word, c), Plain)
    case Reading(words, word, Plain) =>
      if c == '\'' then Reading(words, Some(if word.Some? then word.value else ""), Quoted)
      else if c == '\\' then Reading(words, word, Escaped)
      else if c == ' ' || c == '\t' then Reading(Finish(words, word), None, Plain)
      else if IsSpecial(c) || (c == '=' && words == []) then Refused // '=' before the command name assigns
      else Reading(words, Extend(word, c), Plain)
  }

  function Read(r: Reader, line: string): Reader
    decreases |line|
  {
    if line == [] then r else Read(Step(r, line[0]), line[1..])
  }

  /** The words of a line, or `None` when it is refused or a quote or escape is left open. */
  function WordsOf(line: string): Option<seq<string>> {
    match Read(Reading([], None, Plain), line)
    case Reading(words, word, Plain) => Some(Finish(words, word))
    case _ => None
  }

  lemma {:induction false} ReadConcat(r: Reader, a: string, b: string)
    ensures Read(r, a + b) == Read(Read(r, a), b)
    decreases |a|
  {
    if a == [] {
      assert a + b == b;
    } else {
      assert (a + b)[1..] == a[1..] + b;
      ReadConcat(Step(r, a[0]), a[1..], b);
    }
  }
}

/** The command line that re-runs a supervised campaign (runner/cli/main.ts). */
module ShellQuote {
  import opened Collections
  import opened PosixWords

  /** The fixed head of the line. */
  const PREFIX := "bun " + "run.ts " + "supervise "

  predicate IsBareSafe(c: char) {
    'A' <= c <= 'Z' || 'a' <= c <= 'z' || '0' <= c <= '9' || c in "_./:=,-"
  }

  function EscapeQuotes(token: string): string {
    if token == [] then []
    else (if token[0] == '\'' then "'\\''" else [token[0]]) + EscapeQuotes(token[1..])
  }

  function QuoteShellArg(token: string): string {
    if token != [] && forall i :: 0 <= i < |token| ==> IsBareSafe(token[i]) then token
    else "'" + EscapeQuotes(token) + "'"
  }

  /** `map(quoteShellArg).join(' ')` */
  function JoinQuoted(argv: seq<string>): string {
    if argv == [] then []
    else if |argv| == 1 then QuoteShellArg(argv[0])
    else QuoteShellArg(argv[0]) + " " + JoinQuoted(argv[1..])
  }

  function RenderRerunCommand(argv: seq<string>): string {
    PREFIX + JoinQuoted(argv)
  }

  /** An argument of letters, digits and the listed marks is left as it is; any other is put in single quotes. */
  lemma OnlyOthersAreQuoted(token: string)
    ensures QuoteShellArg(token) == token <==>
              token != "" && forall i :: 0 <= i < |token| ==>
                'A' <= token[i] <= 'Z' || 'a' <= token[i] <= 'z' || '0' <= token[i] <= '9'
                || token[i] in ['_', '.', '/', ':', '=', ',', '-']
  {
    EscapingOnlyAdds(token);
  }

  lemma {:induction false} EscapingOnlyAdds(token: string)
    ensures |EscapeQuotes(token)| >= |token|
  {
    if token != [] {
      EscapingOnlyAdds(token[1..]);
    }
  }

  /** Inside single quotes the escaped text reads as the token itself, whatever it holds. */
  lemma {:induction false} EscapedTextReads(words: seq<string>, sofar: string, token: string)
    ensures Read(Reading(words, Some(sofar), Quoted), EscapeQuotes(token))
            == Reading(words, Some(sofar + token), Quoted)
    decreases |token|
  {
    var r := Reading(words, Some(sofar), Quoted);
    if token == [] {
      assert sofar + token == sofar;
    } else {
      var c := token[0];
      var first := if c == '\'' then "'\\''" else [c];
      ReadConcat(r, first, EscapeQuotes(token[1..]));
      var next := Reading(words, Some(sofar + [c]), Quoted);
      if c == '\'' {
        EscapedQuoteReads(words, sofar);
      } else {
        assert first[1..] == [];
        assert Read(r, first) == Read(Step(r, c), []);
      }
      EscapedTextReads(words, sofar + [c], token[1..]);
      assert (sofar + [c]) + token[1..] == sofar + token;
    }
  }

  /** Close the quotes, escape one quote, open them again. */
  lemma EscapedQuoteReads(words: seq<string>, sofar: string)
    ensures Read(Reading(words, Some(sofar), Quoted), "'\\''") == Reading(words, Some(sofar + "'"), Quoted)
  {
    var r0 := Reading(words, Some(sofar), Quoted);
    var r1 := Reading(words, Some(sofar), Plain);
    var r2 := Reading(words, Some(sofar), Escaped);
    var r3 := Reading(words, Some(sofar + "'"), Plain);
    var line := "'\\''";
    assert line[1..][1..][1..][1..] == [];
    assert Step(r0, line[0]) == r1 && Step(r1, line[1]) == r2 && Step(r2, line[2]) == r3;
    assert Step(r3, line[3]) == Reading(words, Some(sofar + "'"), Quoted);
    assert Read(r3, line[1..][1..][1..]) == Reading(words, Some(sofar + "'"), Quoted);
    assert Read(r2, line[1..][1..]) == Read(r3, line[1..][1..][1..]);
    assert Read(r1, line[1..]) == Read(r2, line[1..][1..]);
  }

  /** May `c` stand unquoted in a word, given the words before it? */
  predicate StandsBare(words: seq<string>, c: char) {
    IsBareSafe(c) && (words != [] || c != '=')
  }

  lemma BareStep(words: seq<string>, word: Option<string>, c: char)
    requires StandsBare(words, c)
    ensures Step(Reading(words, word, Plain), c) == Reading(words, Extend(word, c), Plain)
  {
  }

  /** Bare-safe text reads as itself. */
  lemma {:induction false} BareTextReads(words: seq<string>, sofar: string, text: string)
    requires forall i :: 0 <= i < |text| ==> StandsBare(words, text[i])
    ensures Read(Reading(words, Some(sofar), Plain), text) == Reading(words, Some(sofar + text), Plain)
    decreases |text|
  {
    hide StandsBare, Step;
    if text == [] {
      assert sofar + text == sofar;
    } else {
      BareStep(words, Some(sofar), text[0]);
      BareTextReads(words, sofar + [text[0]], text[1..]);
      assert (sofar + [text[0]]) + text[1..] == sofar + text;
    }
  }

  lemma BareWordReads(words: seq<string>, text: string)
    requires text != [] && forall i :: 0 <= i < |text| ==> StandsBare(words, text[i])
    ensures Read(Reading(words, None, Plain), text) == Reading(words, Some(text), Plain)
  {
    hide StandsBare, Step;
    BareStep(words, None, text[0]);
    assert "" + [text[0]] == [text[0]];
    BareTextReads(words, [text[0]], text[1..]);
    assert [text[0]] + text[1..] == text;
  }

  /** A quoted argument reads as exactly one word, equal to the argument. */
  lemma QuotedArgReads(words: seq<string>, token: string)
    requires words != []
    ensures Read(Reading(words, None, Plain), QuoteShellArg(token)) == Reading(words, Some(token), Plain)
  {
    var start := Reading(words, None, Plain);
    if token != [] && forall i :: 0 <= i < |token| ==> IsBareSafe(token[i]) {
      BareWordReads(words, token);
    } else {
      var inside := Reading(words, Some(token), Quoted);
      assert QuoteShellArg(token) == ("'" + EscapeQuotes(token)) + "'";
      ReadConcat(start, "'" + EscapeQuotes(token), "'");
      ReadConcat(start, "'", EscapeQuotes(token));
      ReadOne(start, '\'');
      EscapedTextReads(words, "", token);
      assert "" + token == token;
      ReadOne(inside, '\'');
    }
  }

  lemma ReadOne(r: Reader, c: char)
    ensures Read(r, [c]) == Step(r, c)
  {
    assert [c][1..] == [];
  }

  lemma ArgAndBlankRead(words: seq<string>, token: string)
    requires words != []
    ensures Read(Reading(words, None, Plain), QuoteShellArg(token) + " ") == Reading(words + [token], None, Plain)
  {
    hide QuoteShellArg;
    QuotedArgReads(words, token);
    ReadConcat(Reading(words, None, Plain), QuoteShellArg(token), " ");
    ReadOne(Reading(words, Some(token), Plain), ' ');
  }

  lemma {:induction false} JoinedArgsRead(words: seq<string>, argv: seq<string>)
    requires words != []
    ensures var r := Read(Reading(words, None, Plain), JoinQuoted(argv));
      r.Reading? && r.mode == Plain && Finish(r.words, r.word) == words + argv
    decreases |argv|
  {
    hide Step, QuoteShellArg;
    var start := Reading(words, None, Plain);
    if argv == [] {
      assert words + argv == words;
    } else if |argv| == 1 {
      QuotedArgReads(words, argv[0]);
      assert argv == [argv[0]];
    } else {
      ArgAndBlankRead(words, argv[0]);
      ReadConcat(start, QuoteShellArg(argv[0]) + " ", JoinQuoted(argv[1..]));
      JoinedArgsRead(words + [argv[0]], argv[1..]);
      assert (words + [argv[0]]) + argv[1..] == words + argv;
    }
  }

  lemma BunReads()
    ensures Read(Reading([], None, Plain), "bun ") == Reading(["bun"], None, Plain)
  {
    assert "bun" + " " == "bun ";
    WordReads([], "bun");
  }

  lemma RunReads()
    ensures Read(Reading(["bun"], None, Plain), "run.ts ") == Reading(["bun", "run.ts"], None, Plain)
  {
    assert "run.ts" + " " == "run.ts ";
    WordReads(["bun"], "run.ts");
    assert ["bun"] + ["run.ts"] == ["bun", "run.ts"];
  }

  lemma SuperviseReads()
    ensures Read(Reading(["bun", "run.ts"], None, Plain), "supervise ")
            == Reading(["bun", "run.ts", "supervise"], None, Plain)
  {
    assert "supervise" + " " == "supervise ";
    WordReads(["bun", "run.ts"], "supervise");
    assert ["bun", "run.ts"] + ["supervise"] == ["bun", "run.ts", "supervise"];
  }

  lemma PrefixReads()
    ensures Read(Reading([], None, Plain), PREFIX) == Reading(["bun", "run.ts", "supervise"], None, Plain)
  {
    hide Step, Read;
    var r := Reading([], None, Plain);
    BunReads();
    RunReads();
    SuperviseReads();
    ReadConcat(r, "bun " + "run.ts ", "supervise ");
    ReadConcat(r, "bun ", "run.ts ");
  }

  lemma WordReads(words: seq<string>, text: string)
    requires text != [] && forall i :: 0 <= i < |text| ==> StandsBare(words, text[i])
    ensures Read(Reading(words, None, Plain), text + " ") == Reading(words + [text], None, Plain)
  {
    ReadConcat(Reading(words, None, Plain), text, " ");
    BareWordReads(words, text);
    ReadOne(Reading(words, Some(text), Plain), ' ');
  }

  /** Read back by a POSIX shell, the re-run line is the fixed command followed by exactly the original
      arguments: empty ones, spaces, newlines, quotes and every special character included. */
  lemma RerunCommandReadsBack(argv: seq<string>)
    ensures WordsOf(RenderRerunCommand(argv)) == Some(["bun", "run.ts", "supervise"] + argv)
  {
    PrefixReads();
    ReadConcat(Reading([], None, Plain), PREFIX, JoinQuoted(argv));
    JoinedArgsRead(["bun", "run.ts", "supervise"], argv);
  }
}
