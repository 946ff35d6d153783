/** The quote-aware tokenizer in front of the merge gate (runner/core/merge-gate.ts). */
module ShellTokens {
  import opened Collections
  import opened JsText
  import opened WrittenWords

  /** The variables of the tokenizer's loop. */
  datatype Lexer = Lexer(
    subcommands: seq<seq<string>>, tokens: seq<string>, token: string, hasToken: bool, quote: Option<char>)

  const START := Lexer([], [], "", false, None)

  function FlushToken(l: Lexer): Lexer {
    if l.hasToken then l.(tokens := l.tokens + [l.token], token := "", hasToken := false) else l
  }

  function FlushSubcommand(l: Lexer): Lexer {
    var f := FlushToken(l);
    f.(subcommands := if |f.tokens| > 0 then f.subcommands + [f.tokens] else f.subcommands, tokens := [])
  }

  predicate DoubleOperator(s: string) {
    |s| >= 2 && ((s[0] == '&' && s[1] == '&') || (s[0] == '|' && s[1] == '|'))
  }

  /** One turn of the loop on the rest of the command: the new variables and how far `i` moves. */
  function Advance(l: Lexer, s: string): (r: (Lexer, nat))
    requires s != []
    ensures 1 <= r.1 <= |s|
  {
    var ch := s[0];
    if l.quote.Some? then
      (if ch == l.quote.value then l.(quote := None) else l.(token := l.token + [ch], hasToken := true), 1)
    else if IsQuote(ch) then
      (l.(quote := Some(ch), hasToken := true), 1)
    else if DoubleOperator(s) then
      (FlushSubcommand(l), 2)
    else if ch == ';' || ch == '|' || ch == '\n' then
      (FlushSubcommand(l), 1)
    else if IsSpace(ch) then
      (FlushToken(l), 1)
    else
      (l.(token := l.token + [ch], hasToken := true), 1)
  }

  function Lex(l: Lexer, s: string): seq<seq<string>>
    decreases |s|
  {
    if s == [] then FlushSubcommand(l).subcommands
    else
      var (next, n) := Advance(l, s);
      Lex(next, s[n..])
  }

  lemma LexStep(l: Lexer, s: string)
    requires s != ""
    ensures Lex(l, s) == Lex(Advance(l, s).0, s[Advance(l, s).1..])
  {
    hide Advance;
  }

  lemma LexEnd(l: Lexer)
    ensures Lex(l, "") == FlushSubcommand(l).subcommands
  {
  }

  method TokenizeShellCommand(command: string) returns (subcommands: seq<seq<string>>)
    ensures subcommands == Lex(START, command)
  {
    subcommands := [];
    var currentTokens: seq<string>, currentToken: string, hasToken, quote: Option<char> := [], "", false, None;
    var i := 0;
    hide Lex, IsSpace;
    while i < |command|
      invariant 0 <= i <= |command|
      invariant Lex(Lexer(subcommands, currentTokens, currentToken, hasToken, quote), command[i..]) == Lex(START, command)
    {
      ghost var l := Lexer(subcommands, currentTokens, currentToken, hasToken, quote);
      ghost var from := i;
      var ch := command[i];
      if quote.Some? {
        if ch == quote.value {
          quote := None;
        } else {
          currentToken, hasToken := currentToken + [ch], true;
        }
        i := i + 1;
      } else if IsQuote(ch) {
        quote, hasToken := Some(ch), true;
        i := i + 1;
      } else if i + 1 < |command| && ((ch == '&' && command[i + 1] == '&') || (ch == '|' && command[i + 1] == '|')) {
        currentTokens, currentToken, hasToken := Flush(currentTokens, currentToken, hasToken);
        subcommands := if |currentTokens| > 0 then subcommands + [currentTokens] else subcommands;
        currentTokens := [];
        i := i + 2;
      } else if ch == ';' || ch == '|' || ch == '\n' {
        currentTokens, currentToken, hasToken := Flush(currentTokens, currentToken, hasToken);
        subcommands := if |currentTokens| > 0 then subcommands + [currentTokens] else subcommands;
        currentTokens := [];
        i := i + 1;
      } else if IsSpace(ch) {
        currentTokens, currentToken, hasToken := Flush(currentTokens, currentToken, hasToken);
        i := i + 1;
      } else {
        currentToken, hasToken := currentToken + [ch], true;
        i := i + 1;
      }
      assert Advance(l, command[from..]) ==
             (Lexer(subcommands, currentTokens, currentToken, hasToken, quote), i - from);
      assert command[from..][i - from..] == command[i..];
      LexStep(l, command[from..]);
    }
    assert command[i..] == "";
    LexEnd(Lexer(subcommands, currentTokens, currentToken, hasToken, quote));
    ghost var last := Lexer(subcommands, currentTokens, currentToken, hasToken, quote);
    currentTokens, currentToken, hasToken := Flush(currentTokens, currentToken, hasToken);
    subcommands := if |currentTokens| > 0 then subcommands + [currentTokens] else subcommands;
    assert subcommands == FlushSubcommand(last).subcommands;
  }

  method Flush(tokens: seq<string>, token: string, hasToken: bool) returns (ts: seq<string>, t: string, has: bool)
    ensures forall subs, q :: Lexer(subs, ts, t, has, q) == FlushToken(Lexer(subs, tokens, token, hasToken, q))
  {
    if hasToken {
      return tokens + [token], "", false;
    }
    return tokens, token, hasToken;
  }

  // ----- round trip

  /** What a bare stretch may hold: no quote, no space, no operator. A single `&` is none. */
  predicate IsBare(text: string) {
    forall i :: 0 <= i < |text| ==> IsBareAt(text, i)
  }

  predicate IsBareAt(text: string, i: nat)
    requires i < |text|
  {
    && !IsQuote(text[i]) && !IsSpace(text[i]) && text[i] != ';' && text[i] != '|'
    && (text[i] == '&' ==> i + 1 < |text| && text[i + 1] != '&')
  }

  predicate IsPiece(p: Piece) {
    if p.Bare? then p.text != "" && IsBare(p.text) else IsQuoted(p)
  }

  predicate IsWord(w: Word) {
    w != [] && forall i :: 0 <= i < |w| ==> IsPiece(w[i])
  }

  /** Space within a subcommand; a newline would end it. */
  predicate IsGap(gap: string) {
    forall i :: 0 <= i < |gap| ==> IsSpace(gap[i]) && gap[i] != '\n'
  }

  predicate IsPhrase(p: Phrase) {
    && IsGap(p.lead) && AreApart(p.words)
    && forall i :: 0 <= i < |p.words| ==> IsWord(p.words[i].word) && IsGap(p.words[i].gap)
  }

  datatype Separator = AndIf | OrIf | Semicolon | Pipe | Newline

  function SeparatorText(sep: Separator): string {
    match sep
    case AndIf => "&&"
    case OrIf => "||"
    case Semicolon => ";"
    case Pipe => "|"
    case Newline => "\n"
  }

  /** The phrases one after the other, each followed by a separator but the last. */
  function LineText(phrases: seq<Phrase>, seps: seq<Separator>): string
    requires |phrases| == |seps| + 1
  {
    if |phrases| == 1 then PhraseText(phrases[0])
    else PhraseText(phrases[0]) + (SeparatorText(seps[0]) + LineText(phrases[1..], seps[1..]))
  }

  /** The subcommands a line means; a phrase without words is none. */
  function Subcommands(phrases: seq<Phrase>): (subs: seq<seq<string>>) {
    if phrases == [] then []
    else (if phrases[0].words == [] then [] else [Meanings(phrases[0].words)]) + Subcommands(phrases[1..])
  }

  lemma {:induction false} LexInsideQuotes(l: Lexer, body: string, rest: string)
    requires l.quote.Some? && l.quote.value !in body && l.hasToken
    ensures Lex(l, body + [l.quote.value] + rest) == Lex(l.(quote := None, token := l.token + body), rest)
    decreases |body|
  {
    var s := body + [l.quote.value] + rest;
    if body == [] {
      assert s[1..] == rest;
      assert l.token + body == l.token;
    } else {
      assert s[0] == body[0] && s[1..] == body[1..] + [l.quote.value] + rest;
      LexInsideQuotes(l.(token := l.token + [body[0]]), body[1..], rest);
      assert l.token + [body[0]] + body[1..] == l.token + body;
    }
  }

  /** A quoted stretch goes to the end of the token under way. */
  lemma LexQuoted(l: Lexer, p: Piece, rest: string)
    requires l.quote.None? && IsQuoted(p)
    ensures Lex(l, PieceText(p) + rest) == Lex(l.(token := l.token + p.text, hasToken := true), rest)
  {
    assert (PieceText(p) + rest)[1..] == p.text + [p.quote] + rest;
    LexInsideQuotes(l.(quote := Some(p.quote), hasToken := true), p.text, rest);
  }

  lemma LexBareChar(l: Lexer, s: string)
    requires l.quote.None? && s != "" && !IsQuote(s[0]) && !IsSpace(s[0]) && s[0] != ';' && s[0] != '|'
    requires s[0] == '&' ==> |s| > 1 && s[1] != '&'
    ensures Lex(l, s) == Lex(l.(token := l.token + [s[0]], hasToken := true), s[1..])
  {
    assert Advance(l, s) == (l.(token := l.token + [s[0]], hasToken := true), 1) by {
      hide Lex;
    }
    hide Advance;
  }

  lemma RestIsBare(text: string)
    requires text != "" && IsBare(text)
    ensures IsBare(text[1..])
  {
    hide IsSpace, IsQuote;
    forall i | 0 <= i < |text[1..]| ensures IsBareAt(text[1..], i) {
      assert IsBareAt(text, i + 1);
    }
  }

  /** So does a bare one, character by character. */
  lemma {:induction false} LexBare(l: Lexer, text: string, rest: string)
    requires l.quote.None? && IsBare(text) && text != ""
    ensures Lex(l, text + rest) == Lex(l.(token := l.token + text, hasToken := true), rest)
    decreases |text|
  {
    var s := text + rest;
    assert s[0] == text[0] && s[1..] == text[1..] + rest;
    assert IsBareAt(text, 0) && (|text| > 1 ==> s[1] == text[1]);
    LexBareChar(l, s);
    RestIsBare(text);
    hide Lex, IsBare;
    var next := l.(token := l.token + [text[0]], hasToken := true);
    if |text| == 1 {
      assert text[1..] + rest == rest && [text[0]] == text;
    } else {
      LexBare(next, text[1..], rest);
      assert l.token + [text[0]] + text[1..] == l.token + text;
    }
  }

  lemma LexPiece(l: Lexer, p: Piece, rest: string)
    requires l.quote.None? && IsPiece(p)
    ensures Lex(l, PieceText(p) + rest) == Lex(l.(token := l.token + p.text, hasToken := true), rest)
  {
    hide Lex;
    if p.Bare? {
      LexBare(l, p.text, rest);
    } else {
      LexQuoted(l, p, rest);
    }
  }

  /** A word becomes one token, the stretches joined. */
  lemma {:induction false} LexWord(l: Lexer, w: Word, rest: string)
    requires l.quote.None? && IsWord(w)
    ensures Lex(l, WordText(w) + rest) == Lex(l.(token := l.token + Meaning(w), hasToken := true), rest)
    decreases |w|
  {
    hide Lex, IsPiece, PieceText;
    AppendIsAssociative(PieceText(w[0]), WordText(w[1..]), rest);
    LexPiece(l, w[0], WordText(w[1..]) + rest);
    var next := l.(token := l.token + w[0].text, hasToken := true);
    AppendIsAssociative(l.token, w[0].text, Meaning(w[1..]));
    if |w| == 1 {
      assert w[1..] == [] && WordText(w[1..]) + rest == rest;
      assert next.token + "" == next.token;
    } else {
      LexWord(next, w[1..], rest);
    }
  }

  /** Space ends the token under way. */
  lemma {:induction false} LexGap(l: Lexer, gap: string, rest: string)
    requires l.quote.None? && IsGap(gap)
    ensures Lex(l, gap + rest) == Lex(if gap == "" then l else FlushToken(l), rest)
    decreases |gap|
  {
    var s := gap + rest;
    if gap == "" {
      assert s == rest;
    } else {
      assert s[0] == gap[0] && s[1..] == gap[1..] + rest;
      SpaceIsNoOperator(s);
      LexGap(FlushToken(l), gap[1..], rest);
    }
  }

  lemma SpaceIsNoOperator(s: string)
    requires s != "" && IsSpace(s[0])
    ensures !DoubleOperator(s) && !IsQuote(s[0]) && s[0] != ';' && s[0] != '|'
  {
  }

  /** The loop's variables after one written word, and after all. */
  function AfterWord(l: Lexer, w: Spaced): Lexer {
    var read := l.(token := Meaning(w.word), hasToken := true);
    if w.gap == "" then read else FlushToken(read)
  }

  function AfterWords(l: Lexer, words: seq<Spaced>): Lexer
    decreases |words|
  {
    if words == [] then l else AfterWords(AfterWord(l, words[0]), words[1..])
  }

  predicate Between(l: Lexer) {
    l.quote.None? && !l.hasToken && l.token == ""
  }

  lemma {:induction false} LexWords(l: Lexer, words: seq<Spaced>, rest: string)
    requires Between(l) && AreApart(words)
    requires forall i :: 0 <= i < |words| ==> IsWord(words[i].word) && IsGap(words[i].gap)
    ensures Lex(l, WordsText(words) + rest) == Lex(AfterWords(l, words), rest)
    decreases |words|
  {
    hide Lex, IsWord, IsGap, WordText, Meaning;
    if words == [] {
      assert WordsText(words) + rest == rest;
    } else {
      var w, tail := words[0], WordsText(words[1..]) + rest;
      assert WordsText(words) + rest == WordText(w.word) + (w.gap + tail);
      LexWord(l, w.word, w.gap + tail);
      LexGap(l.(token := l.token + Meaning(w.word), hasToken := true), w.gap, tail);
      assert l.token + Meaning(w.word) == Meaning(w.word);
      if |words| == 1 {
        assert words[1..] == [] && tail == rest;
      } else {
        LexWords(AfterWord(l, w), words[1..], rest);
      }
    }
  }

  lemma {:induction false} FlushAfterWords(l: Lexer, words: seq<Spaced>)
    requires Between(l) && AreApart(words)
    ensures var r := AfterWords(l, words);
      r.quote.None? && (r.hasToken || r.token == "") && FlushToken(r) == l.(tokens := l.tokens + Meanings(words))
    decreases |words|
  {
    hide Meaning;
    if words == [] {
      assert l.tokens + Meanings(words) == l.tokens;
    } else {
      var next := AfterWord(l, words[0]);
      var first := Meaning(words[0].word);
      assert Meanings(words) == [first] + Meanings(words[1..]);
      AppendIsAssociative(l.tokens, [first], Meanings(words[1..]));
      if |words| == 1 {
        assert words[1..] == [] && Meanings(words[1..]) == [];
      } else {
        FlushAfterWords(next, words[1..]);
      }
    }
  }

  predicate Clean(l: Lexer) {
    l.quote.None? && !l.hasToken && l.token == "" && l.tokens == []
  }

  lemma {:induction false} PipesCollapse(l: Lexer, rest: string)
    requires Clean(l)
    ensures Lex(l, "|" + rest) == Lex(l, rest)
    decreases |rest|
  {
    var s := "|" + rest;
    assert s[1..] == rest;
    if rest != [] && rest[0] == '|' {
      assert s[2..] == rest[1..];
      PipesCollapse(l, rest[1..]);
      assert "|" + rest[1..] == rest;
    }
  }

  lemma LexSeparator(l: Lexer, sep: Separator, rest: string)
    requires l.quote.None? && (l.hasToken || l.token == "")
    ensures Lex(l, SeparatorText(sep) + rest) == Lex(FlushSubcommand(l), rest)
  {
    var s := SeparatorText(sep) + rest;
    var f := FlushSubcommand(l);
    assert Clean(f);
    SeparatorEndsSubcommand(l, sep, rest);
    LexStep(l, s);
    hide FlushSubcommand, Clean, Advance, Lex;
    assert s[|SeparatorText(sep)|..] == rest;
    if sep == Pipe && rest != [] && rest[0] == '|' {
      assert s[2..] == rest[1..];
      PipesCollapse(f, rest[1..]);
      assert "|" + rest[1..] == rest;
    }
  }

  lemma SeparatorEndsSubcommand(l: Lexer, sep: Separator, rest: string)
    requires l.quote.None?
    ensures var s := SeparatorText(sep) + rest;
      s != "" && Advance(l, s) ==
        (FlushSubcommand(l), if sep == Pipe && rest != "" && rest[0] == '|' then 2 else |SeparatorText(sep)|)
  {
    hide FlushSubcommand, IsSpace;
  }

  /** One written phrase, up to the end of its subcommand. */
  lemma LexPhrase(l: Lexer, p: Phrase, rest: string) returns (read: Lexer)
    requires Clean(l) && IsPhrase(p)
    ensures Lex(l, PhraseText(p) + rest) == Lex(read, rest)
    ensures read.quote.None? && (read.hasToken || read.token == "")
    ensures Clean(FlushSubcommand(read))
    ensures FlushSubcommand(read).subcommands == l.subcommands + (if p.words == [] then [] else [Meanings(p.words)])
  {
    hide Lex, IsWord, IsGap, Meaning, WordsText;
    AppendIsAssociative(p.lead, WordsText(p.words), rest);
    LexGap(l, p.lead, WordsText(p.words) + rest);
    LexWords(l, p.words, rest);
    FlushAfterWords(l, p.words);
    read := AfterWords(l, p.words);
    assert [] + Meanings(p.words) == Meanings(p.words);
  }

  lemma {:induction false} RoundTripFrom(l: Lexer, phrases: seq<Phrase>, seps: seq<Separator>)
    requires Clean(l) && |phrases| == |seps| + 1
    requires forall i :: 0 <= i < |phrases| ==> IsPhrase(phrases[i])
    ensures Lex(l, LineText(phrases, seps)) == l.subcommands + Subcommands(phrases)
    decreases |phrases|
  {
    hide Advance, FlushSubcommand, IsPhrase, PhraseText;
    var p := phrases[0];
    var here := if p.words == [] then [] else [Meanings(p.words)];
    if |phrases| == 1 {
      var read := LexPhrase(l, p, "");
      assert PhraseText(p) + "" == PhraseText(p);
      assert Subcommands(phrases[1..]) == [];
      assert here + [] == here;
    } else {
      var tail := LineText(phrases[1..], seps[1..]);
      var read := LexPhrase(l, p, SeparatorText(seps[0]) + tail);
      LexSeparator(read, seps[0], tail);
      RoundTripFrom(FlushSubcommand(read), phrases[1..], seps[1..]);
      AppendIsAssociative(l.subcommands, here, Subcommands(phrases[1..]));
    }
  }

  /** However the words are written, bare, quoted or both, with any space between and any separators, the
      line tokenizes to the subcommands it means; only a phrase without words leaves no list. */
  lemma TokenizerInvertsWriting(phrases: seq<Phrase>, seps: seq<Separator>)
    requires |phrases| == |seps| + 1
    requires forall i :: 0 <= i < |phrases| ==> IsPhrase(phrases[i])
    ensures Lex(START, LineText(phrases, seps)) == Subcommands(phrases)
  {
    RoundTripFrom(START, phrases, seps);
  }

  /** A quote that is never closed takes in everything to the end, operators included. */
  lemma UnclosedQuoteRunsToTheEnd(p: Phrase, quote: char, text: string)
    requires IsPhrase(p) && IsQuote(quote) && quote !in text
    requires p.words != [] ==> p.words[|p.words| - 1].gap != ""
    ensures Lex(START, PhraseText(p) + ([quote] + text)) == [Meanings(p.words) + [text]]
  {
    hide Lex, IsWord, IsGap, Meaning, WordsText;
    var rest := [quote] + text;
    AppendIsAssociative(p.lead, WordsText(p.words), rest);
    LexGap(START, p.lead, WordsText(p.words) + rest);
    LexWords(START, p.words, rest);
    FlushAfterWords(START, p.words);
    var read := AfterWords(START, p.words);
    NothingUnderWay(START, p.words);
    assert [] + Meanings(p.words) == Meanings(p.words);
    assert rest[1..] == text && read.tokens == Meanings(p.words) && read.token + text == text;
    assert Advance(read, rest) == (read.(quote := Some(quote), hasToken := true), 1);
    LexStep(read, rest);
    LexUnclosed(read.(quote := Some(quote), hasToken := true), text);
    assert START.subcommands + [Meanings(p.words) + [text]] == [Meanings(p.words) + [text]];
    assert read.subcommands == START.subcommands;
  }

  lemma {:induction false} NothingUnderWay(l: Lexer, words: seq<Spaced>)
    requires Between(l) && (words != [] ==> words[|words| - 1].gap != "") && AreApart(words)
    ensures Between(AfterWords(l, words))
    decreases |words|
  {
    hide Meaning;
    if words != [] {
      NothingUnderWay(AfterWord(l, words[0]), words[1..]);
    }
  }

  lemma {:induction false} LexUnclosed(l: Lexer, text: string)
    requires l.quote.Some? && l.quote.value !in text && l.hasToken
    ensures Lex(l, text) == FlushSubcommand(l.(token := l.token + text)).subcommands
    decreases |text|
  {
    if text == "" {
      LexEnd(l);
      assert l.token + text == l.token;
    } else {
      hide Lex;
      LexStep(l, text);
      LexUnclosed(l.(token := l.token + [text[0]]), text[1..]);
      assert l.token + [text[0]] + text[1..] == l.token + text;
    }
  }
}
