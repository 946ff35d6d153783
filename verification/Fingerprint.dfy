/** Splitting and vetting a stored fingerprint command (gaps/fingerprint.ts). */
module Fingerprint {
  import opened Collections
  import opened JsText
  import opened WrittenWords

  /** A quoted stretch up to its closing quote, or to the end when there is none. */
  function Quoted(quote: char, s: string): (r: (string, string))
    ensures |r.1| <= |s|
  {
    if s == "" then ("", "")
    else if s[0] == quote then ("", s[1..])
    else
      var (body, rest) := Quoted(quote, s[1..]);
      ([s[0]] + body, rest)
  }

  /** One word: what it is and what is left. */
  function Word(s: string): (r: (string, string))
    ensures |r.1| <= |s|
    ensures s != "" && !IsSpace(s[0]) ==> |r.1| < |s|
    decreases |s|
  {
    if s == "" || IsSpace(s[0]) then ("", s)
    else if IsQuote(s[0]) then
      var (body, rest) := Quoted(s[0], s[1..]);
      var (more, left) := Word(rest);
      (body + more, left)
    else
      var (more, left) := Word(s[1..]);
      ([s[0]] + more, left)
  }

  function Words(s: string): seq<string>
    decreases |s|
  {
    var t := TrimStart(s);
    if t == "" then []
    else
      var (word, rest) := Word(t);
      [word] + Words(rest)
  }

  function From(s: string, i: nat): string {
    if i <= |s| then s[i..] else ""
  }

  method SkipSpaces(command: string, from: nat) returns (i: nat)
    requires from <= |command|
    ensures from <= i <= |command| && TrimStart(command[from..]) == command[i..]
  {
    i := from;
    while i < |command| && IsSpace(command[i])
      invariant from <= i <= |command| && TrimStart(command[from..]) == TrimStart(command[i..])
    {
      assert command[i..][1..] == command[i + 1..];
      i := i + 1;
    }
  }

  /** Reads to the closing quote and steps over it, or one past the end. */
  method ReadQuoted(command: string, from: nat, quote: char) returns (body: string, i: nat)
    requires from <= |command|
    ensures from <= i && Quoted(quote, command[from..]) == (body, From(command, i))
  {
    body, i := "", from;
    assert "" + Quoted(quote, command[from..]).0 == Quoted(quote, command[from..]).0;
    while i < |command| && command[i] != quote
      invariant from <= i <= |command|
      invariant Quoted(quote, command[from..]) ==
                (body + Quoted(quote, command[i..]).0, Quoted(quote, command[i..]).1)
    {
      assert command[i..][1..] == command[i + 1..];
      AppendIsAssociative(body, [command[i]], Quoted(quote, command[i + 1..]).0);
      body := body + [command[i]];
      i := i + 1;
    }
    assert body + "" == body;
    assert i < |command| ==> command[i..][1..] == From(command, i + 1);
    i := i + 1;
  }

  method ReadWord(command: string, from: nat) returns (token: string, i: nat)
    requires from <= |command|
    ensures from <= i && Word(command[from..]) == (token, From(command, i))
    ensures from < |command| && !IsSpace(command[from]) ==> from < i
  {
    hide Word, IsSpace;
    token, i := "", from;
    assert From(command, i) == command[from..];
    assert "" + Word(From(command, i)).0 == Word(From(command, i)).0;
    while i < |command| && !IsSpace(command[i])
      invariant from <= i
      invariant Word(command[from..]) == (token + Word(From(command, i)).0, Word(From(command, i)).1)
      decreases |command| - i
    {
      var c := command[i];
      if IsQuote(c) {
        var body, next := ReadQuoted(command, i + 1, c);
        WordGoesOnQuoted(command, i, body, next);
        AppendIsAssociative(token, body, Word(From(command, next)).0);
        token, i := token + body, next;
      } else {
        WordGoesOn(command, i);
        AppendIsAssociative(token, [c], Word(From(command, i + 1)).0);
        token, i := token + [c], i + 1;
      }
    }
    WordEnds(command, i);
    assert token + "" == token;
  }

  lemma WordGoesOnQuoted(command: string, i: nat, body: string, next: nat)
    requires i < |command| && !IsSpace(command[i]) && IsQuote(command[i])
    requires Quoted(command[i], command[i + 1..]) == (body, From(command, next))
    ensures Word(From(command, i)) == (body + Word(From(command, next)).0, Word(From(command, next)).1)
  {
    hide IsSpace;
    assert command[i..][1..] == command[i + 1..];
  }

  lemma WordGoesOn(command: string, i: nat)
    requires i < |command| && !IsSpace(command[i]) && !IsQuote(command[i])
    ensures Word(From(command, i)) == ([command[i]] + Word(From(command, i + 1)).0, Word(From(command, i + 1)).1)
  {
    hide IsSpace;
    assert command[i..][1..] == command[i + 1..];
  }

  lemma WordEnds(command: string, i: nat)
    requires i < |command| ==> IsSpace(command[i])
    ensures Word(From(command, i)) == ("", From(command, i))
  {
  }

  method Tokenize(command: string) returns (tokens: seq<string>)
    ensures tokens == Words(command)
  {
    tokens := [];
    var i: nat := 0;
    assert [] + Words(command) == Words(command);
    while i < |command|
      invariant tokens + Words(From(command, i)) == Words(command)
      decreases |command| - i
    {
      i := SkipSpaces(command, i);
      if i >= |command| {
        break;
      }
      var token, next := ReadWord(command, i);
      AppendIsAssociative(tokens, [token], Words(From(command, next)));
      tokens, i := tokens + [token], next;
    }
    assert tokens + [] == tokens;
  }

  // ----- round trip

  predicate IsPiece(p: Piece) {
    if p.Bare? then p.text != "" && forall i :: 0 <= i < |p.text| ==> !IsQuote(p.text[i]) && !IsSpace(p.text[i])
    else IsQuoted(p)
  }

  predicate IsWord(w: WrittenWords.Word) {
    w != [] && forall i :: 0 <= i < |w| ==> IsPiece(w[i])
  }

  predicate IsGap(gap: string) {
    forall i :: 0 <= i < |gap| ==> IsSpace(gap[i])
  }

  predicate IsPhrase(p: Phrase) {
    && IsGap(p.lead) && AreApart(p.words)
    && forall i :: 0 <= i < |p.words| ==> IsWord(p.words[i].word) && IsGap(p.words[i].gap)
  }

  lemma {:induction false} QuotedStops(quote: char, body: string, rest: string)
    requires quote !in body
    ensures Quoted(quote, body + [quote] + rest) == (body, rest)
  {
    var s := body + [quote] + rest;
    if body == "" {
      assert s[1..] == rest;
    } else {
      assert s[1..] == body[1..] + [quote] + rest;
      QuotedStops(quote, body[1..], rest);
      assert [body[0]] + body[1..] == body;
    }
  }

  lemma {:induction false} BareIsRead(text: string, rest: string)
    requires forall i :: 0 <= i < |text| ==> !IsQuote(text[i]) && !IsSpace(text[i])
    ensures Word(text + rest) == (text + Word(rest).0, Word(rest).1)
    decreases |text|
  {
    hide IsSpace, IsQuote;
    if text == "" {
      assert text + rest == rest && "" + Word(rest).0 == Word(rest).0;
    } else {
      assert (text + rest)[1..] == text[1..] + rest;
      BareIsRead(text[1..], rest);
      AppendIsAssociative([text[0]], text[1..], Word(rest).0);
      assert [text[0]] + text[1..] == text;
    }
  }

  lemma PieceIsRead(p: Piece, rest: string)
    requires IsPiece(p)
    ensures Word(PieceText(p) + rest) == (p.text + Word(rest).0, Word(rest).1)
  {
    if p.Bare? {
      hide Word;
      BareIsRead(p.text, rest);
    } else {
      assert (PieceText(p) + rest)[1..] == p.text + [p.quote] + rest;
      QuotedStops(p.quote, p.text, rest);
      hide Quoted;
    }
  }

  /** The stretches of a word are joined, whatever follows it. */
  lemma {:induction false} WordIsRead(w: WrittenWords.Word, rest: string)
    requires forall i :: 0 <= i < |w| ==> IsPiece(w[i])
    requires rest == "" || IsSpace(rest[0])
    ensures Word(WordText(w) + rest) == (Meaning(w), rest)
    decreases |w|
  {
    hide Word, IsPiece, PieceText, IsSpace;
    if w == [] {
      assert WordText(w) + rest == rest;
      WordEnds(rest, 0);
      assert From(rest, 0) == rest;
    } else {
      AppendIsAssociative(PieceText(w[0]), WordText(w[1..]), rest);
      PieceIsRead(w[0], WordText(w[1..]) + rest);
      WordIsRead(w[1..], rest);
    }
  }

  lemma WordStartsDark(w: WrittenWords.Word, rest: string)
    requires IsWord(w)
    ensures var s := WordText(w) + rest; s != "" && !IsSpace(s[0]) && TrimStart(s) == s
  {
    assert IsPiece(w[0]);
  }

  lemma {:induction false} GapIsSkipped(gap: string, rest: string)
    requires IsGap(gap)
    ensures Words(gap + rest) == Words(rest)
    decreases |gap|
  {
    if gap == "" {
      assert gap + rest == rest;
    } else {
      assert (gap + rest)[1..] == gap[1..] + rest;
      GapIsSkipped(gap[1..], rest);
      hide Word, IsSpace;
    }
  }

  lemma NoWords()
    ensures Words("") == []
  {
  }

  lemma FirstWordIsRead(w: WrittenWords.Word, rest: string)
    requires IsWord(w) && (rest == "" || IsSpace(rest[0]))
    ensures Words(WordText(w) + rest) == [Meaning(w)] + Words(rest)
  {
    WordStartsDark(w, rest);
    WordIsRead(w, rest);
    hide Word, IsSpace, TrimStart, WordText, Meaning;
  }

  /** Every word is followed by space. */
  predicate EndsInSpace(words: seq<Spaced>) {
    words != [] ==> words[|words| - 1].gap != ""
  }

  lemma FirstOfWords(words: seq<Spaced>, rest: string)
    requires words != []
    ensures WordsText(words) + rest == WordText(words[0].word) + (words[0].gap + (WordsText(words[1..]) + rest))
    ensures Meanings(words) == [Meaning(words[0].word)] + Meanings(words[1..])
  {
    hide WordText, Meaning;
    var text, gap, tail := WordText(words[0].word), words[0].gap, WordsText(words[1..]);
    AppendIsAssociative(text, gap + tail, rest);
    AppendIsAssociative(gap, tail, rest);
  }

  lemma {:induction false} WordsAreRead(words: seq<Spaced>, rest: string)
    requires AreApart(words) && (rest == "" || EndsInSpace(words))
    requires forall i :: 0 <= i < |words| ==> IsWord(words[i].word) && IsGap(words[i].gap)
    ensures Words(WordsText(words) + rest) == Meanings(words) + Words(rest)
    decreases |words|
  {
    hide Words, IsWord, WordText, Meaning, IsSpace;
    if words == [] {
      assert WordsText(words) + rest == rest;
    } else {
      var w, tail := words[0], WordsText(words[1..]) + rest;
      WordsAreRead(words[1..], rest);
      FirstOfWords(words, rest);
      if |words| == 1 {
        assert words[1..] == [] && tail == rest;
      }
      hide WordsText, Meanings, AreApart;
      FirstWordIsRead(w.word, w.gap + tail);
      GapIsSkipped(w.gap, tail);
      AppendIsAssociative([Meaning(w.word)], Meanings(words[1..]), Words(rest));
    }
  }

  /** However the words are written, bare, quoted or both, with any space before, between and after them, they come
      back as what they mean, the empty one included. */
  lemma TokenizerInvertsWriting(p: Phrase)
    requires IsPhrase(p)
    ensures Words(PhraseText(p)) == Meanings(p.words)
  {
    GapIsSkipped(p.lead, WordsText(p.words));
    WordsAreRead(p.words, "");
    assert WordsText(p.words) + "" == WordsText(p.words);
    NoWords();
    assert Meanings(p.words) + [] == Meanings(p.words);
  }

  /** A quote that is never closed takes in everything to the end. */
  lemma UnclosedQuoteRunsToTheEnd(p: Phrase, quote: char, text: string)
    requires IsPhrase(p) && EndsInSpace(p.words) && IsQuote(quote) && quote !in text
    ensures Words(PhraseText(p) + ([quote] + text)) == Meanings(p.words) + [text]
  {
    var rest := [quote] + text;
    hide Words, IsSpace, IsWord;
    AppendIsAssociative(p.lead, WordsText(p.words), rest);
    GapIsSkipped(p.lead, WordsText(p.words) + rest);
    WordsAreRead(p.words, rest);
    UnclosedWord(quote, text);
  }

  lemma UnclosedWord(quote: char, text: string)
    requires IsQuote(quote) && quote !in text
    ensures Words([quote] + text) == [text]
  {
    hide IsSpace;
    var rest := [quote] + text;
    QuoteIsDark(quote);
    assert rest[1..] == text && TrimStart(rest) == rest;
    Unclosed(quote, text);
    assert Word("") == ("", "") && text + "" == text;
    assert Word(rest) == (text, "");
    hide Word, Quoted, TrimStart, IsQuote;
    NoWords();
    assert Words(rest) == [text] + Words("");
  }

  lemma QuoteIsDark(quote: char)
    requires IsQuote(quote)
    ensures !IsSpace(quote)
  {
  }

  lemma {:induction false} Unclosed(quote: char, text: string)
    requires quote !in text
    ensures Quoted(quote, text) == (text, "")
  {
    if text != "" {
      Unclosed(quote, text[1..]);
      assert [text[0]] + text[1..] == text;
    }
  }

  // ----- vetting

  const BANNED: seq<char> := [';', '|', '&', '$', '(', ')', '<', '>', '`']

  datatype Rejection = ShellMetacharacters | NotOneGrep
  datatype Validation = Rejected(reason: Rejection) | Valid(tokens: seq<string>)

  function ValidateFingerprint(fingerprint: string): (v: Validation)
    ensures v.Valid? <==> (forall c :: c in fingerprint ==> c !in BANNED)
                          && |Words(fingerprint)| >= 2 && Words(fingerprint)[0] == "grep"
    ensures v.Valid? ==> v.tokens == Words(fingerprint)
    ensures v == Rejected(ShellMetacharacters) <==> exists c :: c in fingerprint && c in BANNED
  {
    if exists c :: c in fingerprint && c in BANNED then Rejected(ShellMetacharacters)
    else
      var tokens := Words(fingerprint);
      if |tokens| < 2 || tokens[0] != "grep" then Rejected(NotOneGrep) else Valid(tokens)
  }

  lemma {:induction false} QuotedAddsNothing(quote: char, s: string, c: char)
    requires c in Quoted(quote, s).0 || c in Quoted(quote, s).1
    ensures c in s
  {
    if s != "" && s[0] != quote && c != s[0] {
      QuotedAddsNothing(quote, s[1..], c);
    }
  }

  lemma {:induction false} WordAddsNothing(s: string, c: char)
    requires c in Word(s).0 || c in Word(s).1
    ensures c in s
    decreases |s|
  {
    if s != "" && !IsSpace(s[0]) {
      if IsQuote(s[0]) {
        var (body, rest) := Quoted(s[0], s[1..]);
        if c in body {
          QuotedAddsNothing(s[0], s[1..], c);
        } else {
          WordAddsNothing(rest, c);
          QuotedAddsNothing(s[0], s[1..], c);
        }
      } else if c != s[0] {
        WordAddsNothing(s[1..], c);
      }
    }
  }

  lemma {:induction false} WordsAddNothing(s: string, word: string, c: char)
    requires word in Words(s) && c in word
    ensures c in s
    decreases |s|
  {
    var t := TrimStart(s);
    var (first, rest) := Word(t);
    if c in first {
      WordAddsNothing(t, c);
    } else {
      WordsAddNothing(rest, word, c);
      WordAddsNothing(t, c);
    }
    assert c in t ==> c in s;
  }

  /** Nothing a vetted fingerprint puts on grep's command line holds a shell metacharacter. */
  lemma VettedTokensAreClean(fingerprint: string, token: string, c: char)
    requires ValidateFingerprint(fingerprint).Valid? && token in ValidateFingerprint(fingerprint).tokens && c in token
    ensures c !in BANNED
  {
    WordsAddNothing(fingerprint, token, c);
  }
}
