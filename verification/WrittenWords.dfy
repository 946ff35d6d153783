/** Words as a person writes them on a command line: bare text, quoted text, or both in one word. */
module WrittenWords {
  import opened JsText

  /** A stretch of a word, without its quotes. */
  datatype Piece = Bare(text: string) | InQuotes(quote: char, text: string)

  type Word = seq<Piece>

  predicate IsQuote(c: char) {
    c == '"' || c == '\''
  }

  /** A quoted stretch may hold anything but its own quote. */
  predicate IsQuoted(p: Piece) {
    p.InQuotes? && (p.quote == '"' || p.quote == '\'') && p.quote !in p.text
  }

  function PieceText(p: Piece): string {
    match p
    case Bare(text) => text
    case InQuotes(quote, text) => [quote] + text + [quote]
  }

  /** The word as written. */
  function WordText(w: Word): string {
    if w == [] then "" else PieceText(w[0]) + WordText(w[1..])
  }

  /** The word as meant: its stretches one after the other, without quotes. */
  function Meaning(w: Word): string {
    if w == [] then "" else w[0].text + Meaning(w[1..])
  }

  /** A word with the space behind it. */
  datatype Spaced = Spaced(word: Word, gap: string)

  /** Words with space in front and between; the last may have none behind it. */
  datatype Phrase = Phrase(lead: string, words: seq<Spaced>)

  function WordsText(words: seq<Spaced>): string {
    if words == [] then "" else WordText(words[0].word) + (words[0].gap + WordsText(words[1..]))
  }

  function PhraseText(p: Phrase): string {
    p.lead + WordsText(p.words)
  }

  function Meanings(words: seq<Spaced>): (tokens: seq<string>)
    ensures |tokens| == |words|
  {
    seq(|words|, i requires 0 <= i < |words| => Meaning(words[i].word))
  }

  /** Only the last word may be followed by no space. */
  predicate AreApart(words: seq<Spaced>) {
    forall i :: 0 <= i < |words| - 1 ==> words[i].gap != ""
  }
}
