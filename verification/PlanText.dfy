/** The three line shapes a plan is read by (runner/core/plan-index.ts). */
module PlanText {
  import opened Collections
  import opened JsText

  datatype Fence = Fence(mark: char, length: nat)

  /** How many times `c` stands at the start. */
  function RunLength(s: string, c: char): (n: nat)
    ensures n <= |s| && (forall i :: 0 <= i < n ==> s[i] == c) && (n < |s| ==> s[n] != c)
  {
    if s == [] || s[0] != c then 0 else 1 + RunLength(s[1..], c)
  }

  predicate AllSpace(s: string) {
    Spaces(s, 0, |s|)
  }

  predicate Spaces(s: string, from: nat, to: nat)
    requires to <= |s|
  {
    forall i :: from <= i < to ==> IsSpace(s[i])
  }

  predicate Hashes(s: string, from: nat, to: nat)
    requires to <= |s|
  {
    forall i :: from <= i < to ==> s[i] == '#'
  }

  /** `^ {0,3}` followed by what the caller looks for. */
  function Unindented(line: string): Option<string> {
    var n := RunLength(line, ' ');
    if n <= 3 then Some(line[n..]) else None
  }

  /** The opening fence: at least three backticks or tildes, taken whole. */
  function OpeningFence(line: string): Option<Fence> {
    match Unindented(line)
    case None => None
    case Some(s) =>
      if RunLength(s, '`') >= 3 then Some(Fence('`', RunLength(s, '`')))
      else if RunLength(s, '~') >= 3 then Some(Fence('~', RunLength(s, '~')))
      else None
  }

  /** A closing fence: at least as many of the same character, then only space. */
  predicate ClosesFence(line: string, open: Fence) {
    match Unindented(line)
    case None => false
    case Some(s) => RunLength(s, open.mark) >= open.length && AllSpace(s[RunLength(s, open.mark)..])
  }

  /** At most three spaces, `start` of them, and then `length` times `c`. */
  predicate IsRun(line: string, c: char, start: nat, length: nat) {
    && start <= 3 && start + length <= |line|
    && (forall i :: 0 <= i < start ==> line[i] == ' ')
    && (forall i :: start <= i < start + length ==> line[i] == c)
  }

  lemma RunStands(line: string, c: char, n: nat, length: nat)
    requires n == RunLength(line, ' ') <= 3 && RunLength(line[n..], c) == length
    ensures IsRun(line, c, n, length) && !IsRun(line, c, n, length + 1)
  {
    hide RunLength;
    var s := line[n..];
    forall i | n <= i < n + length ensures line[i] == c {
      assert line[i] == s[i - n];
    }
    assert n + length < |line| ==> line[n + length] == s[length];
  }

  lemma RunIsMeasured(line: string, c: char, start: nat, length: nat)
    requires IsRun(line, c, start, length) && c != ' ' && length >= 1
    ensures RunLength(line, ' ') == start && RunLength(line[start..], c) >= length
    ensures !IsRun(line, c, start, length + 1) ==> RunLength(line[start..], c) == length
  {
    assert line[start] == c;
    RunIs(line, ' ', start);
    hide RunLength;
    var s := line[start..];
    var n := RunLength(s, c);
    assert forall i :: 0 <= i < |s| ==> s[i] == line[start + i];
    if n > length {
      assert forall i :: start <= i < start + length + 1 ==> line[i] == s[i - start];
    }
  }

  /** A line opens a fence exactly when it has a run of three or more backticks or tildes behind at most three spaces;
      the whole run is the fence, and what follows it does not matter. */
  lemma OpeningFenceIsARun(line: string, mark: char, length: nat)
    ensures OpeningFence(line) == Some(Fence(mark, length)) <==>
              && (mark == '`' || mark == '~') && length >= 3
              && exists start: nat :: IsRun(line, mark, start, length) && !IsRun(line, mark, start, length + 1)
  {
    hide RunLength;
    var n := RunLength(line, ' ');
    if OpeningFence(line) == Some(Fence(mark, length)) {
      RunStands(line, mark, n, length);
    }
    if mark == '`' || mark == '~' {
      if start: nat :| IsRun(line, mark, start, length) && !IsRun(line, mark, start, length + 1) && length >= 3 {
        RunIsMeasured(line, mark, start, length);
        assert line[start..][0] == mark;
      }
    }
  }

  /** A line closes a fence exactly when, behind at most three spaces, it has at least as many of the fence's character
      and nothing but space after. */
  lemma ClosingFenceIsARun(line: string, open: Fence)
    requires (open.mark == '`' || open.mark == '~') && open.length >= 1
    ensures ClosesFence(line, open) <==>
              exists start: nat, length: nat :: IsRun(line, open.mark, start, length) && length >= open.length
                && SpacesFrom(line, start + length)
  {
    hide RunLength, AllSpace, IsRun;
    if ClosesFence(line, open) {
      var n := RunLength(line, ' ');
      var length := RunLength(line[n..], open.mark);
      RunStands(line, open.mark, n, length);
      assert line[n..][length..] == line[n + length..];
      assert IsRun(line, open.mark, n, length) && SpacesFrom(line, n + length);
    }
    if start: nat, length: nat :| IsRun(line, open.mark, start, length) && length >= open.length && SpacesFrom(line, start + length) {
      RunThenSpace(line, open.mark, start, length);
    }
  }

  lemma RunThenSpace(line: string, c: char, start: nat, length: nat)
    requires (c == '`' || c == '~') && IsRun(line, c, start, length) && length >= 1 && SpacesFrom(line, start + length)
    ensures start == RunLength(line, ' ') <= 3 && RunLength(line[start..], c) == length && AllSpace(line[start..][length..])
  {
    hide RunLength, IsSpace;
    RunIsMeasured(line, c, start, length);
    SpaceIsNoMark(c);
    if start + length < |line| {
      assert line[start + length..][0] == line[start + length];
    }
    assert line[start..][length..] == line[start + length..];
  }

  predicate SpacesFrom(line: string, from: nat) {
    from <= |line| && AllSpace(line[from..])
  }

  lemma SpaceIsNoMark(c: char)
    requires c == '`' || c == '~'
    ensures !IsSpace(c)
  {
  }

  /** `(?:\s+#+)?\s*$` */
  predicate ClosesHeading(s: string) {
    AllSpace(s) || exists i, j :: 0 < i < j <= |s| && Spaces(s, 0, i) && Hashes(s, i, j) && Spaces(s, j, |s|)
  }

  /** The text from `n` to `length` may stand for `(.*?)`: it is on one line and the rest may follow it. */
  predicate MayEndAt(body: string, n: nat, length: nat) {
    n <= length <= |body| && (forall i :: n <= i < length ==> !IsLineTerminator(body[i])) && ClosesHeading(body[length..])
  }

  /** The lazy `(.*?)`: the first end there may be, or none when there is no end at all. */
  function ShortestText(body: string, n: nat): (length: Option<nat>)
    requires n <= |body|
    ensures length.Some? ==> MayEndAt(body, n, length.value) && forall k :: n <= k < length.value ==> !MayEndAt(body, n, k)
    ensures length.None? ==> forall k :: !MayEndAt(body, n, k)
    decreases |body| - n
  {
    if ClosesHeading(body[n..]) then Some(n)
    else if n < |body| && !IsLineTerminator(body[n]) then
      assert forall k :: k > n ==> (MayEndAt(body, n, k) <==> MayEndAt(body, n + 1, k));
      ShortestText(body, n + 1)
    else None
  }

  datatype HeadingText = HeadingText(level: nat, text: string)

  /** One to six hashes, then space, then the text without its closing hashes. */
  function HeadingOf(line: string): (h: Option<HeadingText>)
    ensures h.Some? ==> 1 <= h.value.level <= 6
  {
    var level := RunLength(line, '#');
    if 1 <= level <= 6 && level < |line| && IsSpace(line[level]) then
      var body := TrimStart(line[level..]);
      match ShortestText(body, 0)
      case None => None
      case Some(n) => Some(HeadingText(level, Trim(body[..n])))
    else None
  }

  /** One way the line may match `^(#{1,6})\s+(.*?)(?:\s+#+)?\s*$`: hashes up to `level`, space up to `start`,
      and text up to `end`. */
  predicate Matches(line: string, level: nat, start: nat, end: nat) {
    && 1 <= level <= 6 && level < start <= |line|
    && Hashes(line, 0, level) && Spaces(line, level, start) && MayEndAt(line, start, end)
  }

  /** A line is a heading exactly when it matches in some way. */
  lemma HeadingExactlyWhenItMatches(line: string)
    ensures HeadingOf(line).Some? <==> exists level, start, end :: Matches(line, level, start, end)
  {
    hide HeadingOf, Matches;
    if HeadingOf(line).Some? {
      var start, end := HeadingIsTheGreedyMatch(line);
    }
    if exists level, start, end :: Matches(line, level, start, end) {
      var level, start, end :| Matches(line, level, start, end);
      MatchIsHeading(line, level, start, end);
    }
  }

  /** The match taken gives the space all it can and then the text as little as it can; the heading's text
      is that text, trimmed. */
  lemma HeadingIsTheGreedyMatch(line: string) returns (start: nat, end: nat)
    requires HeadingOf(line).Some?
    ensures var h := HeadingOf(line).value;
      && Matches(line, h.level, start, end)
      && (start < |line| ==> !IsSpace(line[start]))
      && (forall k :: 0 <= k < end ==> !Matches(line, h.level, start, k))
      && h.text == Trim(line[start..end])
  {
    hide ClosesHeading, IsSpace, IsLineTerminator, ShortestText, Trim, MayEndAt, RunLength, TrimStart;
    var level := RunLength(line, '#');
    start := TextStart(line, level);
    end := FirstEnd(line, start);
    assert line[start..][..end - start] == line[start..end];
  }

  /** The shortest text of what begins at `start` ends the line's first possible text from there. */
  lemma FirstEnd(line: string, start: nat) returns (end: nat)
    requires start <= |line| && ShortestText(line[start..], 0).Some?
    ensures end == start + ShortestText(line[start..], 0).value && end <= |line|
    ensures MayEndAt(line, start, end) && forall k :: 0 <= k < end ==> !MayEndAt(line, start, k)
  {
    hide ShortestText;
    var body := line[start..];
    end := start + ShortestText(body, 0).value;
    MayEndShifts(line, start);
    hide MayEndAt;
    assert MayEndAt(body, 0, end - start);
    forall k | 0 <= k < end ensures !MayEndAt(line, start, k) {
      if k < start {
        TextEndsAfterItsStart(line, start, k);
      } else {
        ShiftedBack(line, start, k);
      }
    }
  }

  lemma ShiftedBack(line: string, start: nat, k: nat)
    requires start <= k && start <= |line| && !MayEndAt(line[start..], 0, k - start)
    ensures !MayEndAt(line, start, k)
  {
    MayEndShifts(line, start);
    hide MayEndAt;
    assert k == start + (k - start);
  }

  lemma TextEndsAfterItsStart(line: string, start: nat, k: nat)
    requires k < start
    ensures !MayEndAt(line, start, k)
  {
  }

  /** Ends are the same whether counted in the line or from the text's start. */
  lemma MayEndShifts(line: string, start: nat)
    requires start <= |line|
    ensures forall k: nat :: MayEndAt(line[start..], 0, k) <==> MayEndAt(line, start, start + k)
  {
    hide ClosesHeading, IsLineTerminator;
    forall k: nat | start + k <= |line| ensures MayEndAt(line[start..], 0, k) <==> MayEndAt(line, start, start + k) {
      assert line[start..][k..] == line[start + k..];
      if MayEndAt(line[start..], 0, k) {
        forall i | start <= i < start + k ensures !IsLineTerminator(line[i]) {
          assert line[start..][i - start] == line[i];
        }
      }
    }
  }

  /** Where `TrimStart` stops after the hashes. */
  lemma TextStart(line: string, level: nat) returns (start: nat)
    requires level < |line| && IsSpace(line[level])
    ensures level < start <= |line| && Spaces(line, level, start) && TrimStart(line[level..]) == line[start..]
    ensures start < |line| ==> !IsSpace(line[start])
  {
    hide IsSpace;
    var rest := line[level..];
    start := |line| - |TrimStart(rest)|;
    assert line[start..] == rest[start - level..];
    forall i | level <= i < start ensures IsSpace(line[i]) {
      TrimStartStripsSpace(rest, i - level);
    }
    if start < |line| {
      assert line[start..][0] == line[start];
    }
    assert rest[0] == line[level];
  }

  lemma {:induction false} TrimStartStripsSpace(s: string, i: nat)
    requires i < |s| - |TrimStart(s)|
    ensures IsSpace(s[i])
    decreases i
  {
    hide IsSpace;
    if i > 0 {
      TrimStartStripsSpace(s[1..], i - 1);
    }
  }

  /** However a match splits the line, the greedy reading finds a match too. */
  lemma MatchIsHeading(line: string, level: nat, start: nat, end: nat)
    requires Matches(line, level, start, end)
    ensures HeadingOf(line).Some?
  {
    hide ClosesHeading, IsSpace, IsLineTerminator, MayEndAt, ShortestText;
    SpaceIsNoHash(line[level]);
    RunIs(line, '#', level);
    var textStart := TextStart(line, level);
    var k := EndInText(line, level, start, end, textStart);
    MayEndShifts(line, textStart);
    assert MayEndAt(line[textStart..], 0, k - textStart);
  }

  lemma SpaceIsNoHash(c: char)
    ensures IsSpace(c) ==> c != '#'
  {
  }

  lemma {:induction false} RunIs(s: string, c: char, n: nat)
    requires n <= |s| && (forall i :: 0 <= i < n ==> s[i] == c) && (n < |s| ==> s[n] != c)
    ensures RunLength(s, c) == n
    decreases n
  {
    if n > 0 {
      RunIs(s[1..], c, n - 1);
    }
  }

  lemma EndInText(line: string, level: nat, start: nat, end: nat, textStart: nat) returns (k: nat)
    requires level < start <= |line| && Spaces(line, level, start) && MayEndAt(line, start, end)
    requires level < textStart <= |line| && Spaces(line, level, textStart)
    requires textStart < |line| ==> !IsSpace(line[textStart])
    ensures textStart <= k && MayEndAt(line, textStart, k)
  {
    hide ClosesHeading, IsSpace, IsLineTerminator;
    assert start <= textStart;
    if end >= textStart {
      k := end;
    } else {
      k := CloseAfterSpace(line, end, textStart);
    }
  }

  /** What closes a heading after some space is a text of hashes, or no text. */
  lemma CloseAfterSpace(line: string, end: nat, textStart: nat) returns (k: nat)
    requires end <= textStart <= |line| && Spaces(line, end, textStart) && ClosesHeading(line[end..])
    requires textStart < |line| ==> !IsSpace(line[textStart])
    ensures textStart <= k && MayEndAt(line, textStart, k)
  {
    var s := line[end..];
    hide IsSpace;
    if AllSpace(s) {
      k := textStart;
      assert forall q :: 0 <= q < |s| ==> s[q] == line[end + q];
      assert line[k..] == [];
    } else {
      var i, j :| 0 < i < j <= |s| && Spaces(s, 0, i) && Hashes(s, i, j) && Spaces(s, j, |s|);
      k := end + j;
      assert textStart == end + i by {
        HashesStartTheText(line, end, textStart, s, i);
      }
      HashesAreOnTheLine(line, textStart, s, j);
      SpacesAreTheTail(s, j, line[k..]);
    }
  }

  lemma SpacesAreTheTail(s: string, j: nat, tail: string)
    requires j <= |s| && Spaces(s, j, |s|) && tail == s[j..]
    ensures ClosesHeading(tail)
  {
    hide IsSpace;
    forall i | 0 <= i < |tail| ensures IsSpace(tail[i]) {
      assert tail[i] == s[j + i];
    }
  }

  lemma HashesAreOnTheLine(line: string, textStart: nat, s: string, j: nat)
    requires |s| <= |line| && s == line[|line| - |s|..] && textStart >= |line| - |s| && j <= |s|
    requires Hashes(s, textStart - (|line| - |s|), j)
    ensures forall i :: textStart <= i < |line| - |s| + j ==> !IsLineTerminator(line[i])
  {
    var end := |line| - |s|;
    forall i | textStart <= i < end + j ensures !IsLineTerminator(line[i]) {
      assert line[i] == s[i - end];
    }
  }

  lemma HashesStartTheText(line: string, end: nat, textStart: nat, s: string, i: nat)
    requires end <= textStart <= |line| && Spaces(line, end, textStart) && s == line[end..]
    requires textStart < |line| ==> !IsSpace(line[textStart])
    requires i < |s| && Spaces(s, 0, i) && s[i] == '#'
    ensures textStart == end + i
  {
    hide IsSpace;
    SpaceIsNoHash(s[i]);
    assert line[end + i] == s[i];
    assert forall q :: end <= q < |line| ==> s[q - end] == line[q];
  }

  /** `text.toLowerCase() === 'done'`; no other character lowers to one of these letters. */
  predicate IsDone(text: string) {
    |text| == 4 && text[0] in "dD" && text[1] in "oO" && text[2] in "nN" && text[3] in "eE"
  }
}
