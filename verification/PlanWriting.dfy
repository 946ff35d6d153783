/** Writing a task list as a plan, and what the reader scans of it (runner/core/plan-index.ts). */
module PlanWriting {
  import opened Collections
  import opened JsText
  import opened Lines
  import opened PlanText
  import opened PlanIndex
  import opened PlanTasks
  import opened DoneBlock

  /** What stands before the first task, and the heading level of tasks. */
  datatype Layout = Layout(preface: seq<string>, level: nat)

  /** How a block is fenced: the mark, what each of the two fence lines has in front and behind, and how long they are. */
  datatype Fencing = Fencing(mark: char, openIndent: nat, ticks: nat, info: string,
                             closeIndent: nat, closeTicks: nat, closeTrail: string)

  /** A task as a plan's author writes it: prose may stand around the Done heading and its block, and the heading says
      Done in any casing. */
  datatype Section = Section(id: string, heading: string, about: seq<string>, done: string, doneLevel: nat,
                             intro: seq<string>, fencing: Fencing, body: seq<BodyLine>, after: seq<string>)

  function Repeat(c: char, n: nat): (s: string)
    ensures |s| == n && forall i :: 0 <= i < n ==> s[i] == c
  {
    seq(n, _ => c)
  }

  function HeadingLine(level: nat, text: string): string {
    Repeat('#', level) + (" " + text)
  }

  function HeadLines(f: Layout, sec: Section): seq<string> {
    [HeadingLine(f.level, sec.heading)] + sec.about + [HeadingLine(sec.doneLevel, sec.done)] + sec.intro
  }

  function OpenText(g: Fencing): string {
    Repeat(' ', g.openIndent) + (Repeat(g.mark, g.ticks) + g.info)
  }

  function CloseText(g: Fencing): string {
    Repeat(' ', g.closeIndent) + (Repeat(g.mark, g.closeTicks) + g.closeTrail)
  }

  function BlockLines(g: Fencing, body: seq<string>, after: seq<string>): seq<string> {
    [OpenText(g)] + body + [CloseText(g)] + after
  }

  function SectionLines(f: Layout, sec: Section): seq<string> {
    HeadLines(f, sec) + BlockLines(sec.fencing, BodyText(sec.body), sec.after)
  }

  function PlanLines(f: Layout, secs: seq<Section>): seq<string> {
    if secs == [] then f.preface
    else
      var n := |secs| - 1;
      PlanLines(f, secs[..n]) + SectionLines(f, secs[n])
  }

  function Render(f: Layout, secs: seq<Section>): string {
    Terminated(PlanLines(f, secs), '\n')
  }

  /** Prose that is neither a heading nor an opening fence. */
  predicate IsProse(lines: seq<string>) {
    forall i :: 0 <= i < |lines| ==> OpeningFence(lines[i]).None? && HeadingOf(lines[i]).None? && '\n' !in lines[i]
  }

  /** Heading text that stands for itself: no space around it, on one line, and not ending like closing hashes. */
  predicate IsPlainHeading(text: string) {
    && Trimmed(text)
    && (forall i :: 0 <= i < |text| ==> !IsLineTerminator(text[i]) && !ClosesHeading(text[i..]))
  }

  predicate IsFencing(g: Fencing) {
    && (g.mark == '`' || g.mark == '~') && g.openIndent <= 3 && 3 <= g.ticks
    && (g.info == "" || g.info[0] != g.mark) && '\n' !in g.info
    && g.closeIndent <= 3 && g.ticks <= g.closeTicks && AllSpace(g.closeTrail) && '\n' !in g.closeTrail
  }

  predicate IsBody(g: Fencing, body: seq<string>) {
    forall i :: 0 <= i < |body| ==> !ClosesFence(body[i], Fence(g.mark, g.ticks)) && '\n' !in body[i]
  }

  /** A letter of ASCII in lower case. */
  function Lowered(c: char): char {
    if 'A' <= c <= 'Z' then ((c as int) + 32) as char else c
  }

  predicate SaysDone(text: string) {
    |text| == 4 && Lowered(text[0]) == 'd' && Lowered(text[1]) == 'o' && Lowered(text[2]) == 'n' && Lowered(text[3]) == 'e'
  }

  /** A block with at least one command, and none to be continued. */
  predicate ListsCommands(body: seq<BodyLine>) {
    AreWritten(body) && !IsContinued(body) && Listed(body) != []
  }

  predicate IsRenderable(f: Layout, sec: Section) {
    && IsPlainHeading(sec.heading) && SaysDone(sec.done) && f.level < sec.doneLevel <= 6
    && IsProse(sec.about) && IsProse(sec.intro) && IsProse(sec.after)
    && IsFencing(sec.fencing) && IsBody(sec.fencing, BodyText(sec.body)) && ListsCommands(sec.body)
  }

  function PrefaceScan(f: Layout): Scan {
    ScanFrom(NOTHING_SCANNED, 0, f.preface)
  }

  /** Any title, headings, blocks and prose may come first, as long as no fence is left open and no heading is
      a task's. */
  predicate IsPreface(f: Layout, secs: seq<Section>) {
    && Unbroken(f.preface, '\n') && PrefaceScan(f).open.None?
    && (forall h, i :: h in PrefaceScan(f).headings && 0 <= i < |secs| ==> h.text != secs[i].heading)
  }

  predicate AreRenderable(f: Layout, secs: seq<Section>) {
    && IsPreface(f, secs)
    && 1 <= f.level
    && (forall i :: 0 <= i < |secs| ==> IsRenderable(f, secs[i]))
    && (forall i, j :: 0 <= i < j < |secs| ==> secs[i].heading != secs[j].heading)
    && (forall i, j :: 0 <= i < |secs| && 0 <= j < |secs| ==> secs[i].heading != secs[j].done)
  }

  lemma {:induction false} ShortestIsWhole(text: string, n: nat)
    requires n <= |text| && forall i :: 0 <= i < |text| ==> !IsLineTerminator(text[i]) && !ClosesHeading(text[i..])
    ensures ShortestText(text, n) == Some(|text|)
    decreases |text| - n
  {
    hide IsLineTerminator;
    if n < |text| {
      ShortestIsWhole(text, n + 1);
    } else {
      assert text[n..] == [] && AllSpace(text[n..]);
    }
  }

  lemma TrimmedIsItself(text: string)
    requires Trimmed(text)
    ensures Trim(text) == text && TrimStart(text) == text
  {
  }

  /** A written heading reads as itself, and as nothing else. */
  lemma HeadingLineReads(level: nat, text: string)
    requires 1 <= level <= 6 && IsPlainHeading(text)
    ensures HeadingOf(HeadingLine(level, text)) == Some(HeadingText(level, text))
    ensures OpeningFence(HeadingLine(level, text)) == None
    ensures '\n' !in HeadingLine(level, text)
  {
    hide HeadingOf, OpeningFence;
    HeadingTextReads(level, text);
    HeadingIsNoFence(HeadingLine(level, text));
    assert forall i :: 0 <= i < |text| ==> text[i] != '\n';
  }

  lemma HeadingTextReads(level: nat, text: string)
    requires 1 <= level <= 6 && IsPlainHeading(text)
    ensures HeadingOf(HeadingLine(level, text)) == Some(HeadingText(level, text))
  {
    hide ClosesHeading, IsLineTerminator;
    var line, tail := HeadingLine(level, text), " " + text;
    RunIs(line, '#', level);
    TrimmedIsItself(text);
    ShortestIsWhole(text, 0);
    hide RunLength, Trim;
    assert line[level..] == tail;
    assert tail[1..] == text && TrimStart(tail) == TrimStart(text);
    assert text[..|text|] == text;
  }

  lemma HeadingIsNoFence(line: string)
    requires line != [] && line[0] == '#'
    ensures OpeningFence(line) == None
  {
    RunIs(line, ' ', 0);
    assert line[0..] == line;
    RunIs(line, '`', 0);
    RunIs(line, '~', 0);
  }

  /** The reader takes Done in any casing, and nothing else. */
  lemma DoneInAnyCasing(text: string)
    ensures IsDone(text) <==> SaysDone(text)
  {
  }

  lemma DoneIsPlain(text: string)
    requires SaysDone(text)
    ensures IsPlainHeading(text) && IsDone(text)
  {
    forall i | 0 <= i < |text| ensures !IsSpace(text[i]) && text[i] != '#' && !IsLineTerminator(text[i]) {
    }
    forall i | 0 <= i < |text| ensures !ClosesHeading(text[i..]) {
      DarkDoesNotClose(text[i..]);
    }
  }

  lemma DarkDoesNotClose(s: string)
    requires s != "" && !IsSpace(s[0])
    ensures !ClosesHeading(s)
  {
    hide IsSpace;
  }

  lemma OpenTextReads(g: Fencing)
    requires IsFencing(g)
    ensures OpeningFence(OpenText(g)) == Some(Fence(g.mark, g.ticks)) && '\n' !in OpenText(g)
  {
    hide OpeningFence, AllSpace;
    var line := OpenText(g);
    assert IsRun(line, g.mark, g.openIndent, g.ticks);
    assert g.openIndent + g.ticks < |line| ==> line[g.openIndent + g.ticks] == g.info[0];
    assert !IsRun(line, g.mark, g.openIndent, g.ticks + 1);
    OpeningFenceIsARun(line, g.mark, g.ticks);
  }

  lemma CloseTextReads(g: Fencing)
    requires IsFencing(g)
    ensures ClosesFence(CloseText(g), Fence(g.mark, g.ticks)) && '\n' !in CloseText(g)
  {
    hide ClosesFence, AllSpace;
    var line := CloseText(g);
    assert IsRun(line, g.mark, g.closeIndent, g.closeTicks);
    assert line[g.closeIndent + g.closeTicks..] == g.closeTrail;
    assert SpacesFrom(line, g.closeIndent + g.closeTicks);
    ClosingFenceIsARun(line, Fence(g.mark, g.ticks));
  }

  lemma ScanNext(s: Scan, base: nat, lines: seq<string>, line: string)
    ensures ScanFrom(s, base, lines + [line]) == ScanLine(ScanFrom(s, base, lines), line, base + |lines|)
  {
    hide ScanLine;
    assert (lines + [line])[..|lines|] == lines;
  }

  lemma {:induction false} ScanConcat(s: Scan, base: nat, a: seq<string>, b: seq<string>)
    ensures ScanFrom(s, base, a + b) == ScanFrom(ScanFrom(s, base, a), base + |a|, b)
    decreases |b|
  {
    hide ScanLine;
    if b == [] {
      assert a + b == a;
    } else {
      hide ScanFrom;
      var c, last := b[..|b| - 1], b[|b| - 1];
      assert b == c + [last];
      ScanConcat(s, base, a, c);
      ScanNext(s, base, a + c, last);
      ScanNext(ScanFrom(s, base, a), base + |a|, c, last);
      AppendIsAssociative(a, c, [last]);
    }
  }

  lemma ScanOne(s: Scan, base: nat, line: string)
    ensures ScanFrom(s, base, [line]) == ScanLine(s, line, base)
  {
    hide ScanLine;
    assert [line][..0] == [];
  }

  lemma {:induction false} ScanProse(s: Scan, base: nat, lines: seq<string>)
    requires s.open.None? && IsProse(lines)
    ensures ScanFrom(s, base, lines) == s
    decreases |lines|
  {
    if lines != [] {
      hide OpeningFence, HeadingOf, ClosesFence;
      ScanProse(s, base, lines[..|lines| - 1]);
    }
  }

  lemma {:induction false} ScanBody(s: Scan, base: nat, g: Fencing, lines: seq<string>)
    requires s.open.Some? && s.open.value.fence == Fence(g.mark, g.ticks) && IsBody(g, lines)
    ensures ScanFrom(s, base, lines) == s
    decreases |lines|
  {
    if lines != [] {
      hide OpeningFence, HeadingOf, ClosesFence;
      ScanBody(s, base, g, lines[..|lines| - 1]);
    }
  }

  function DoneLine(base: nat, sec: Section): nat {
    base + 1 + |sec.about|
  }

  function OpenLine(base: nat, sec: Section): nat {
    DoneLine(base, sec) + 1 + |sec.intro|
  }

  function CloseLine(base: nat, sec: Section): nat {
    OpenLine(base, sec) + 1 + |sec.body|
  }

  /** What one section adds to the scan. */
  function WithSection(f: Layout, s: Scan, base: nat, sec: Section): Scan {
    Scan(s.headings + [Heading(f.level, sec.heading, base), Heading(sec.doneLevel, sec.done, DoneLine(base, sec))],
         s.opens + {OpenLine(base, sec)}, s.closes[OpenLine(base, sec) := CloseLine(base, sec)], None)
  }

  lemma ScanHeadings(f: Layout, s: Scan, base: nat, sec: Section)
    requires s.open.None? && 1 <= f.level && IsRenderable(f, sec)
    ensures ScanFrom(s, base, HeadLines(f, sec))
            == s.(headings := s.headings + [Heading(f.level, sec.heading, base),
                                            Heading(sec.doneLevel, sec.done, DoneLine(base, sec))])
  {
    hide ScanFrom, HeadingOf, OpeningFence, ClosesFence, IsPlainHeading, HeadingLine, IsBody, IsProse;
    var title, done := HeadingLine(f.level, sec.heading), HeadingLine(sec.doneLevel, sec.done);
    DoneIsPlain(sec.done);
    HeadingLineReads(f.level, sec.heading);
    HeadingLineReads(sec.doneLevel, sec.done);
    ScanOne(s, base, title);
    var s1 := s.(headings := s.headings + [Heading(f.level, sec.heading, base)]);
    ScanConcat(s, base, [title], sec.about);
    ScanProse(s1, base + 1, sec.about);
    ScanConcat(s, base, [title] + sec.about, [done]);
    ScanOne(s1, DoneLine(base, sec), done);
    var s2 := s1.(headings := s1.headings + [Heading(sec.doneLevel, sec.done, DoneLine(base, sec))]);
    ScanConcat(s, base, [title] + sec.about + [done], sec.intro);
    ScanProse(s2, DoneLine(base, sec) + 1, sec.intro);
    assert s2.headings == s.headings + [Heading(f.level, sec.heading, base), Heading(sec.doneLevel, sec.done, DoneLine(base, sec))];
  }

  lemma ScanBlock(g: Fencing, s: Scan, base: nat, body: seq<string>, after: seq<string>)
    requires s.open.None? && IsFencing(g) && IsBody(g, body) && IsProse(after)
    ensures ScanFrom(s, base, BlockLines(g, body, after))
            == s.(opens := s.opens + {base}, closes := s.closes[base := base + 1 + |body|])
  {
    hide ScanFrom, HeadingOf, OpeningFence, ClosesFence, IsBody, IsProse, OpenText, CloseText, IsFencing;
    OpenTextReads(g);
    CloseTextReads(g);
    ScanOne(s, base, OpenText(g));
    var s1 := s.(open := Some(OpenFence(Fence(g.mark, g.ticks), base)), opens := s.opens + {base});
    ScanConcat(s, base, [OpenText(g)], body);
    ScanBody(s1, base + 1, g, body);
    ScanConcat(s, base, [OpenText(g)] + body, [CloseText(g)]);
    ScanOne(s1, base + 1 + |body|, CloseText(g));
    var s2 := s1.(closes := s1.closes[base := base + 1 + |body|], open := None);
    ScanConcat(s, base, [OpenText(g)] + body + [CloseText(g)], after);
    ScanProse(s2, base + 2 + |body|, after);
  }

  lemma ScanSection(f: Layout, s: Scan, base: nat, sec: Section)
    requires s.open.None? && 1 <= f.level && IsRenderable(f, sec)
    ensures ScanFrom(s, base, SectionLines(f, sec)) == WithSection(f, s, base, sec)
  {
    hide ScanFrom, BlockLines;
    ScanHeadings(f, s, base, sec);
    ScanConcat(s, base, HeadLines(f, sec), BlockLines(sec.fencing, BodyText(sec.body), sec.after));
    ScanBlock(sec.fencing, s.(headings := WithSection(f, s, base, sec).headings), OpenLine(base, sec), BodyText(sec.body), sec.after);
  }
}
