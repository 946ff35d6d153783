/** Writing a task list as a plan and reading it back (runner/core/plan-index.ts). */
module PlanRoundTrip {
  import opened Collections
  import opened JsText
  import opened Lines
  import opened PlanText
  import opened PlanIndex
  import opened PlanTasks
  import opened DoneBlock
  import opened PlanWriting
  import opened Tasks

  /** The line a section begins at. */
  function Start(f: Layout, secs: seq<Section>, j: nat): nat
    requires j <= |secs|
  {
    |PlanLines(f, secs[..j])|
  }

  /** The scan of a written plan, section by section. */
  function PlanScan(f: Layout, secs: seq<Section>): (s: Scan)
    ensures s.open == if secs == [] then PrefaceScan(f).open else None
  {
    if secs == [] then PrefaceScan(f)
    else
      var n := |secs| - 1;
      WithSection(f, PlanScan(f, secs[..n]), |PlanLines(f, secs[..n])|, secs[n])
  }

  function TaskAt(f: Layout, secs: seq<Section>, j: nat): Heading
    requires j < |secs|
  {
    Heading(f.level, secs[j].heading, Start(f, secs, j))
  }

  function DoneAt(f: Layout, secs: seq<Section>, j: nat): Heading
    requires j < |secs|
  {
    Heading(secs[j].doneLevel, secs[j].done, DoneLine(Start(f, secs, j), secs[j]))
  }

  function OpenAt(f: Layout, secs: seq<Section>, j: nat): nat
    requires j < |secs|
  {
    OpenLine(Start(f, secs, j), secs[j])
  }

  function CloseAt(f: Layout, secs: seq<Section>, j: nat): nat
    requires j < |secs|
  {
    CloseLine(Start(f, secs, j), secs[j])
  }

  lemma InitIsRenderable(f: Layout, secs: seq<Section>)
    requires secs != [] && AreRenderable(f, secs)
    ensures AreRenderable(f, secs[..|secs| - 1])
  {
    hide IsRenderable, PrefaceScan;
  }

  lemma LastIsRenderable(f: Layout, secs: seq<Section>)
    requires secs != [] && AreRenderable(f, secs)
    ensures 1 <= f.level && IsRenderable(f, secs[|secs| - 1])
  {
    hide IsRenderable, IsPreface;
  }

  lemma PrefaceOf(f: Layout, secs: seq<Section>)
    requires AreRenderable(f, secs)
    ensures IsPreface(f, secs)
  {
    hide IsPreface, IsRenderable;
  }

  lemma WrittenPlanIsClosed(f: Layout, secs: seq<Section>)
    requires AreRenderable(f, secs)
    ensures PlanScan(f, secs).open.None?
  {
    hide IsRenderable, WithSection, ScanFrom, PlanLines;
  }

  /** The preface's headings and fences stand before the first task. */
  lemma PrefaceComesFirst(f: Layout, secs: seq<Section>)
    ensures forall h :: h in PrefaceScan(f).headings ==> h.line < |f.preface|
    ensures forall o :: o in PrefaceScan(f).opens ==> o < |f.preface|
    ensures forall j :: 0 <= j <= |secs| ==> |f.preface| <= Start(f, secs, j)
  {
    hide SectionLines, ScanFrom, PlanLines;
    var n := |f.preface|;
    ScanIsWellFormed(f.preface, n);
    assert f.preface[..n] == f.preface;
    PrefaceIsScanned(f.preface, PrefaceScan(f));
    hide PrefaceScan;
    forall j | 0 <= j <= |secs| ensures |f.preface| <= Start(f, secs, j) {
      PrefaceIsInPlan(f, secs[..j]);
    }
  }

  lemma PrefaceIsScanned(lines: seq<string>, s: Scan)
    requires WellScanned(lines, |lines|, s)
    ensures forall h :: h in s.headings ==> h.line < |lines|
    ensures forall o :: o in s.opens ==> o < |lines|
  {
    assert forall o :: o in s.opens ==> IsFence(lines, |lines|, s, o);
  }

  lemma {:induction false} PrefaceIsInPlan(f: Layout, secs: seq<Section>)
    ensures |f.preface| <= |PlanLines(f, secs)|
    decreases |secs|
  {
    hide SectionLines;
    if secs != [] {
      PrefaceIsInPlan(f, secs[..|secs| - 1]);
    }
  }

  lemma {:induction false} WrittenPlanScans(f: Layout, secs: seq<Section>)
    requires AreRenderable(f, secs)
    ensures ScanFrom(NOTHING_SCANNED, 0, PlanLines(f, secs)) == PlanScan(f, secs)
    decreases |secs|
  {
    hide ScanFrom, AreRenderable, IsRenderable, WithSection, SectionLines;
    if secs != [] {
      var n := |secs| - 1;
      InitIsRenderable(f, secs);
      LastIsRenderable(f, secs);
      WrittenPlanScans(f, secs[..n]);
      WrittenPlanIsClosed(f, secs[..n]);
      ScanConcat(NOTHING_SCANNED, 0, PlanLines(f, secs[..n]), SectionLines(f, secs[n]));
      ScanSection(f, PlanScan(f, secs[..n]), |PlanLines(f, secs[..n])|, secs[n]);
    }
  }

  lemma EmptyLineReadsAsNothing()
    ensures OpeningFence("") == None && HeadingOf("") == None
  {
  }

  /** The lines and the scan of the rendered text. */
  lemma RenderedPlanScans(f: Layout, secs: seq<Section>)
    requires AreRenderable(f, secs)
    ensures SplitLines(Render(f, secs)) == PlanLines(f, secs) + [""]
    ensures ScanFrom(NOTHING_SCANNED, 0, PlanLines(f, secs) + [""]) == PlanScan(f, secs)
  {
    var lines := PlanLines(f, secs);
    PlanLinesAreUnbroken(f, secs);
    hide PlanLines, ScanFrom, AreRenderable, OpeningFence, HeadingOf;
    TerminatedLinesEnd(lines, '\n');
    WrittenPlanScans(f, secs);
    ScanNext(NOTHING_SCANNED, 0, lines, "");
    WrittenPlanIsClosed(f, secs);
    EmptyLineReadsAsNothing();
  }

  lemma {:induction false} PlanLinesAreUnbroken(f: Layout, secs: seq<Section>)
    requires AreRenderable(f, secs)
    ensures Unbroken(PlanLines(f, secs), '\n')
    decreases |secs|
  {
    hide AreRenderable, IsRenderable, SectionLines;
    if secs != [] {
      hide Unbroken;
      var n := |secs| - 1;
      InitIsRenderable(f, secs);
      LastIsRenderable(f, secs);
      PlanLinesAreUnbroken(f, secs[..n]);
      SectionIsUnbroken(f, secs[n]);
      UnbrokenConcat(PlanLines(f, secs[..n]), SectionLines(f, secs[n]));
    } else {
      hide PrefaceScan, Unbroken;
      assert IsPreface(f, secs) by {
        PrefaceOf(f, secs);
      }
    }
  }

  lemma LastSection(f: Layout, secs: seq<Section>)
    requires secs != []
    ensures PlanLines(f, secs) == PlanLines(f, secs[..|secs| - 1]) + SectionLines(f, secs[|secs| - 1])
  {
    hide SectionLines;
  }

  lemma UnbrokenConcat(a: seq<string>, b: seq<string>)
    requires Unbroken(a, '\n') && Unbroken(b, '\n')
    ensures Unbroken(a + b, '\n')
  {
  }

  lemma SectionIsUnbroken(f: Layout, sec: Section)
    requires IsRenderable(f, sec) && 1 <= f.level
    ensures Unbroken(SectionLines(f, sec), '\n')
  {
    hide Unbroken, HeadingLine, OpenText, CloseText, IsRenderable, HeadLines, BlockLines;
    PartsAreUnbroken(f, sec);
    HeadIsUnbroken(f, sec);
    BlockIsUnbroken(sec.fencing, BodyText(sec.body), sec.after);
    UnbrokenConcat(HeadLines(f, sec), BlockLines(sec.fencing, BodyText(sec.body), sec.after));
  }

  lemma HeadIsUnbroken(f: Layout, sec: Section)
    requires Unbroken([HeadingLine(f.level, sec.heading)], '\n') && Unbroken([HeadingLine(sec.doneLevel, sec.done)], '\n')
    requires Unbroken(sec.about, '\n') && Unbroken(sec.intro, '\n')
    ensures Unbroken(HeadLines(f, sec), '\n')
  {
    var title, done := HeadingLine(f.level, sec.heading), HeadingLine(sec.doneLevel, sec.done);
    hide Unbroken, HeadingLine;
    UnbrokenConcat([title], sec.about);
    UnbrokenConcat([title] + sec.about, [done]);
    UnbrokenConcat([title] + sec.about + [done], sec.intro);
  }

  lemma BlockIsUnbroken(g: Fencing, body: seq<string>, after: seq<string>)
    requires Unbroken([OpenText(g)], '\n') && Unbroken([CloseText(g)], '\n') && Unbroken(body, '\n') && Unbroken(after, '\n')
    ensures Unbroken(BlockLines(g, body, after), '\n')
  {
    hide Unbroken, OpenText, CloseText;
    UnbrokenConcat([OpenText(g)], body);
    UnbrokenConcat([OpenText(g)] + body, [CloseText(g)]);
    UnbrokenConcat([OpenText(g)] + body + [CloseText(g)], after);
  }

  lemma PartsAreUnbroken(f: Layout, sec: Section)
    requires IsRenderable(f, sec) && 1 <= f.level
    ensures Unbroken([HeadingLine(f.level, sec.heading)], '\n') && Unbroken([HeadingLine(sec.doneLevel, sec.done)], '\n')
    ensures Unbroken([OpenText(sec.fencing)], '\n') && Unbroken([CloseText(sec.fencing)], '\n') && Unbroken(BodyText(sec.body), '\n')
    ensures Unbroken(sec.about, '\n') && Unbroken(sec.intro, '\n') && Unbroken(sec.after, '\n')
  {
    hide HeadingLine, OpenText, CloseText, ClosesFence, HeadingOf, OpeningFence, IsPlainHeading, ListsCommands, IsFencing, SaysDone, LineText;
    DoneIsPlain(sec.done);
    HeadingLineReads(f.level, sec.heading);
    HeadingLineReads(sec.doneLevel, sec.done);
    OpenTextReads(sec.fencing);
    CloseTextReads(sec.fencing);
  }

  lemma SectionLength(f: Layout, sec: Section)
    ensures |SectionLines(f, sec)| == CloseLine(0, sec) + 1 + |sec.after|
  {
  }

  /** A section ends before the next begins. */
  lemma {:induction false} SectionsFollow(f: Layout, secs: seq<Section>, i: nat, j: nat)
    requires i < j <= |secs|
    ensures CloseAt(f, secs, i) < Start(f, secs, j)
    decreases j
  {
    hide SectionLines;
    LastSection(f, secs[..j]);
    SectionLength(f, secs[j - 1]);
    assert secs[..j][..j - 1] == secs[..j - 1];
    if i < j - 1 {
      SectionsFollow(f, secs, i, j - 1);
    }
  }

  /** Everything a section contributes to the scan is still there at the end. */
  ghost predicate IsScanned(s: Scan, f: Layout, secs: seq<Section>, j: nat)
    requires j < |secs|
  {
    && TaskAt(f, secs, j) in s.headings && DoneAt(f, secs, j) in s.headings
    && OpenAt(f, secs, j) in s.opens
    && OpenAt(f, secs, j) in s.closes && s.closes[OpenAt(f, secs, j)] == CloseAt(f, secs, j)
  }

  lemma {:induction false} SectionIsScanned(f: Layout, secs: seq<Section>, j: nat)
    requires j < |secs|
    ensures IsScanned(PlanScan(f, secs), f, secs, j)
    decreases |secs|
  {
    hide PlanLines;
    var n := |secs| - 1;
    if j < n {
      SectionIsScanned(f, secs[..n], j);
      SectionsFollow(f, secs, j, n);
      assert secs[..n][..j] == secs[..j];
      LaterSectionKeeps(f, PlanScan(f, secs[..n]), |PlanLines(f, secs[..n])|, secs[n], secs, j);
    }
  }

  lemma LaterSectionKeeps(f: Layout, s: Scan, base: nat, sec: Section, secs: seq<Section>, j: nat)
    requires j < |secs| && IsScanned(s, f, secs, j) && CloseAt(f, secs, j) < base
    ensures IsScanned(WithSection(f, s, base, sec), f, secs, j)
  {
    hide PlanLines;
  }

  lemma {:induction false} HeadingsAreOfSections(f: Layout, secs: seq<Section>, h: Heading) returns (j: nat)
    requires h in PlanScan(f, secs).headings && h !in PrefaceScan(f).headings
    ensures j < |secs| && (h == TaskAt(f, secs, j) || h == DoneAt(f, secs, j))
    decreases |secs|
  {
    hide PlanLines, PrefaceScan;
    var n := |secs| - 1;
    if h in PlanScan(f, secs[..n]).headings {
      j := HeadingsAreOfSections(f, secs[..n], h);
      assert secs[..n][..j] == secs[..j];
    } else {
      j := n;
    }
  }

  lemma {:induction false} OpensAreOfSections(f: Layout, secs: seq<Section>, o: nat) returns (j: nat)
    requires o in PlanScan(f, secs).opens && o !in PrefaceScan(f).opens
    ensures j < |secs| && o == OpenAt(f, secs, j)
    decreases |secs|
  {
    hide PlanLines, PrefaceScan;
    var n := |secs| - 1;
    if o in PlanScan(f, secs[..n]).opens {
      j := OpensAreOfSections(f, secs[..n], o);
      assert secs[..n][..j] == secs[..j];
    } else {
      j := n;
    }
  }

  lemma {:induction false} BodyIsThere(f: Layout, secs: seq<Section>, j: nat)
    requires j < |secs|
    ensures CloseAt(f, secs, j) < |PlanLines(f, secs)|
    ensures PlanLines(f, secs)[OpenAt(f, secs, j) + 1..CloseAt(f, secs, j)] == BodyText(secs[j].body)
    decreases |secs|
  {
    hide SectionLines, PlanLines;
    var n := |secs| - 1;
    LastSection(f, secs);
    SectionLength(f, secs[n]);
    if j < n {
      BodyIsThere(f, secs[..n], j);
      assert secs[..n][..j] == secs[..j];
      SliceOfPrefix(PlanLines(f, secs[..n]), SectionLines(f, secs[n]), OpenAt(f, secs, j) + 1, CloseAt(f, secs, j));
    } else {
      var base := |PlanLines(f, secs[..n])|;
      BodyOfSection(f, secs[n]);
      SliceOfSuffix(PlanLines(f, secs[..n]), SectionLines(f, secs[n]), OpenLine(0, secs[n]) + 1, CloseLine(0, secs[n]));
    }
  }

  lemma SliceOfPrefix<T>(a: seq<T>, b: seq<T>, i: nat, j: nat)
    requires i <= j <= |a|
    ensures (a + b)[i..j] == a[i..j]
  {
  }

  lemma SliceOfSuffix<T>(a: seq<T>, b: seq<T>, i: nat, j: nat)
    requires i <= j <= |b|
    ensures (a + b)[|a| + i..|a| + j] == b[i..j]
  {
  }

  lemma BodyOfSection(f: Layout, sec: Section)
    ensures CloseLine(0, sec) <= |SectionLines(f, sec)|
    ensures SectionLines(f, sec)[OpenLine(0, sec) + 1..CloseLine(0, sec)] == BodyText(sec.body)
  {
    var head, block := HeadLines(f, sec), BlockLines(sec.fencing, BodyText(sec.body), sec.after);
    hide HeadingLine, OpenText, CloseText, LineText;
    assert |head| == OpenLine(0, sec);
    assert block[1..1 + |sec.body|] == BodyText(sec.body);
    hide HeadLines, BlockLines;
    SliceOfSuffix(head, block, 1, 1 + |sec.body|);
  }

  /** The end of a section as the reader finds it. */
  function EndAt(f: Layout, secs: seq<Section>, n: nat, j: nat): nat
    requires j < |secs|
  {
    if j + 1 < |secs| then Start(f, secs, j + 1) else n
  }

  lemma SectionEndIsNextTask(f: Layout, secs: seq<Section>, n: nat, j: nat)
    requires DonesAreMarked(f, secs)
    requires j < |secs| && InLineOrder(PlanScan(f, secs).headings)
    ensures SectionEnd(PlanScan(f, secs), n, TaskAt(f, secs, j)) == EndAt(f, secs, n, j)
  {
    PrefaceComesFirst(f, secs);
    hide PlanLines, PlanScan, Start, PrefaceScan;
    var s, task := PlanScan(f, secs), TaskAt(f, secs, j);
    var q := EndingSection(task.line, task.level);
    var found := Find(s.headings, q);
    if j + 1 < |secs| {
      SectionIsScanned(f, secs, j + 1);
      SectionsFollow(f, secs, j, j + 1);
      FindIsFirst(s.headings, q, TaskAt(f, secs, j + 1));
    }
    if found.Some? {
      var i := HeadingsAreOfSections(f, secs, found.value);
      OnlyLaterTasksEnd(f, secs, j, i, found.value);
    }
  }

  lemma OnlyLaterTasksEnd(f: Layout, secs: seq<Section>, j: nat, i: nat, h: Heading)
    requires DonesAreMarked(f, secs)
    requires j < |secs| && i < |secs| && (h == TaskAt(f, secs, i) || h == DoneAt(f, secs, i))
    requires h.line > Start(f, secs, j) && h.level <= f.level
    ensures j + 1 < |secs| && h.line >= Start(f, secs, j + 1)
  {
    hide PlanLines;
    if i < j {
      SectionsFollow(f, secs, i, j);
    } else if j + 1 < i {
      SectionsFollow(f, secs, j + 1, i);
    }
  }

  lemma OnlyOwnDoneIsInside(f: Layout, secs: seq<Section>, n: nat, j: nat, h: Heading)
    requires j < |secs| && h in PlanScan(f, secs).headings && TaskAt(f, secs, j).line < h.line < EndAt(f, secs, n, j)
    ensures h == DoneAt(f, secs, j)
  {
    PrefaceComesFirst(f, secs);
    hide PlanLines, PlanScan, PrefaceScan;
    var i := HeadingsAreOfSections(f, secs, h);
    if i < j {
      SectionsFollow(f, secs, i, j);
    } else if j < i {
      if j + 1 < i {
        SectionsFollow(f, secs, j + 1, i);
      }
    }
  }

  /** The reader finds each section's own heading, Done heading and block. */
  lemma WrittenSectionIsLocated(f: Layout, secs: seq<Section>, n: nat, j: nat)
    requires AreRenderable(f, secs) && j < |secs| && n > |PlanLines(f, secs)|
    requires InLineOrder(PlanScan(f, secs).headings)
    ensures Locate(PlanScan(f, secs), n, secs[j].heading)
            == At(TaskAt(f, secs, j), EndAt(f, secs, n, j), DoneAt(f, secs, j), OpenAt(f, secs, j), CloseAt(f, secs, j))
  {
    RenderableDonesAreMarked(f, secs);
    hide PlanLines, PlanScan, AreRenderable, WithSection, SectionEnd;
    var s, task, done := PlanScan(f, secs), TaskAt(f, secs, j), DoneAt(f, secs, j);
    SectionIsScanned(f, secs, j);
    SectionEndIsNextTask(f, secs, n, j);
    DoneIsInside(f, secs, n, j);
    HeadingIsUnique(f, secs, j);
    FilterTheOnlyOne(s.headings, WithText(secs[j].heading), task);
    DoneIsTheOnlyOne(f, secs, n, j);
    assert DoneHeadings(s, n, task) == [done];
    BlockIsFound(f, secs, n, j);
  }

  lemma DoneIsInside(f: Layout, secs: seq<Section>, n: nat, j: nat)
    requires j < |secs| && n > |PlanLines(f, secs)|
    ensures TaskAt(f, secs, j).line < DoneAt(f, secs, j).line < OpenAt(f, secs, j) < CloseAt(f, secs, j) < EndAt(f, secs, n, j)
  {
    hide PlanLines;
    if j + 1 < |secs| {
      SectionsFollow(f, secs, j, j + 1);
    } else {
      BodyIsThere(f, secs, j);
    }
  }

  lemma HeadingsDiffer(f: Layout, secs: seq<Section>, i: nat, j: nat)
    requires AreRenderable(f, secs) && i < |secs| && j < |secs|
    ensures secs[j].heading != secs[i].done && (secs[i].heading == secs[j].heading ==> i == j)
  {
    hide IsRenderable, IsPreface;
  }

  lemma HeadingIsUnique(f: Layout, secs: seq<Section>, j: nat)
    requires AreRenderable(f, secs) && j < |secs|
    ensures forall h :: h in PlanScan(f, secs).headings && h.text == secs[j].heading ==> h == TaskAt(f, secs, j)
  {
    PrefaceOf(f, secs);
    hide PlanLines, PlanScan, AreRenderable, PrefaceScan;
    forall h | h in PlanScan(f, secs).headings && h.text == secs[j].heading ensures h == TaskAt(f, secs, j) {
      var i := HeadingsAreOfSections(f, secs, h);
      HeadingsDiffer(f, secs, i, j);
    }
  }

  lemma DoneIsTheOnlyOne(f: Layout, secs: seq<Section>, n: nat, j: nat)
    requires DonesAreMarked(f, secs)
    requires j < |secs| && n > |PlanLines(f, secs)| && InLineOrder(PlanScan(f, secs).headings)
    ensures Filter(PlanScan(f, secs).headings, Between(TaskAt(f, secs, j).line, EndAt(f, secs, n, j))) == [DoneAt(f, secs, j)]
    ensures Filter([DoneAt(f, secs, j)], DoneBelow(f.level)) == [DoneAt(f, secs, j)]
    ensures Find([DoneAt(f, secs, j)], After(DoneAt(f, secs, j).line)) == None
  {
    hide PlanLines, PlanScan, Filter, Find, EndAt;
    var hs, done, q := PlanScan(f, secs).headings, DoneAt(f, secs, j), Between(TaskAt(f, secs, j).line, EndAt(f, secs, n, j));
    SectionIsScanned(f, secs, j);
    DoneIsInside(f, secs, n, j);
    forall h | h in hs && Holds(q, h) ensures h == done {
      OnlyOwnDoneIsInside(f, secs, n, j, h);
    }
    FilterTheOnlyOne(hs, q, done);
    DoneStandsAlone(f, done);
  }

  lemma DoneStandsAlone(f: Layout, done: Heading)
    requires done.level > f.level && SaysDone(done.text)
    ensures Filter([done], DoneBelow(f.level)) == [done] && Find([done], After(done.line)) == None
  {
    DoneInAnyCasing(done.text);
    hide IsDone, SaysDone;
    FilterTheOnlyOne([done], DoneBelow(f.level), done);
    hide Filter;
    assert [done][1..] == [];
  }

  /** Every section's Done heading is one, and deeper than the tasks. */
  predicate DonesAreMarked(f: Layout, secs: seq<Section>) {
    forall j :: 0 <= j < |secs| ==> f.level < secs[j].doneLevel && SaysDone(secs[j].done)
  }

  lemma RenderableDonesAreMarked(f: Layout, secs: seq<Section>)
    requires AreRenderable(f, secs)
    ensures DonesAreMarked(f, secs)
  {
    hide IsPreface, IsPlainHeading, IsProse, IsBody, IsFencing, ListsCommands, SaysDone;
    forall j | 0 <= j < |secs| ensures f.level < secs[j].doneLevel && SaysDone(secs[j].done) {
      assert IsRenderable(f, secs[j]);
    }
  }

  lemma BlockIsFound(f: Layout, secs: seq<Section>, n: nat, j: nat)
    requires DonesAreMarked(f, secs)
    requires j < |secs| && n > |PlanLines(f, secs)| && InLineOrder(PlanScan(f, secs).headings)
    requires SectionEnd(PlanScan(f, secs), n, TaskAt(f, secs, j)) == EndAt(f, secs, n, j)
    ensures LocateBlock(PlanScan(f, secs), n, TaskAt(f, secs, j), DoneAt(f, secs, j))
            == At(TaskAt(f, secs, j), EndAt(f, secs, n, j), DoneAt(f, secs, j), OpenAt(f, secs, j), CloseAt(f, secs, j))
  {
    PrefaceComesFirst(f, secs);
    hide PlanLines, PlanScan, SectionEnd, Start, Filter, Find, PrefaceScan;
    var s, done := PlanScan(f, secs), DoneAt(f, secs, j);
    SectionIsScanned(f, secs, j);
    DoneIsInside(f, secs, n, j);
    DoneIsTheOnlyOne(f, secs, n, j);
    forall o | o in s.opens && done.line < o < EndAt(f, secs, n, j) ensures o == OpenAt(f, secs, j) {
      var i := OpensAreOfSections(f, secs, o);
      if i < j {
        SectionsFollow(f, secs, i, j);
      } else if j + 1 < i {
        SectionsFollow(f, secs, j + 1, i);
      }
    }
  }

  /** A reference to a written heading resolves to exactly the commands its section lists. */
  lemma WrittenTaskResolves(f: Layout, secs: seq<Section>, j: nat, ref: TaskRef)
    requires AreRenderable(f, secs) && j < |secs| && ref.heading == secs[j].heading
    ensures Resolve(PlanLines(f, secs) + [""], PlanScan(f, secs), ref)
            == Resolved(ResolvedTask(ref.id, ref.heading, Listed(secs[j].body)))
  {
    hide PlanLines, PlanScan, Locate, AreRenderable, BodyOf, TaskFrom, Listed;
    var lines := PlanLines(f, secs) + [""];
    WrittenHeadingsAreInOrder(f, secs);
    WrittenSectionIsLocated(f, secs, |lines|, j);
    WrittenBody(f, secs, j);
    BodyListsCommands(f, secs, j);
    BlockListsItsCommands(ref, secs[j].body);
  }

  lemma BodyListsCommands(f: Layout, secs: seq<Section>, j: nat)
    requires AreRenderable(f, secs) && j < |secs|
    ensures AreWritten(secs[j].body) && !IsContinued(secs[j].body) && Listed(secs[j].body) != []
  {
    hide IsPlainHeading, IsProse, IsBody, IsPreface, IsFencing, SaysDone, AreWritten, IsContinued, Listed;
    assert IsRenderable(f, secs[j]);
  }

  lemma WrittenHeadingsAreInOrder(f: Layout, secs: seq<Section>)
    requires AreRenderable(f, secs)
    ensures InLineOrder(PlanScan(f, secs).headings)
  {
    hide PlanLines, PlanScan, AreRenderable, WellScanned, ScanFrom;
    var lines := PlanLines(f, secs) + [""];
    RenderedPlanScans(f, secs);
    ScanIsWellFormed(lines, |lines|);
    assert lines[..|lines|] == lines;
    HeadingsInOrder(lines, PlanScan(f, secs));
  }

  lemma WrittenBody(f: Layout, secs: seq<Section>, j: nat)
    requires j < |secs|
    ensures var lines := PlanLines(f, secs) + [""];
      BodyOf(lines, At(TaskAt(f, secs, j), EndAt(f, secs, |lines|, j), DoneAt(f, secs, j), OpenAt(f, secs, j), CloseAt(f, secs, j)))
      == BodyText(secs[j].body)
  {
    hide PlanLines, TaskAt, DoneAt, EndAt;
    BodyIsThere(f, secs, j);
    SliceOfPrefix(PlanLines(f, secs), [""], OpenAt(f, secs, j) + 1, CloseAt(f, secs, j));
  }

  // ----- nested tasks

  /** A plan of one section under a preface that is one heading of a higher rank. */
  predicate IsNested(f: Layout, outer: nat, title: string, sec: Section) {
    && AreRenderable(f, [sec]) && 1 <= outer < f.level && f.preface == [HeadingLine(outer, title)]
    && IsPlainHeading(title) && title != sec.done && title != sec.heading && !IsDone(sec.heading)
  }

  lemma NestedPlanScans(f: Layout, outer: nat, title: string, sec: Section)
    requires IsNested(f, outer, title, sec)
    ensures PlanScan(f, [sec]) == WithSection(f, Scan([Heading(outer, title, 0)], {}, map[], None), 1, sec)
  {
    hide HeadingLine, ScanLine, WithSection, IsPlainHeading, IsDone, AreRenderable;
    LastIsRenderable(f, [sec]);
    HeadingLineReads(outer, title);
    ScanOne(NOTHING_SCANNED, 0, f.preface[0]);
    assert [sec][..0] == [];
    assert ScanLine(NOTHING_SCANNED, f.preface[0], 0) == Scan([Heading(outer, title, 0)], {}, map[], None) by {
      ScanHeadingLine(f.preface[0], outer, title);
    }
    assert PlanLines(f, []) == f.preface;
  }

  lemma ScanHeadingLine(line: string, level: nat, text: string)
    requires OpeningFence(line) == None && HeadingOf(line) == Some(HeadingText(level, text))
    ensures ScanLine(NOTHING_SCANNED, line, 0) == Scan([Heading(level, text, 0)], {}, map[], None)
  {
    hide OpeningFence, HeadingOf;
  }

  /** Nested tasks are both located, at one and the same Done block: the task above takes the commands of
      the task below. */
  lemma NestedTasksShareTheirBlock(f: Layout, outer: nat, title: string, sec: Section)
    requires IsNested(f, outer, title, sec)
    ensures ShareABlock(PlanScan(f, [sec]), |PlanLines(f, [sec])| + 1, title, sec.heading)
  {
    hide PlanLines, PlanScan, AreRenderable, IsPlainHeading, Locate, IsDone;
    var s, n := PlanScan(f, [sec]), |PlanLines(f, [sec])| + 1;
    NestedPlanScans(f, outer, title, sec);
    WrittenHeadingsAreInOrder(f, [sec]);
    WrittenSectionIsLocated(f, [sec], n, 0);
    NestedLines(f, sec, n);
    RenderableDonesAreMarked(f, [sec]);
    DoneInAnyCasing(sec.done);
    LastIsRenderable(f, [sec]);
    HeadingsDiffer(f, [sec], 0, 0);
    BothLocateTheLastDone(s, n, Heading(outer, title, 0), TaskAt(f, [sec], 0), DoneAt(f, [sec], 0));
  }

  /** Two tasks located at one block. */
  predicate ShareABlock(s: Scan, n: nat, a: string, b: string) {
    var above, below := Locate(s, n, a), Locate(s, n, b);
    && above.At? && below.At? && above.task != below.task
    && above.done == below.done && above.open == below.open && above.close == below.close
  }

  lemma NestedLines(f: Layout, sec: Section, n: nat)
    requires |f.preface| == 1 && n == |PlanLines(f, [sec])| + 1
    ensures Start(f, [sec], 0) == 1 && CloseAt(f, [sec], 0) < n
  {
    hide SectionLines;
    BodyIsThere(f, [sec], 0);
    assert [sec][..0] == [];
  }

  lemma BothLocateTheLastDone(s: Scan, n: nat, above: Heading, below: Heading, done: Heading)
    requires InLineOrder(s.headings) && s.headings == [above, below, done]
    requires above.level < below.level < done.level && IsDone(done.text) && !IsDone(below.text)
    requires above.text != below.text && above.text != done.text && below.text != done.text && done.line < n
    requires Locate(s, n, below.text).At?
    ensures ShareABlock(s, n, above.text, below.text)
  {
    hide IsDone, Locate, LocateBlock;
    LastDoneIsLocated(s, n, above, done);
    LastDoneIsLocated(s, n, below, done);
    SameBlock(s, n, above, below, done);
  }

  lemma SameBlock(s: Scan, n: nat, a: Heading, b: Heading, done: Heading)
    requires BlockLimit(s, n, a, done) == BlockLimit(s, n, b, done) && LocateBlock(s, n, b, done).At?
    ensures var above, below := LocateBlock(s, n, a, done), LocateBlock(s, n, b, done);
      above.At? && above.task == a && below.task == b && above.done == below.done
      && above.open == below.open && above.close == below.close
  {
    hide BlockLimit, SectionEnd, FirstOpen;
  }

  /** A task whose section runs to the end and whose one Done heading is the last heading. */
  lemma LastDoneIsLocated(s: Scan, n: nat, task: Heading, done: Heading)
    requires InLineOrder(s.headings) && task in s.headings && done in s.headings && task.line < done.line < n
    requires forall h :: h in s.headings ==> h.line <= done.line
    requires forall h :: h in s.headings && h.text == task.text ==> h == task
    requires forall h :: h in s.headings && h.line > task.line ==> h.level > task.level
    requires forall h :: h in s.headings && h.line > task.line && IsDone(h.text) ==> h == done
    requires IsDone(done.text)
    ensures Locate(s, n, task.text) == LocateBlock(s, n, task, done) && BlockLimit(s, n, task, done) == n
  {
    hide IsDone, LocateBlock;
    FilterTheOnlyOne(s.headings, WithText(task.text), task);
    SectionRunsToTheEnd(s, n, task, done);
    hide SectionEnd, BlockLimit, Filter, Find;
    assert DoneHeadings(s, n, task) == [done];
  }

  lemma SectionRunsToTheEnd(s: Scan, n: nat, task: Heading, done: Heading)
    requires InLineOrder(s.headings) && done in s.headings && task.line < done.line < n
    requires forall h :: h in s.headings ==> h.line <= done.line
    requires forall h :: h in s.headings && h.line > task.line ==> h.level > task.level
    requires forall h :: h in s.headings && h.line > task.line && IsDone(h.text) ==> h == done
    requires IsDone(done.text)
    ensures SectionEnd(s, n, task) == n && DoneHeadings(s, n, task) == [done] && BlockLimit(s, n, task, done) == n
  {
    hide IsDone, Filter, Find;
    var inSection := Filter(s.headings, Between(task.line, n));
    FilterKeepsOrder(s.headings, Between(task.line, n));
    assert done in inSection;
    FilterTheOnlyOne(inSection, DoneBelow(task.level), done);
    assert Find(inSection, After(done.line)).None?;
  }

  const NESTED := Layout(["# A"], 2)
  const TICKS := Fencing('`', 0, 3, "", 0, 3, "")
  const BELOW := Section("t", "B", [], "Done", 3, [], TICKS, [CommandLine("", "make", "")], [])

  lemma MakeLine()
    ensures BodyText(BELOW.body) == ["make"]
  {
    assert "" + ("make" + "") == "make";
    assert LineText(BELOW.body[0]) == "make";
  }

  lemma SixLines()
    ensures PlanLines(NESTED, [BELOW]) == ["# A", "## B", "### Done", "```", "make", "```"]
  {
    MakeLine();
    hide LineText, BodyText;
    assert HeadingLine(2, "B") == "## B" && HeadingLine(3, "Done") == "### Done";
    assert OpenText(TICKS) == "```" && CloseText(TICKS) == "```";
    hide HeadingLine, OpenText, CloseText;
    assert [BELOW][..0] == [];
    assert PlanLines(NESTED, [BELOW]) == PlanLines(NESTED, []) + SectionLines(NESTED, BELOW);
    assert HeadLines(NESTED, BELOW) == ["## B", "### Done"];
    assert BlockLines(TICKS, ["make"], []) == ["```", "make", "```"];
  }

  /** The smallest such plan. */
  lemma SixLinesAreNested()
    ensures PlanLines(NESTED, [BELOW]) == ["# A", "## B", "### Done", "```", "make", "```"]
    ensures IsNested(NESTED, 1, "A", BELOW) && ShareABlock(PlanScan(NESTED, [BELOW]), 7, "A", "B")
  {
    SixLines();
    hide PlanScan, ShareABlock, AreRenderable, IsPlainHeading, PlanLines, IsDone, SaysDone;
    FirstHeadingLine();
    hide HeadingLine;
    LettersArePlain("A");
    LettersArePlain("B");
    NestedIsRenderable();
    LetterIsNotDone();
    NestedTasksShareTheirBlock(NESTED, 1, "A", BELOW);
  }

  lemma LetterIsNotDone()
    ensures !IsDone("B")
  {
  }

  lemma LettersArePlain(text: string)
    requires |text| == 1 && 'A' <= text[0] <= 'B'
    ensures IsPlainHeading(text)
  {
    forall i | 0 <= i < |text| ensures !ClosesHeading(text[i..]) {
      assert text[i..][0] == text[0] && !IsSpace(text[0]);
    }
  }

  lemma NestedIsRenderable()
    requires IsPlainHeading("A") && IsPlainHeading("B")
    ensures AreRenderable(NESTED, [BELOW])
  {
    hide IsPlainHeading, IsPreface, IsRenderable, IsBody, ListsCommands, IsFencing, SaysDone, HeadingLine, AreRenderable, BodyText;
    assert HeadingLine(1, "A") == "# A" by {
      FirstHeadingLine();
    }
    TitleIsAPreface(NESTED, 1, "A", BELOW);
    CommandIsABody();
    BareSectionIsRenderable(NESTED, BELOW);
    OneSectionIsRenderable(NESTED, BELOW);
  }

  lemma FirstHeadingLine()
    ensures HeadingLine(1, "A") == "# A"
  {
    assert Repeat('#', 1) == "#";
  }

  lemma BareSectionIsRenderable(f: Layout, sec: Section)
    requires IsPlainHeading(sec.heading) && SaysDone(sec.done) && f.level < sec.doneLevel <= 6
    requires sec.about == sec.intro == sec.after == []
    requires IsFencing(sec.fencing) && IsBody(sec.fencing, BodyText(sec.body)) && ListsCommands(sec.body)
    ensures IsRenderable(f, sec)
  {
    hide IsPlainHeading, IsBody, ListsCommands, IsFencing, SaysDone;
  }

  lemma OneSectionIsRenderable(f: Layout, sec: Section)
    requires IsPreface(f, [sec]) && 1 <= f.level && IsRenderable(f, sec) && sec.heading != sec.done
    ensures AreRenderable(f, [sec])
  {
    hide IsPreface, IsRenderable;
  }

  /** A title alone is a preface. */
  lemma TitleIsAPreface(f: Layout, level: nat, title: string, sec: Section)
    requires f.preface == [HeadingLine(level, title)] && 1 <= level <= 6
    requires IsPlainHeading(title) && title != sec.heading
    ensures IsPreface(f, [sec])
  {
    hide IsPlainHeading, HeadingLine, OpeningFence, HeadingOf, ScanLine;
    var line := HeadingLine(level, title);
    HeadingLineReads(level, title);
    ScanOne(NOTHING_SCANNED, 0, line);
    ScanHeadingLine(line, level, title);
    hide ScanFrom;
    assert f.preface == [line];
  }

  lemma CommandIsABody()
    ensures SaysDone("Done") && IsFencing(TICKS) && ListsCommands(BELOW.body) && IsBody(TICKS, BodyText(BELOW.body))
  {
    MakeLine();
    MakeClosesNothing();
    hide ClosesFence, BodyText;
    assert "make"[0] == 'm' && "make"[3] == 'e';
    assert Trimmed("make") && IsWritten(BELOW.body[0]);
    assert BELOW.body[..0] == [] && Listed(BELOW.body) == ["make"];
  }

  lemma MakeClosesNothing()
    ensures !ClosesFence("make", Fence('`', 3)) && '\n' !in "make"
  {
    var line := "make";
    assert line[0] == 'm';
    RunIs(line, ' ', 0);
    assert line[0..] == line;
    RunIs(line, '`', 0);
  }

  function WrittenTasks(secs: seq<Section>): seq<ResolvedTask> {
    if secs == [] then []
    else
      var sec := secs[|secs| - 1];
      WrittenTasks(secs[..|secs| - 1]) + [ResolvedTask(sec.id, sec.heading, Listed(sec.body))]
  }

  predicate AreReferences(refs: seq<TaskRef>, secs: seq<Section>) {
    |refs| == |secs| && forall i :: 0 <= i < |refs| ==> refs[i].id == secs[i].id && refs[i].heading == secs[i].heading
  }

  /** Writing a task list as a plan and reading it back gives the same tasks and commands, and no issue. */
  lemma RenderedPlanReadsBack(f: Layout, secs: seq<Section>, refs: seq<TaskRef>, cardId: string)
    requires AreRenderable(f, secs) && AreReferences(refs, secs)
    ensures var lines := SplitLines(Render(f, secs));
      var s := ScanFrom(NOTHING_SCANNED, 0, lines);
      TasksOf(lines, s, refs) == WrittenTasks(secs) && IssuesOf(lines, s, cardId, refs) == []
  {
    RenderedPlanScans(f, secs);
    assert refs[..|secs|] == refs && secs[..|secs|] == secs;
    FirstTasksReadBack(f, secs, refs, cardId, |secs|);
  }

  lemma {:induction false} FirstTasksReadBack(f: Layout, secs: seq<Section>, refs: seq<TaskRef>, cardId: string, n: nat)
    requires AreRenderable(f, secs) && AreReferences(refs, secs) && n <= |secs|
    ensures var lines := PlanLines(f, secs) + [""];
      && TasksOf(lines, PlanScan(f, secs), refs[..n]) == WrittenTasks(secs[..n])
      && IssuesOf(lines, PlanScan(f, secs), cardId, refs[..n]) == []
  {
    hide Resolve, PlanLines, PlanScan, AreRenderable, Listed;
    if n > 0 {
      FirstTasksReadBack(f, secs, refs, cardId, n - 1);
      assert refs[..n][..n - 1] == refs[..n - 1] && secs[..n][..n - 1] == secs[..n - 1];
      WrittenTaskResolves(f, secs, n - 1, refs[n - 1]);
    }
  }
}
