/** Why a reference to a task is refused or where its block is, said of the plan's headings and fences alone
    (runner/core/plan-index.ts). */
module PlanSections {
  import opened Collections
  import opened Lines
  import opened PlanText
  import opened PlanIndex
  import opened PlanTasks
  import opened Tasks

  /** The heading stands in the task's section: below it, with every heading on the way down to it deeper. */
  ghost predicate InSection(s: Scan, task: Heading, h: Heading) {
    && h in s.headings && task.line < h.line
    && forall g :: g in s.headings && task.line < g.line <= h.line ==> g.level > task.level
  }

  /** The one heading with this text. */
  ghost predicate IsTheTask(s: Scan, text: string, task: Heading) {
    task in s.headings && task.text == text && forall h :: h in s.headings && h.text == text ==> h == task
  }

  ghost predicate IsDoneOf(s: Scan, task: Heading, done: Heading) {
    InSection(s, task, done) && IsDone(done.text)
  }

  ghost predicate IsTheDone(s: Scan, task: Heading, done: Heading) {
    IsDoneOf(s, task, done) && forall h :: IsDoneOf(s, task, h) ==> h == done
  }

  /** A fence opens there before any further heading. */
  ghost predicate OpensBelow(s: Scan, done: Heading, o: nat) {
    o in s.opens && done.line < o && forall h :: h in s.headings ==> !(done.line < h.line <= o)
  }

  ghost predicate IsFirstBelow(s: Scan, done: Heading, o: nat) {
    OpensBelow(s, done, o) && forall p :: p in s.opens ==> !(done.line < p < o)
  }

  ghost predicate InOrder(s: Scan, n: nat) {
    && InLineOrder(s.headings) && (forall h :: h in s.headings ==> h.line < n)
    && (forall o :: o in s.opens ==> o < n && forall h :: h in s.headings ==> h.line != o)
  }

  lemma WellScannedIsInOrder(lines: seq<string>, s: Scan)
    requires WellScanned(lines, |lines|, s)
    ensures InOrder(s, |lines|)
  {
    HeadingsInOrder(lines, s);
    forall o | o in s.opens ensures o < |lines| && forall h :: h in s.headings ==> h.line != o {
      assert IsFence(lines, |lines|, s, o);
      forall h | h in s.headings ensures h.line != o {
        var i :| 0 <= i < |s.headings| && s.headings[i] == h;
        assert s.headings[i].line < o || FenceEnd(s, o, |lines|) < s.headings[i].line;
      }
    }
  }

  lemma SectionIs(s: Scan, n: nat, task: Heading, h: Heading)
    requires InOrder(s, n) && h in s.headings
    ensures task.line < h.line < SectionEnd(s, n, task) <==> InSection(s, task, h)
  {
    SectionHoldsDeeperHeadings(s, n, task);
    var end := SectionEnd(s, n, task);
    hide SectionEnd;
    if InSection(s, task, h) && end < n {
      var g :| g in s.headings && g.line == end && g.line > task.line && g.level <= task.level;
    }
  }

  lemma Counts(found: seq<Heading>)
    requires InLineOrder(found)
    ensures |found| == 0 <==> forall h :: h !in found
    ensures |found| > 1 <==> exists g, h :: g in found && h in found && g != h
    ensures |found| == 1 ==> found[0] in found && forall h :: h in found ==> h == found[0]
  {
    if |found| > 0 {
      assert found[0] in found;
    }
    if |found| > 1 {
      assert found[1] in found && found[0] != found[1];
    }
  }

  /** The Done headings found are those of the section. */
  lemma DonesAre(s: Scan, n: nat, task: Heading)
    requires InOrder(s, n)
    ensures forall h :: h in DoneHeadings(s, n, task) <==> IsDoneOf(s, task, h)
    ensures InLineOrder(DoneHeadings(s, n, task))
  {
    FilterKeepsOrder(s.headings, Between(task.line, SectionEnd(s, n, task)));
    FilterKeepsOrder(Filter(s.headings, Between(task.line, SectionEnd(s, n, task))), DoneBelow(task.level));
    hide SectionEnd, Filter, IsDone;
    forall h | h in s.headings ensures task.line < h.line < SectionEnd(s, n, task) <==> InSection(s, task, h) {
      SectionIs(s, n, task, h);
    }
  }

  lemma DonesAreCounted(s: Scan, n: nat, task: Heading)
    requires InOrder(s, n)
    ensures var dones := DoneHeadings(s, n, task);
      && (|dones| == 0 <==> forall h :: !IsDoneOf(s, task, h))
      && (|dones| > 1 <==> exists g, h :: IsDoneOf(s, task, g) && IsDoneOf(s, task, h) && g != h)
      && (|dones| == 1 ==> IsTheDone(s, task, dones[0]))
  {
    DonesAre(s, n, task);
    var dones := DoneHeadings(s, n, task);
    hide DoneHeadings, IsDoneOf;
    Counts(dones);
  }

  /** The block searched for is the first fence below, if one opens before any further heading. */
  lemma BlockIs(s: Scan, n: nat, task: Heading, done: Heading)
    requires InOrder(s, n) && IsDoneOf(s, task, done)
    ensures match FirstOpen(s.opens, done.line + 1, BlockLimit(s, n, task, done))
      case None => forall o: nat :: !OpensBelow(s, done, o)
      case Some(o) => IsFirstBelow(s, done, o)
  {
    SectionIs(s, n, task, done);
    BlockLimitIsNextHeading(s, n, task, done);
    var limit := BlockLimit(s, n, task, done);
    hide BlockLimit, SectionEnd, IsDone;
    var first := FirstOpen(s.opens, done.line + 1, limit);
    hide FirstOpen;
    forall o: nat | OpensBelow(s, done, o) ensures o < limit {
      if limit <= o && limit != n {
        LimitIsAHeading(s, n, task, done, limit);
      }
    }
  }

  lemma LimitIsAHeading(s: Scan, n: nat, task: Heading, done: Heading, limit: nat)
    requires InOrder(s, n) && IsDoneOf(s, task, done) && limit == BlockLimit(s, n, task, done) && limit != n
    ensures exists h :: h in s.headings && h.line == limit && done.line < h.line
  {
    SectionIs(s, n, task, done);
    SectionHoldsDeeperHeadings(s, n, task);
    var q := Between(task.line, SectionEnd(s, n, task));
    var next := Find(Filter(s.headings, q), After(done.line));
    hide SectionEnd, Filter, Find;
  }

  lemma TasksAreCounted(s: Scan, n: nat, text: string)
    requires InOrder(s, n)
    ensures var found := Filter(s.headings, WithText(text));
      && (|found| == 0 <==> forall h :: h in s.headings ==> h.text != text)
      && (|found| > 1 <==> exists g, h :: g in s.headings && h in s.headings && g.text == text == h.text && g != h)
      && (|found| == 1 ==> IsTheTask(s, text, found[0]))
  {
    FilterKeepsOrder(s.headings, WithText(text));
    var found := Filter(s.headings, WithText(text));
    hide Filter;
    Counts(found);
  }

  /** Every outcome of looking for a task's block has its own reason in the plan, and the reasons exclude each other:
      no such heading; several; no Done heading in the section; several; no fence before the next heading; a fence
      that never closes; or the block is there, and begins and ends with the first fence below the Done heading. */
  lemma EachOutcomeHasItsReason(s: Scan, n: nat, text: string)
    requires InOrder(s, n)
    ensures match Locate(s, n, text)
      case Nowhere(DanglingHeading) => forall h :: h in s.headings ==> h.text != text
      case Nowhere(DuplicateHeading) => exists g, h :: g in s.headings && h in s.headings && g.text == text == h.text && g != h
      case Nowhere(MissingDone) => exists task :: IsTheTask(s, text, task) && forall h :: !IsDoneOf(s, task, h)
      case Nowhere(AmbiguousDone) =>
        exists task, g, h :: IsTheTask(s, text, task) && IsDoneOf(s, task, g) && IsDoneOf(s, task, h) && g != h
      case Nowhere(MissingDoneBlock) =>
        exists task, done :: IsTheTask(s, text, task) && IsTheDone(s, task, done) && forall o: nat :: !OpensBelow(s, done, o)
      case Nowhere(UnclosedDoneBlock) =>
        exists task, done, o: nat :: IsTheTask(s, text, task) && IsTheDone(s, task, done) && IsFirstBelow(s, done, o) && o !in s.closes
      case Nowhere(_) => false
      case At(task, _, done, open, close) =>
        IsTheTask(s, text, task) && IsTheDone(s, task, done) && IsFirstBelow(s, done, open) && open in s.closes && s.closes[open] == close
  {
    TasksAreCounted(s, n, text);
    var found := Filter(s.headings, WithText(text));
    hide Filter, DoneHeadings, BlockLimit, FirstOpen, SectionEnd, IsDoneOf, OpensBelow, InOrder;
    if |found| == 1 {
      var task := found[0];
      DonesAreCounted(s, n, task);
      var dones := DoneHeadings(s, n, task);
      if |dones| == 1 {
        BlockIs(s, n, task, dones[0]);
        BlockHasItsReason(s, n, text, task, dones[0]);
      }
    }
  }

  lemma BlockHasItsReason(s: Scan, n: nat, text: string, task: Heading, done: Heading)
    requires IsTheTask(s, text, task) && IsTheDone(s, task, done)
    requires match FirstOpen(s.opens, done.line + 1, BlockLimit(s, n, task, done))
      case None => forall o: nat :: !OpensBelow(s, done, o)
      case Some(o) => IsFirstBelow(s, done, o)
    ensures match LocateBlock(s, n, task, done)
      case Nowhere(MissingDoneBlock) => forall o: nat :: !OpensBelow(s, done, o)
      case Nowhere(UnclosedDoneBlock) => exists o: nat :: IsFirstBelow(s, done, o) && o !in s.closes
      case Nowhere(_) => false
      case At(t, _, d, open, close) => t == task && d == done && IsFirstBelow(s, done, open) && open in s.closes && s.closes[open] == close
  {
    hide IsTheTask, IsTheDone, OpensBelow, IsFirstBelow, FirstOpen, BlockLimit, SectionEnd;
  }
}
