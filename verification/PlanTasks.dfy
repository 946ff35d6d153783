/** Finding each task's Done commands in a scanned plan (runner/core/plan-index.ts). */
module PlanTasks {
  import opened Collections
  import opened JsText
  import opened Lines
  import opened PlanText
  import opened PlanIndex
  import opened Tasks

  datatype Problem =
    | DanglingHeading | DuplicateHeading | MissingDone | AmbiguousDone | MissingDoneBlock | UnclosedDoneBlock
    | EmptyDone | ContinuationNotSupported

  datatype Issue = Issue(cardId: string, taskId: string, heading: string, problem: Problem)
  datatype Resolution = Resolved(task: ResolvedTask) | Refused(problem: Problem)

  /** The conditions headings are filtered and found by. */
  datatype Query =
    | WithText(text: string)
    | EndingSection(line: nat, level: nat)
    | Between(from: nat, to: nat)
    | DoneBelow(level: nat)
    | After(line: nat)

  predicate Holds(q: Query, h: Heading) {
    match q
    case WithText(text) => h.text == text
    case EndingSection(line, level) => h.line > line && h.level <= level
    case Between(from, to) => from < h.line < to
    case DoneBelow(level) => h.level > level && IsDone(h.text)
    case After(line) => h.line > line
  }

  function Filter(hs: seq<Heading>, q: Query): (found: seq<Heading>)
    ensures forall h :: h in found <==> h in hs && Holds(q, h)
  {
    if hs == [] then []
    else
      var n := |hs| - 1;
      assert hs == hs[..n] + [hs[n]];
      Filter(hs[..n], q) + if Holds(q, hs[n]) then [hs[n]] else []
  }

  function Find(hs: seq<Heading>, q: Query): (found: Option<Heading>)
    ensures found.Some? ==> found.value in hs && Holds(q, found.value)
    ensures found.None? ==> forall h :: h in hs ==> !Holds(q, h)
  {
    if hs == [] then None
    else
      assert hs == [hs[0]] + hs[1..];
      if Holds(q, hs[0]) then Some(hs[0]) else Find(hs[1..], q)
  }

  predicate InLineOrder(hs: seq<Heading>) {
    forall i, j :: 0 <= i < j < |hs| ==> hs[i].line < hs[j].line
  }

  lemma {:induction false} FindIsFirst(hs: seq<Heading>, q: Query, h: Heading)
    requires InLineOrder(hs) && h in hs && Holds(q, h)
    ensures Find(hs, q).Some? && Find(hs, q).value.line <= h.line
    decreases |hs|
  {
    if !Holds(q, hs[0]) {
      assert hs == [hs[0]] + hs[1..];
      FindIsFirst(hs[1..], q, h);
    }
  }

  lemma {:induction false} FilterKeepsOrder(hs: seq<Heading>, q: Query)
    requires InLineOrder(hs)
    ensures InLineOrder(Filter(hs, q))
    ensures |Filter(hs, q)| <= 1 || Filter(hs, q)[0].line < Filter(hs, q)[1].line
    decreases |hs|
  {
    if hs != [] {
      var n := |hs| - 1;
      FilterKeepsOrder(hs[..n], q);
      forall i | 0 <= i < |Filter(hs[..n], q)| ensures Filter(hs[..n], q)[i].line < hs[n].line {
        assert Filter(hs[..n], q)[i] in hs[..n];
      }
    }
  }

  /** The only heading a query holds of. */
  lemma FilterTheOnlyOne(hs: seq<Heading>, q: Query, h: Heading)
    requires InLineOrder(hs) && h in hs && Holds(q, h)
    requires forall g :: g in hs && Holds(q, g) ==> g == h
    ensures Filter(hs, q) == [h]
  {
    FilterKeepsOrder(hs, q);
    var found := Filter(hs, q);
    assert h in found;
    forall i | 0 <= i < |found| ensures found[i] == h {
      assert found[i] in found;
    }
  }

  function LineOr(h: Option<Heading>, other: nat): nat {
    if h.Some? then h.value.line else other
  }

  /** The first opening line in `[i, limit)`. */
  function FirstOpen(opens: set<nat>, i: nat, limit: nat): (o: Option<nat>)
    ensures o.Some? ==> i <= o.value < limit && o.value in opens && forall k :: i <= k < o.value ==> k !in opens
    ensures o.None? ==> forall k :: i <= k < limit ==> k !in opens
    decreases limit - i
  {
    if i >= limit then None else if i in opens then Some(i) else FirstOpen(opens, i + 1, limit)
  }

  /** Where a task's Done block is, or why it has none. */
  datatype Location =
    | At(task: Heading, sectionEnd: nat, done: Heading, open: nat, close: nat)
    | Nowhere(problem: Problem)

  function SectionEnd(s: Scan, n: nat, task: Heading): nat {
    LineOr(Find(s.headings, EndingSection(task.line, task.level)), n)
  }

  function DoneHeadings(s: Scan, n: nat, task: Heading): seq<Heading> {
    Filter(Filter(s.headings, Between(task.line, SectionEnd(s, n, task))), DoneBelow(task.level))
  }

  function BlockLimit(s: Scan, n: nat, task: Heading, done: Heading): nat {
    var sectionEnd := SectionEnd(s, n, task);
    LineOr(Find(Filter(s.headings, Between(task.line, sectionEnd)), After(done.line)), sectionEnd)
  }

  function Locate(s: Scan, n: nat, heading: string): Location {
    var matches := Filter(s.headings, WithText(heading));
    if |matches| == 0 then Nowhere(DanglingHeading)
    else if |matches| > 1 then Nowhere(DuplicateHeading)
    else
      var dones := DoneHeadings(s, n, matches[0]);
      if |dones| == 0 then Nowhere(MissingDone)
      else if |dones| > 1 then Nowhere(AmbiguousDone)
      else LocateBlock(s, n, matches[0], dones[0])
  }

  function LocateBlock(s: Scan, n: nat, task: Heading, done: Heading): Location {
    match FirstOpen(s.opens, done.line + 1, BlockLimit(s, n, task, done))
    case None => Nowhere(MissingDoneBlock)
    case Some(open) =>
      if open in s.closes then At(task, SectionEnd(s, n, task), done, open, s.closes[open])
      else Nowhere(UnclosedDoneBlock)
  }

  /** The command a line of a Done block lists, if it lists one. */
  function CommandOf(raw: string): Option<string> {
    var line := Trim(raw);
    if line == "" || line[0] == '#' then None else Some(line)
  }

  predicate Continues(raw: string) {
    CommandOf(raw).Some? && CommandOf(raw).value != "" && CommandOf(raw).value[|CommandOf(raw).value| - 1] == '\\'
  }

  function CommandsIn(body: seq<string>): seq<string> {
    if body == [] then []
    else
      var n := |body| - 1;
      CommandsIn(body[..n]) + if CommandOf(body[n]).Some? then [CommandOf(body[n]).value] else []
  }

  predicate Continued(body: seq<string>) {
    exists i :: 0 <= i < |body| && Continues(body[i])
  }

  function TaskFrom(ref: TaskRef, body: seq<string>): Resolution {
    if Continued(body) then Refused(ContinuationNotSupported)
    else if CommandsIn(body) == [] then Refused(EmptyDone)
    else Resolved(ResolvedTask(ref.id, ref.heading, CommandsIn(body)))
  }

  function BodyOf(lines: seq<string>, at: Location): seq<string>
    requires at.At?
  {
    if at.open < at.close <= |lines| then lines[at.open + 1..at.close] else []
  }

  function Resolve(lines: seq<string>, s: Scan, ref: TaskRef): Resolution {
    match Locate(s, |lines|, ref.heading)
    case Nowhere(problem) => Refused(problem)
    case At(task, sectionEnd, done, open, close) => TaskFrom(ref, BodyOf(lines, At(task, sectionEnd, done, open, close)))
  }

  method ResolveOne(lines: seq<string>, s: Scan, ref: TaskRef) returns (r: Resolution)
    requires WellScanned(lines, |lines|, s)
    ensures r == Resolve(lines, s, ref)
  {
    hide WellScanned, Filter, Find, FirstOpen, TaskFrom;
    var matches := Filter(s.headings, WithText(ref.heading));
    if |matches| == 0 {
      return Refused(DanglingHeading);
    }
    if |matches| > 1 {
      return Refused(DuplicateHeading);
    }
    var task := matches[0];
    var sectionEnd := LineOr(Find(s.headings, EndingSection(task.line, task.level)), |lines|);
    var inSection := Filter(s.headings, Between(task.line, sectionEnd));
    var doneHeadings := Filter(inSection, DoneBelow(task.level));
    if |doneHeadings| == 0 {
      return Refused(MissingDone);
    }
    if |doneHeadings| > 1 {
      return Refused(AmbiguousDone);
    }
    var done := doneHeadings[0];
    var blockLimit := LineOr(Find(inSection, After(done.line)), sectionEnd);
    var openLine := FindOpenLine(s.opens, done.line + 1, blockLimit);
    if openLine < 0 {
      return Refused(MissingDoneBlock);
    }
    if openLine !in s.closes {
      return Refused(UnclosedDoneBlock);
    }
    ClosedFenceIsInside(lines, s, openLine);
    r := ReadBlock(ref, lines[openLine + 1..s.closes[openLine]]);
  }

  method FindOpenLine(opens: set<nat>, start: nat, blockLimit: nat) returns (openLine: int)
    ensures match FirstOpen(opens, start, blockLimit)
      case None => openLine == -1
      case Some(o) => openLine == o
  {
    openLine := -1;
    var i := start;
    while i < blockLimit
      invariant FirstOpen(opens, start, blockLimit) == FirstOpen(opens, i, blockLimit)
    {
      if i in opens {
        return i;
      }
      i := i + 1;
    }
  }

  method ReadBlock(ref: TaskRef, body: seq<string>) returns (r: Resolution)
    ensures r == TaskFrom(ref, body)
  {
    hide Trim;
    var commands: seq<string> := [];
    for i := 0 to |body|
      invariant commands == CommandsIn(body[..i])
      invariant forall j :: 0 <= j < i ==> !Continues(body[j])
    {
      assert body[..i + 1][..i] == body[..i];
      var line := Trim(body[i]);
      if line != "" && line[0] != '#' {
        if line[|line| - 1] == '\\' {
          assert Continues(body[i]);
          return Refused(ContinuationNotSupported);
        }
        commands := commands + [line];
      }
    }
    assert body[..|body|] == body;
    r := if commands == [] then Refused(EmptyDone) else Resolved(ResolvedTask(ref.id, ref.heading, commands));
  }

  lemma ClosedFenceIsInside(lines: seq<string>, s: Scan, o: nat)
    requires WellScanned(lines, |lines|, s) && o in s.closes
    ensures o < s.closes[o] < |lines|
  {
    assert IsFence(lines, |lines|, s, o);
  }

  function TasksOf(lines: seq<string>, s: Scan, refs: seq<TaskRef>): seq<ResolvedTask> {
    if refs == [] then []
    else
      var n := |refs| - 1;
      TasksOf(lines, s, refs[..n]) + TaskPart(Resolve(lines, s, refs[n]))
  }

  function TaskPart(r: Resolution): seq<ResolvedTask> {
    if r.Resolved? then [r.task] else []
  }

  function IssuesOf(lines: seq<string>, s: Scan, cardId: string, refs: seq<TaskRef>): seq<Issue> {
    if refs == [] then []
    else
      var n := |refs| - 1;
      IssuesOf(lines, s, cardId, refs[..n]) + IssuePart(cardId, refs[n], Resolve(lines, s, refs[n]))
  }

  function IssuePart(cardId: string, ref: TaskRef, r: Resolution): seq<Issue> {
    if r.Refused? then [Issue(cardId, ref.id, ref.heading, r.problem)] else []
  }

  method ResolveTaskIndex(cardId: string, refs: seq<TaskRef>, planMarkdown: string)
    returns (tasks: seq<ResolvedTask>, issues: seq<Issue>)
    ensures var lines := SplitLines(planMarkdown);
      var s := ScanFrom(NOTHING_SCANNED, 0, lines);
      tasks == TasksOf(lines, s, refs) && issues == IssuesOf(lines, s, cardId, refs)
  {
    hide Resolve, WellScanned, ScanLine;
    var lines := SplitLines(planMarkdown);
    var s := ScanPlan(lines);
    ScanIsWellFormed(lines, |lines|);
    assert lines[..|lines|] == lines;
    tasks, issues := [], [];
    for i := 0 to |refs|
      invariant tasks == TasksOf(lines, s, refs[..i]) && issues == IssuesOf(lines, s, cardId, refs[..i])
    {
      assert refs[..i + 1][..i] == refs[..i];
      var r := ResolveOne(lines, s, refs[i]);
      match r {
        case Resolved(task) => tasks := tasks + [task];
        case Refused(problem) => issues := issues + [Issue(cardId, refs[i].id, refs[i].heading, problem)];
      }
    }
    assert refs[..|refs|] == refs;
  }

  /** Nothing is dropped: every reference is a task or an issue, and the index is clean exactly when
      every reference resolves, each to a task of its own with at least one command. */
  lemma {:induction false} EveryReferenceIsJudged(lines: seq<string>, s: Scan, cardId: string, refs: seq<TaskRef>)
    ensures var tasks, issues := TasksOf(lines, s, refs), IssuesOf(lines, s, cardId, refs);
      && |tasks| + |issues| == |refs|
      && (issues == [] <==> AllResolve(lines, s, refs))
      && (issues == [] ==> AreTasksOf(tasks, refs))
    decreases |refs|
  {
    if refs != [] {
      hide Resolve, IsTaskOf, AllResolve, AreTasksOf;
      var n := |refs| - 1;
      EveryReferenceIsJudged(lines, s, cardId, refs[..n]);
      OneMoreReference(lines, s, refs, TasksOf(lines, s, refs[..n]));
    } else {
      assert AllResolve(lines, s, refs);
    }
  }

  lemma OneMoreReference(lines: seq<string>, s: Scan, refs: seq<TaskRef>, tasks: seq<ResolvedTask>)
    requires refs != []
    ensures var n := |refs| - 1;
      && (AllResolve(lines, s, refs) <==> AllResolve(lines, s, refs[..n]) && Resolve(lines, s, refs[n]).Resolved?)
      && (AreTasksOf(tasks, refs[..n]) && Resolve(lines, s, refs[n]).Resolved? ==>
            AreTasksOf(tasks + TaskPart(Resolve(lines, s, refs[n])), refs))
  {
    hide Resolve, IsTaskOf;
    var n := |refs| - 1;
    assert refs == refs[..n] + [refs[n]];
    ResolvedTaskIsItsOwn(lines, s, refs[n]);
  }

  predicate AllResolve(lines: seq<string>, s: Scan, refs: seq<TaskRef>) {
    forall i :: 0 <= i < |refs| ==> Resolve(lines, s, refs[i]).Resolved?
  }

  predicate AreTasksOf(tasks: seq<ResolvedTask>, refs: seq<TaskRef>) {
    |tasks| == |refs| && forall i :: 0 <= i < |refs| ==> IsTaskOf(tasks[i], refs[i])
  }

  /** Every refusal is reported, not only the first. */
  lemma {:induction false} EveryRefusalIsReported(lines: seq<string>, s: Scan, cardId: string, refs: seq<TaskRef>, i: nat)
    requires i < |refs| && Resolve(lines, s, refs[i]).Refused?
    ensures Issue(cardId, refs[i].id, refs[i].heading, Resolve(lines, s, refs[i]).problem) in IssuesOf(lines, s, cardId, refs)
    decreases |refs|
  {
    hide Resolve;
    var n := |refs| - 1;
    if i < n {
      EveryRefusalIsReported(lines, s, cardId, refs[..n], i);
    }
  }

  predicate IsTaskOf(task: ResolvedTask, ref: TaskRef) {
    task.id == ref.id && task.heading == ref.heading && task.doneCommands != []
  }

  lemma ResolvedTaskIsItsOwn(lines: seq<string>, s: Scan, ref: TaskRef)
    ensures Resolve(lines, s, ref).Resolved? ==> IsTaskOf(Resolve(lines, s, ref).task, ref)
  {
    hide Locate;
  }

  /** A located Done block lies inside its task's section and closes before any further heading. */
  lemma LocatedBlockIsInside(lines: seq<string>, s: Scan, heading: string)
    requires WellScanned(lines, |lines|, s)
    requires Locate(s, |lines|, heading).At?
    ensures var at := Locate(s, |lines|, heading);
      && at.task in s.headings && at.task.text == heading
      && (forall h :: h in s.headings && h.text == heading ==> h == at.task)
      && at.done in s.headings && IsDone(at.done.text) && at.done.level > at.task.level
      && at.task.line < at.done.line < at.open < at.close < at.sectionEnd <= |lines|
      && (forall h :: h in s.headings ==> !(at.done.line < h.line <= at.close))
      && (forall h :: h in s.headings && at.task.line < h.line < at.sectionEnd ==> h.level > at.task.level)
      && at.open in s.opens && (forall o :: o in s.opens ==> !(at.done.line < o < at.open))
  {
    var n, at := |lines|, Locate(s, |lines|, heading);
    HeadingsInOrder(lines, s);
    LocatedHeadings(s, n, heading);
    hide Locate;
    SectionHoldsDeeperHeadings(s, n, at.task);
    BlockLimitIsNextHeading(s, n, at.task, at.done);
    hide BlockLimit, SectionEnd;
    FenceStopsAtHeadings(lines, s, at.open, BlockLimit(s, n, at.task, at.done));
    ClosedFenceIsInside(lines, s, at.open);
  }

  lemma HeadingsInOrder(lines: seq<string>, s: Scan)
    requires WellScanned(lines, |lines|, s)
    ensures InLineOrder(s.headings) && forall h :: h in s.headings ==> h.line < |lines|
    ensures s.closes.Keys <= s.opens
  {
  }

  /** What the two filters and the search for an opening line say of a located block. */
  lemma LocatedHeadings(s: Scan, n: nat, heading: string)
    requires Locate(s, n, heading).At?
    ensures var at := Locate(s, n, heading);
      && at.task in s.headings && at.task.text == heading
      && (forall h :: h in s.headings && h.text == heading ==> h == at.task)
      && at.done in s.headings && IsDone(at.done.text) && at.done.level > at.task.level
      && at.sectionEnd == SectionEnd(s, n, at.task) && at.task.line < at.done.line < at.sectionEnd
      && at.done.line < at.open < BlockLimit(s, n, at.task, at.done)
      && at.open in s.closes && s.closes[at.open] == at.close
      && at.open in s.opens && (forall o :: o in s.opens ==> !(at.done.line < o < at.open))
  {
    hide IsDone, BlockLimit, SectionEnd, Filter, FirstOpen;
    var at := Locate(s, n, heading);
    var matches := Filter(s.headings, WithText(heading));
    assert at.task in matches && |matches| == 1;
    var inSection := Filter(s.headings, Between(at.task.line, at.sectionEnd));
    assert at.done in Filter(inSection, DoneBelow(at.task.level));
    assert at.done in inSection;
    forall h | h in s.headings && h.text == heading ensures h == at.task {
      assert h in matches;
    }
  }

  lemma SectionHoldsDeeperHeadings(s: Scan, n: nat, task: Heading)
    requires InLineOrder(s.headings) && forall h :: h in s.headings ==> h.line < n
    ensures SectionEnd(s, n, task) <= n
    ensures forall h :: h in s.headings && task.line < h.line < SectionEnd(s, n, task) ==> h.level > task.level
    ensures SectionEnd(s, n, task) == n
            || exists h :: h in s.headings && h.line == SectionEnd(s, n, task) && h.line > task.line && h.level <= task.level
  {
    var q := EndingSection(task.line, task.level);
    forall h | h in s.headings && Holds(q, h) ensures SectionEnd(s, n, task) <= h.line {
      FindIsFirst(s.headings, q, h);
    }
  }

  lemma BlockLimitIsNextHeading(s: Scan, n: nat, task: Heading, done: Heading)
    requires InLineOrder(s.headings) && forall h :: h in s.headings ==> h.line < n
    requires task.line < done.line
    ensures var limit := BlockLimit(s, n, task, done);
      && limit <= SectionEnd(s, n, task)
      && (forall h :: h in s.headings ==> !(done.line < h.line < limit))
      && (limit == n || exists h :: h in s.headings && h.line == limit)
  {
    SectionHoldsDeeperHeadings(s, n, task);
    var q := Between(task.line, SectionEnd(s, n, task));
    var inSection := Filter(s.headings, q);
    FilterKeepsOrder(s.headings, q);
    forall h | h in s.headings && done.line < h.line < BlockLimit(s, n, task, done) ensures false {
      assert h in inSection && Holds(After(done.line), h);
      FindIsFirst(inSection, After(done.line), h);
    }
  }

  /** A fence opened before a heading, or before the end, closes before it. */
  lemma FenceStopsAtHeadings(lines: seq<string>, s: Scan, o: nat, limit: nat)
    requires WellScanned(lines, |lines|, s) && o in s.closes && o < limit
    requires limit == |lines| || exists h :: h in s.headings && h.line == limit
    ensures s.closes[o] < limit
  {
    assert o in s.opens;
    ClosedFenceIsInside(lines, s, o);
    if limit != |lines| {
      var h :| h in s.headings && h.line == limit;
      var i :| 0 <= i < |s.headings| && s.headings[i] == h;
      assert s.headings[i].line < o || FenceEnd(s, o, |lines|) < s.headings[i].line;
    }
  }

  ghost predicate IsInside(s: Scan, n: nat, task: Heading, done: Heading) {
    done in s.headings && task.line < done.line < SectionEnd(s, n, task) && done.level > task.level && IsDone(done.text)
  }

  lemma LocatedDoneIsOnly(s: Scan, n: nat, heading: string)
    requires Locate(s, n, heading).At?
    ensures var at := Locate(s, n, heading);
      at.sectionEnd == SectionEnd(s, n, at.task) && forall h :: IsInside(s, n, at.task, h) ==> h == at.done
  {
    hide IsDone, SectionEnd, BlockLimit, FirstOpen;
    var at := Locate(s, n, heading);
    assert |DoneHeadings(s, n, at.task)| == 1;
    forall h | IsInside(s, n, at.task, h) ensures h == at.done {
      assert h in Filter(s.headings, Between(at.task.line, at.sectionEnd));
      assert h in DoneHeadings(s, n, at.task);
    }
  }

  lemma NestedSectionEndsInside(s: Scan, n: nat, outer: Heading, inner: Heading)
    requires InLineOrder(s.headings) && forall h :: h in s.headings ==> h.line < n
    requires inner in s.headings && outer.line < inner.line < SectionEnd(s, n, outer)
    ensures inner.level > outer.level && SectionEnd(s, n, inner) <= SectionEnd(s, n, outer)
  {
    SectionHoldsDeeperHeadings(s, n, outer);
    SectionHoldsDeeperHeadings(s, n, inner);
    if SectionEnd(s, n, outer) < n {
      var h :| h in s.headings && h.line == SectionEnd(s, n, outer) && h.level <= outer.level;
      FindIsFirst(s.headings, EndingSection(inner.line, inner.level), h);
    }
  }

  /** Two located tasks take their commands from one and the same Done block exactly when the later heading
      stands inside the earlier one's section. */
  lemma DoneBlockIsSharedExactlyWhenNested(lines: seq<string>, s: Scan, a: string, b: string)
    requires WellScanned(lines, |lines|, s)
    requires Locate(s, |lines|, a).At? && Locate(s, |lines|, b).At?
    requires Locate(s, |lines|, a).task.line < Locate(s, |lines|, b).task.line
    ensures var first, second := Locate(s, |lines|, a), Locate(s, |lines|, b);
      && (first.done == second.done <==> second.task.line < first.sectionEnd)
      && (first.open == second.open <==> first.done == second.done)
  {
    var n := |lines|;
    var first, second := Locate(s, n, a), Locate(s, n, b);
    LocatedBlockIsInside(lines, s, a);
    LocatedBlockIsInside(lines, s, b);
    LocatedDoneIsOnly(s, n, a);
    LocatedDoneIsOnly(s, n, b);
    HeadingsInOrder(lines, s);
    hide Locate, WellScanned, SectionEnd, DoneHeadings;
    if second.task.line < first.sectionEnd {
      NestedSectionEndsInside(s, n, first.task, second.task);
      assert IsInside(s, n, first.task, second.done);
    }
  }
}
