/** Reading a card's plan into its task index (runner/core/plan-index.ts). */
module PlanIndex {
  import opened Collections
  import opened JsText
  import opened Lines
  import opened PlanText
  import opened Tasks

  datatype Heading = Heading(level: nat, text: string, line: nat)
  datatype OpenFence = OpenFence(fence: Fence, line: nat)

  /** The scan's variables: recorded headings, fences by opening line, and the fence now open. */
  datatype Scan = Scan(headings: seq<Heading>, opens: set<nat>, closes: map<nat, nat>, open: Option<OpenFence>)

  const NOTHING_SCANNED := Scan([], {}, map[], None)

  /** What one line does to the scan. */
  function ScanLine(s: Scan, line: string, i: nat): Scan {
    match s.open
    case Some(open) =>
      if ClosesFence(line, open.fence) then s.(closes := s.closes[open.line := i], open := None) else s
    case None =>
      match OpeningFence(line)
      case Some(fence) => s.(open := Some(OpenFence(fence, i)), opens := s.opens + {i})
      case None =>
        match HeadingOf(line)
        case Some(h) => s.(headings := s.headings + [Heading(h.level, h.text, i)])
        case None => s
  }

  function ScanFrom(s: Scan, base: nat, lines: seq<string>): Scan {
    if lines == [] then s
    else
      var n := |lines| - 1;
      ScanLine(ScanFrom(s, base, lines[..n]), lines[n], base + n)
  }

  function SplitLines(markdown: string): (lines: seq<string>)
    ensures |lines| > 0
  {
    LinesOf(markdown, '\n') + [Rest(markdown, '\n')]
  }

  method ScanPlan(lines: seq<string>) returns (s: Scan)
    ensures s == ScanFrom(NOTHING_SCANNED, 0, lines)
  {
    var headings: seq<Heading>, opens: set<nat>, closes: map<nat, nat>, open: Option<OpenFence> := [], {}, map[], None;
    for i := 0 to |lines|
      invariant Scan(headings, opens, closes, open) == ScanFrom(NOTHING_SCANNED, 0, lines[..i])
    {
      hide ClosesFence, OpeningFence, HeadingOf;
      assert lines[..i + 1][..i] == lines[..i];
      if open.Some? {
        if ClosesFence(lines[i], open.value.fence) {
          closes := closes[open.value.line := i];
          open := None;
        }
      } else {
        var fence := OpeningFence(lines[i]);
        if fence.Some? {
          open := Some(OpenFence(fence.value, i));
          opens := opens + {i};
        } else {
          var heading := HeadingOf(lines[i]);
          if heading.Some? {
            headings := headings + [Heading(heading.value.level, heading.value.text, i)];
          }
        }
      }
    }
    assert lines[..|lines|] == lines;
    s := Scan(headings, opens, closes, open);
  }

  /** The line up to which an opened fence reaches, when `n` lines have been scanned. */
  function FenceEnd(s: Scan, o: nat, n: nat): nat {
    if o in s.closes then s.closes[o] else n
  }

  ghost predicate IsHeadingLine(lines: seq<string>, n: nat, h: Heading)
    requires n <= |lines|
  {
    h.line < n && HeadingOf(lines[h.line]) == Some(HeadingText(h.level, h.text))
  }

  /** Recorded headings are heading lines, in line order. */
  ghost predicate HeadingsAreLines(lines: seq<string>, n: nat, s: Scan)
    requires n <= |lines|
  {
    && (forall i :: 0 <= i < |s.headings| ==> IsHeadingLine(lines, n, s.headings[i]))
    && (forall i, j :: 0 <= i < j < |s.headings| ==> s.headings[i].line < s.headings[j].line)
  }

  /** A fence runs from an opening line to the first line after it that closes it. */
  ghost predicate IsFence(lines: seq<string>, n: nat, s: Scan, o: nat)
    requires n <= |lines|
  {
    var end := FenceEnd(s, o, n);
    && o < end <= n && OpeningFence(lines[o]).Some?
    && (o in s.closes ==> end < n && ClosesFence(lines[end], OpeningFence(lines[o]).value))
    && forall k :: o < k < end ==> !ClosesFence(lines[k], OpeningFence(lines[o]).value)
  }

  ghost predicate FencesAreLines(lines: seq<string>, n: nat, s: Scan)
    requires n <= |lines|
  {
    && s.closes.Keys <= s.opens
    && (forall o :: o in s.opens ==> IsFence(lines, n, s, o))
  }

  ghost predicate FencesAreDisjoint(n: nat, s: Scan) {
    forall o, p :: o in s.opens && p in s.opens && o < p ==> FenceEnd(s, o, n) < p
  }

  /** No recorded heading stands in a fence. */
  ghost predicate HeadingsAreOutside(n: nat, s: Scan) {
    forall o, i :: o in s.opens && 0 <= i < |s.headings| ==>
      s.headings[i].line < o || FenceEnd(s, o, n) < s.headings[i].line
  }

  /** Only the fence still open is unclosed. */
  ghost predicate OpenIsLast(lines: seq<string>, n: nat, s: Scan)
    requires n <= |lines|
  {
    && (forall o :: o in s.opens && o !in s.closes ==> s.open.Some? && s.open.value.line == o)
    && (s.open.Some? ==>
          && s.open.value.line in s.opens && s.open.value.line !in s.closes
          && s.open.value.line < n && OpeningFence(lines[s.open.value.line]) == Some(s.open.value.fence))
  }

  ghost predicate IsRecorded(s: Scan, k: nat) {
    exists i :: 0 <= i < |s.headings| && s.headings[i].line == k
  }

  ghost predicate InFence(s: Scan, k: nat, n: nat) {
    exists o :: o in s.opens && o <= k <= FenceEnd(s, o, n)
  }

  /** A line outside every fence that reads as a heading is recorded. */
  ghost predicate NothingIsMissed(lines: seq<string>, n: nat, s: Scan)
    requires n <= |lines|
  {
    forall k :: 0 <= k < n && HeadingOf(lines[k]).Some? ==> IsRecorded(s, k) || InFence(s, k, n)
  }

  ghost predicate WellScanned(lines: seq<string>, n: nat, s: Scan)
    requires n <= |lines|
  {
    && HeadingsAreLines(lines, n, s) && FencesAreLines(lines, n, s) && FencesAreDisjoint(n, s)
    && HeadingsAreOutside(n, s) && OpenIsLast(lines, n, s) && NothingIsMissed(lines, n, s)
  }

  /** The invariant of the scan, over every plan. */
  lemma {:induction false} ScanIsWellFormed(lines: seq<string>, n: nat)
    requires n <= |lines|
    ensures WellScanned(lines, n, ScanFrom(NOTHING_SCANNED, 0, lines[..n]))
  {
    if n > 0 {
      hide WellScanned, ScanLine;
      ScanIsWellFormed(lines, n - 1);
      assert lines[..n][..n - 1] == lines[..n - 1];
      ScanLineKeeps(lines, n - 1, ScanFrom(NOTHING_SCANNED, 0, lines[..n - 1]));
    }
  }

  lemma ScanLineKeeps(lines: seq<string>, n: nat, s: Scan)
    requires n < |lines| && WellScanned(lines, n, s)
    ensures WellScanned(lines, n + 1, ScanLine(s, lines[n], n))
  {
    HeadingsKept(lines, n, s);
    FencesKept(lines, n, s);
    DisjointKept(lines, n, s);
    OutsideKept(lines, n, s);
    OpenKept(lines, n, s);
    MissedKept(lines, n, s);
    hide *;
    WellScannedIs(lines, n + 1, ScanLine(s, lines[n], n));
  }

  lemma WellScannedIs(lines: seq<string>, n: nat, s: Scan)
    requires n <= |lines|
    requires HeadingsAreLines(lines, n, s) && FencesAreLines(lines, n, s) && FencesAreDisjoint(n, s)
    requires HeadingsAreOutside(n, s) && OpenIsLast(lines, n, s) && NothingIsMissed(lines, n, s)
    ensures WellScanned(lines, n, s)
  {
  }

  lemma HeadingsKept(lines: seq<string>, n: nat, s: Scan)
    requires n < |lines| && HeadingsAreLines(lines, n, s)
    ensures HeadingsAreLines(lines, n + 1, ScanLine(s, lines[n], n))
  {
    hide ClosesFence, OpeningFence, HeadingOf;
  }

  lemma FencesKept(lines: seq<string>, n: nat, s: Scan)
    requires n < |lines| && FencesAreLines(lines, n, s) && OpenIsLast(lines, n, s)
    ensures FencesAreLines(lines, n + 1, ScanLine(s, lines[n], n))
  {
    hide ClosesFence, OpeningFence, HeadingOf;
  }

  lemma DisjointKept(lines: seq<string>, n: nat, s: Scan)
    requires n < |lines| && FencesAreLines(lines, n, s) && FencesAreDisjoint(n, s) && OpenIsLast(lines, n, s)
    ensures FencesAreDisjoint(n + 1, ScanLine(s, lines[n], n))
  {
    hide ClosesFence, OpeningFence, HeadingOf;
    assert forall o :: o in s.opens ==> IsFence(lines, n, s, o) && FenceEnd(s, o, n) <= n;
    hide IsFence;
  }

  lemma OutsideKept(lines: seq<string>, n: nat, s: Scan)
    requires n < |lines| && HeadingsAreLines(lines, n, s) && FencesAreLines(lines, n, s)
    requires HeadingsAreOutside(n, s) && OpenIsLast(lines, n, s)
    ensures HeadingsAreOutside(n + 1, ScanLine(s, lines[n], n))
  {
    hide ClosesFence, OpeningFence, HeadingOf;
    assert forall o :: o in s.opens ==> IsFence(lines, n, s, o);
    assert forall o :: o in s.closes ==> o in s.opens && s.closes[o] < n;
    assert forall i :: 0 <= i < |s.headings| ==> IsHeadingLine(lines, n, s.headings[i]) && s.headings[i].line < n;
    hide IsFence, IsHeadingLine, FencesAreLines, HeadingsAreLines;
  }

  lemma OpenKept(lines: seq<string>, n: nat, s: Scan)
    requires n < |lines| && FencesAreLines(lines, n, s) && OpenIsLast(lines, n, s)
    ensures OpenIsLast(lines, n + 1, ScanLine(s, lines[n], n))
  {
    hide ClosesFence, OpeningFence, HeadingOf;
  }

  lemma MissedKept(lines: seq<string>, n: nat, s: Scan)
    requires n < |lines| && WellScanned(lines, n, s)
    ensures NothingIsMissed(lines, n + 1, ScanLine(s, lines[n], n))
  {
    hide ClosesFence, OpeningFence, HeadingOf, HeadingsAreLines, FencesAreDisjoint, HeadingsAreOutside;
    var t := ScanLine(s, lines[n], n);
    forall k | 0 <= k <= n && HeadingOf(lines[k]).Some? ensures IsRecorded(t, k) || InFence(t, k, n + 1) {
      if k < n {
        EarlierLineIsKept(lines, n, s, k);
      } else if s.open.Some? {
        assert s.open.value.line in t.opens && FenceEnd(t, s.open.value.line, n + 1) >= n;
      } else if OpeningFence(lines[n]).Some? {
        assert n in t.opens && n <= FenceEnd(t, n, n + 1);
      } else {
        assert t.headings[|s.headings|].line == n;
      }
    }
  }

  lemma EarlierLineIsKept(lines: seq<string>, n: nat, s: Scan, k: nat)
    requires k < n < |lines| && (IsRecorded(s, k) || InFence(s, k, n))
    requires forall o :: o in s.closes ==> s.closes[o] < n
    requires OpenIsLast(lines, n, s)
    ensures var t := ScanLine(s, lines[n], n); IsRecorded(t, k) || InFence(t, k, n + 1)
  {
    hide ClosesFence, OpeningFence, HeadingOf;
    var t := ScanLine(s, lines[n], n);
    if IsRecorded(s, k) {
      var i :| 0 <= i < |s.headings| && s.headings[i].line == k;
      assert t.headings[i] == s.headings[i];
    } else {
      var o :| o in s.opens && o <= k <= FenceEnd(s, o, n);
      assert o in t.opens && k <= FenceEnd(t, o, n + 1);
    }
  }
}
