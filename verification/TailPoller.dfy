/** How the poller turns one tick of the tail into nodes (viewer/adapters/poller.adapter.ts). */
module TailPoller {
  import opened Collections
  import opened Lines
  import opened Tail

  /** A row handed on to be normalized, with the file offset its nodes are anchored at. */
  datatype Placed = Placed(at: nat, row: seq<byte>)

  function PlacedFrom(rows: seq<seq<byte>>, at: nat): (placed: seq<Placed>)
    ensures |placed| == |rows|
  {
    if rows == [] then []
    else
      var init, row := rows[..|rows| - 1], rows[|rows| - 1];
      PlacedFrom(init, at) + [Placed(at + |Terminated(init, NEWLINE)|, row)]
  }

  method SplitRows(buf: seq<byte>) returns (rows: seq<seq<byte>>)
    ensures rows == LinesOf(buf, NEWLINE)
  {
    rows := [];
    var start := 0;
    for i := 0 to |buf|
      invariant start <= i
      invariant rows == LinesOf(buf[..i], NEWLINE) && buf[start..i] == Rest(buf[..i], NEWLINE)
    {
      assert buf[..i + 1][..i] == buf[..i];
      if buf[i] == NEWLINE {
        rows := rows + [buf[start..i]];
        start := i + 1;
      } else {
        assert buf[start..i + 1] == buf[start..i] + [buf[i]];
      }
    }
    assert buf[..|buf|] == buf;
  }

  /** The loop over a tick's confirmed bytes. */
  method ConfirmedRows(before: TailState, after: TailState, chunk: seq<byte>, ghost seen: seq<byte>)
    returns (placed: seq<Placed>)
    requires Observes(before, seen) && Observes(after, seen + chunk)
    ensures placed == PlacedFrom(LinesOf(before.carry + chunk, NEWLINE), before.offset - |before.carry|)
  {
    hide LinesOf, Rest, Terminated;
    var absBase := before.offset - |before.carry|;
    var confirmedLen := after.ackOffset - absBase;
    var combined := before.carry + chunk;
    ConfirmedBytes(before, after, chunk, seen);
    placed := [];
    if confirmedLen > 0 {
      var rows := SplitRows(combined[..confirmedLen]);
      var off := absBase;
      NonePlaced(absBase);
      for i := 0 to |rows|
        invariant placed == PlacedFrom(rows[..i], absBase) && off == absBase + |Terminated(rows[..i], NEWLINE)|
      {
        NextPlaced(rows[..i], rows[i], absBase);
        assert rows[..i + 1] == rows[..i] + [rows[i]];
        placed := placed + [Placed(off, rows[i])];
        off := off + |rows[i]| + 1;
      }
      assert rows[..|rows|] == rows;
    }
  }

  lemma NonePlaced(at: nat)
    ensures PlacedFrom([], at) == [] && Terminated<byte>([], NEWLINE) == []
  {
  }

  lemma NextPlaced(rows: seq<seq<byte>>, row: seq<byte>, at: nat)
    ensures PlacedFrom(rows + [row], at) == PlacedFrom(rows, at) + [Placed(at + |Terminated(rows, NEWLINE)|, row)]
    ensures |Terminated(rows + [row], NEWLINE)| == |Terminated(rows, NEWLINE)| + |row| + 1
  {
    assert (rows + [row])[..|rows|] == rows;
  }

  /** The confirmed bytes end where the last complete row of the re-joined bytes ends. */
  lemma ConfirmedBytes(before: TailState, after: TailState, chunk: seq<byte>, seen: seq<byte>)
    requires Observes(before, seen) && Observes(after, seen + chunk)
    ensures |before.carry| <= before.offset
    ensures var n, combined := after.ackOffset - (before.offset - |before.carry|), before.carry + chunk;
      && n <= |combined|
      && (n <= 0 ==> LinesOf(combined, NEWLINE) == [])
      && (n > 0 ==> LinesOf(combined[..n], NEWLINE) == LinesOf(combined, NEWLINE))
  {
    hide LinesOf, Rest, Terminated;
    var combined := before.carry + chunk;
    RestOfCombined(before, chunk, seen);
    CutAtRest(combined);
    assert combined[..|combined| - |Rest(combined, NEWLINE)|][..0] == [];
  }

  /** What the re-joined bytes leave over: the file's unterminated end, or all of them while a row is being dropped. */
  lemma RestOfCombined(before: TailState, chunk: seq<byte>, seen: seq<byte>)
    requires Observes(before, seen)
    ensures |before.carry| <= before.offset
    ensures var combined, rest := before.carry + chunk, Rest(seen + chunk, NEWLINE);
      if before.skipping && LinesOf(combined, NEWLINE) == [] then
        Rest(combined, NEWLINE) == combined && |rest| == |Rest(seen, NEWLINE)| + |combined|
      else Rest(combined, NEWLINE) == rest
  {
    hide LinesOf, Rest, Terminated;
    LinesConcat(seen, chunk, NEWLINE);
    if before.skipping {
      assert [] + chunk == chunk;
      SkippedPart(Rest(seen, NEWLINE), chunk);
      NothingTerminated(chunk);
    }
  }

  lemma NothingTerminated(s: seq<byte>)
    ensures LinesOf(s, NEWLINE) == [] ==> Rest(s, NEWLINE) == s
  {
    LinesReassemble(s, NEWLINE);
  }

  lemma CutAtRest(s: seq<byte>)
    ensures |Rest(s, NEWLINE)| <= |s|
    ensures LinesOf(s[..|s| - |Rest(s, NEWLINE)|], NEWLINE) == LinesOf(s, NEWLINE)
    ensures |Rest(s, NEWLINE)| == |s| ==> LinesOf(s, NEWLINE) == []
  {
    LinesReassemble(s, NEWLINE);
    var lines, rest := LinesOf(s, NEWLINE), Rest(s, NEWLINE);
    assert s[..|s| - |rest|] == Terminated(lines, NEWLINE);
    TerminatedLinesEnd(lines, NEWLINE);
    if |rest| == |s| {
      assert s == rest;
      NoTerminatorNoLine(s, NEWLINE);
    }
  }

  /** A dropped beginning changes no row count, and the end only if nothing terminates it. */
  lemma SkippedPart(dropped: seq<byte>, chunk: seq<byte>)
    requires NEWLINE !in dropped
    ensures |LinesOf(dropped + chunk, NEWLINE)| == |LinesOf(chunk, NEWLINE)|
    ensures Rest(dropped + chunk, NEWLINE)
            == if LinesOf(chunk, NEWLINE) == [] then dropped + chunk else Rest(chunk, NEWLINE)
    ensures LinesOf(chunk, NEWLINE) != [] ==>
              LinesOf(dropped + chunk, NEWLINE)[0] == dropped + LinesOf(chunk, NEWLINE)[0]
  {
    hide LinesOf, Rest;
    CutAtIndex(chunk, NEWLINE);
    match IndexOf(chunk, NEWLINE) {
      case None => NoTerminatorNoLine(dropped + chunk, NEWLINE);
      case Some(i) =>
        var line, tail := chunk[..i], chunk[i + 1..];
        assert dropped + chunk == (dropped + line) + [NEWLINE] + tail;
        TakeLine(dropped + line, tail, NEWLINE);
    }
  }

  /** What a tick emits for the file: a normalized row or the node of an oversized one. */
  datatype Surface = RowNode(at: nat, row: seq<byte>) | OversizedNode(at: nat, bytes: nat)

  /** Every completed row once, an oversized one as its node only. */
  function Wanted(rows: seq<seq<byte>>, at: nat): (nodes: seq<Surface>)
    ensures |nodes| == |rows|
  {
    if rows == [] then []
    else
      var init, row := rows[..|rows| - 1], rows[|rows| - 1];
      var start := at + |Terminated(init, NEWLINE)|;
      Wanted(init, at) + [if |row| > ROW_CAP then OversizedNode(start, |row| + 1) else RowNode(start, row)]
  }

  /** What is put together and sorted: the tail's oversized nodes and the confirmed rows. */
  function Emission(oversized: seq<Oversized>, placed: seq<Placed>): (nodes: seq<Surface>)
    ensures |nodes| == |oversized| + |placed|
  {
    seq(|oversized|, i requires 0 <= i < |oversized| => OversizedNode(oversized[i].at, oversized[i].bytes))
    + seq(|placed|, i requires 0 <= i < |placed| => RowNode(placed[i].at, placed[i].row))
  }

  /** A tick emits each row it completes exactly once, precisely when none of them is oversized: the confirmed
      rows are split again from the re-joined bytes, so an oversized row is emitted there a second time. */
  lemma RowsEmittedOnceExactlyWithoutOversized(before: TailState, seen: seq<byte>, chunk: seq<byte>)
    requires Observes(before, seen)
    ensures |before.carry| <= before.offset
    ensures var rows, at := NewRows(seen, chunk), before.ackOffset;
      var placed := PlacedFrom(LinesOf(before.carry + chunk, NEWLINE), before.offset - |before.carry|);
      multiset(Emission(OversizedIn(rows, at), placed)) == multiset(Wanted(rows, at)) <==> OversizedIn(rows, at) == []
  {
    hide LinesOf, Rest, Terminated, OversizedIn, Observes;
    var rows, at := NewRows(seen, chunk), before.ackOffset;
    var again := LinesOf(before.carry + chunk, NEWLINE);
    RowsAreSplitAgain(before, seen, chunk);
    var emitted := Emission(OversizedIn(rows, at), PlacedFrom(again, before.offset - |before.carry|));
    var wanted := Wanted(rows, at);
    assert |multiset(emitted)| == |emitted| && |multiset(wanted)| == |wanted|;
    if OversizedIn(rows, at) == [] {
      ShortRowsAreWanted(rows, at);
      assert emitted == wanted;
    }
  }

  /** The re-joined bytes hold as many rows as the tick completes, and the same ones unless one is oversized. */
  lemma RowsAreSplitAgain(before: TailState, seen: seq<byte>, chunk: seq<byte>)
    requires Observes(before, seen)
    ensures |before.carry| <= before.offset
    ensures var rows, again := NewRows(seen, chunk), LinesOf(before.carry + chunk, NEWLINE);
      && |again| == |rows|
      && (OversizedIn(rows, before.ackOffset) == [] ==>
            PlacedFrom(again, before.offset - |before.carry|) == PlacedFrom(rows, before.ackOffset))
  {
    hide LinesOf, Rest, Terminated, OversizedIn;
    if before.skipping {
      var rows := NewRows(seen, chunk);
      assert [] + chunk == chunk;
      SkippedPart(Rest(seen, NEWLINE), chunk);
      if rows != [] {
        LongRowIsOversized(rows, before.ackOffset, 0);
      }
    }
  }

  lemma {:induction false} LongRowIsOversized(rows: seq<seq<byte>>, at: nat, k: nat)
    requires k < |rows| && |rows[k]| > ROW_CAP
    ensures OversizedIn(rows, at) != []
    decreases |rows|
  {
    var n := |rows| - 1;
    if k < n {
      LongRowIsOversized(rows[..n], at, k);
    }
  }

  lemma {:induction false} ShortRowsAreWanted(rows: seq<seq<byte>>, at: nat)
    requires OversizedIn(rows, at) == []
    ensures Emission([], PlacedFrom(rows, at)) == Wanted(rows, at)
    decreases |rows|
  {
    if rows != [] {
      var init, row := rows[..|rows| - 1], rows[|rows| - 1];
      ShortRowsAreWanted(init, at);
      var p := Placed(at + |Terminated(init, NEWLINE)|, row);
      assert Emission([], PlacedFrom(init, at) + [p]) == Emission([], PlacedFrom(init, at)) + [RowNode(p.at, p.row)];
    }
  }

  /** When a row that was being dropped ends, what is emitted beside its oversized node is the fragment that arrived
      in this tick, anchored in the middle of the row and not at the start of any: a node of its own for the client,
      which tells nodes apart by their anchors. */
  lemma FragmentIsEmittedInTheMiddleOfARow(before: TailState, seen: seq<byte>, chunk: seq<byte>)
    requires Observes(before, seen) && before.skipping && NewRows(seen, chunk) != []
    ensures var rows := NewRows(seen, chunk);
      var placed := PlacedFrom(LinesOf(before.carry + chunk, NEWLINE), before.offset - |before.carry|);
      && placed != [] && placed[0].at == before.offset && IsSuffix(placed[0].row, rows[0])
      && before.ackOffset + ROW_CAP < placed[0].at <= before.ackOffset + |rows[0]|
      && OversizedIn(rows, before.ackOffset) != []
      && OversizedIn(rows, before.ackOffset)[0] == Oversized(before.ackOffset, |rows[0]| + 1)
  {
    hide LinesOf, Rest, Terminated, OversizedIn;
    var rows, dropped := NewRows(seen, chunk), Rest(seen, NEWLINE);
    assert [] + chunk == chunk;
    SkippedPart(dropped, chunk);
    FirstPlaced(LinesOf(chunk, NEWLINE), before.offset);
    FirstOversized(rows, before.ackOffset);
    assert rows[0][|dropped|..] == LinesOf(chunk, NEWLINE)[0];
  }

  lemma {:induction false} FirstPlaced(rows: seq<seq<byte>>, at: nat)
    requires rows != []
    ensures PlacedFrom(rows, at)[0] == Placed(at, rows[0])
    decreases |rows|
  {
    var n := |rows| - 1;
    if n > 0 {
      FirstPlaced(rows[..n], at);
    } else {
      assert Terminated(rows[..0], NEWLINE) == [];
    }
  }

  lemma {:induction false} FirstOversized(rows: seq<seq<byte>>, at: nat)
    requires rows != [] && |rows[0]| > ROW_CAP
    ensures OversizedIn(rows, at) != [] && OversizedIn(rows, at)[0] == Oversized(at, |rows[0]| + 1)
    decreases |rows|
  {
    var n := |rows| - 1;
    if n > 0 {
      FirstOversized(rows[..n], at);
    } else {
      assert Terminated(rows[..0], NEWLINE) == [];
    }
  }

  /** A row dropped since an earlier tick, whose last byte and newline arrive now: two nodes, under two anchors. */
  lemma OversizedRowIsEmittedTwice(seen: seq<byte>, last: byte)
    requires |seen| == ROW_CAP + 1 && NEWLINE !in seen && last != NEWLINE
    ensures var before := TailState(ROW_CAP + 1, [], 0, 1, true, 0, ROW_CAP + 1);
      var chunk := [last, NEWLINE];
      && Observes(before, seen)
      && NewRows(seen, chunk) == [seen + [last]]
      && Emission(OversizedIn(NewRows(seen, chunk), 0), PlacedFrom(LinesOf(before.carry + chunk, NEWLINE), ROW_CAP + 1))
         == [OversizedNode(0, ROW_CAP + 3), RowNode(ROW_CAP + 1, [last])]
  {
    var chunk, row, tail := [last, NEWLINE], seen + [last], [last];
    NoTerminatorNoLine(seen, NEWLINE);
    assert seen + chunk == row + [NEWLINE] && [] + chunk == tail + [NEWLINE];
    OneLine(row, NEWLINE);
    OneLine(tail, NEWLINE);
    hide LinesOf, Rest;
    OneRow(row, 0);
    OneRow(tail, ROW_CAP + 1);
  }

  lemma OneRow(row: seq<byte>, at: nat)
    ensures OversizedIn([row], at) == if |row| > ROW_CAP then [Oversized(at, |row| + 1)] else []
    ensures PlacedFrom([row], at) == [Placed(at, row)]
  {
    assert [row][..0] == [] && Terminated([row][..0], NEWLINE) == [];
  }
}
