/** The live tail over a growing file: complete rows, anchors, and rows too long to keep
    (viewer/core/tail.ts, viewer/adapters/poller.adapter.ts). */
module Tail {
  import opened Collections
  import opened Lines

  const ROW_CAP: nat := 8 * 1024 * 1024
  const NEWLINE: byte := 0x0A

  datatype TailState = TailState(
    offset: nat, carry: seq<byte>, ackOffset: nat, inode: nat, skipping: bool, rowStart: nat, skippedBytes: nat)

  datatype FileObservation = FileObservation(sizeBytes: nat, inode: nat)
  datatype ResetReason = Truncated | Rotated
  /** The node that stands for a row too long to keep: where it began and how many bytes it was. */
  datatype Oversized = Oversized(at: nat, bytes: nat)
  datatype TailTick = TailTick(state: TailState, lines: seq<string>, oversized: seq<Oversized>, reset: Option<ResetReason>)

  type Decoder = seq<byte> -> string

  const INITIAL := TailState(0, [], 0, 0, false, 0, 0)

  /** The state is what the whole file read so far determines, in bounded memory. */
  ghost predicate Observes(s: TailState, seen: seq<byte>) {
    var rest := Rest(seen, NEWLINE);
    && s.offset == |seen|
    && s.ackOffset + |rest| == |seen|
    && (s.skipping <==> |rest| > ROW_CAP)
    && s.carry == (if s.skipping then [] else rest)
    && (s.skipping ==> s.rowStart == s.ackOffset && s.skippedBytes == |rest|)
  }

  /** The text of one kept row; a blank one gives no line. */
  function LineOf(decode: Decoder, row: seq<byte>): seq<string> {
    var text := decode(row);
    var trimmed := if text != "" && text[|text| - 1] == '\r' then text[..|text| - 1] else text;
    if trimmed == "" then [] else [trimmed]
  }

  function LinesIn(decode: Decoder, rows: seq<seq<byte>>): seq<string> {
    if rows == [] then []
    else
      var row := rows[|rows| - 1];
      LinesIn(decode, rows[..|rows| - 1]) + if |row| > ROW_CAP then [] else LineOf(decode, row)
  }

  /** The oversized rows among consecutive rows that begin at `at`. */
  function OversizedIn(rows: seq<seq<byte>>, at: nat): seq<Oversized> {
    if rows == [] then []
    else
      var init, row := rows[..|rows| - 1], rows[|rows| - 1];
      OversizedIn(init, at) + if |row| > ROW_CAP then [Oversized(at + |Terminated(init, NEWLINE)|, |row| + 1)] else []
  }

  /** The rows a chunk completes. */
  function NewRows(seen: seq<byte>, chunk: seq<byte>): seq<seq<byte>> {
    LinesOf(Rest(seen, NEWLINE) + chunk, NEWLINE)
  }

  function ResetOf(s: TailState, obs: FileObservation): Option<ResetReason> {
    if obs.sizeBytes < s.offset then Some(Truncated)
    else if s.inode != 0 && obs.inode != s.inode then Some(Rotated)
    else None
  }

  /** Progress of one scan: `done` are the rows finished out of `full`, and `current` is what is left. */
  ghost predicate Scanning(full: seq<byte>, done: seq<seq<byte>>, current: seq<byte>) {
    && LinesOf(full, NEWLINE) == done + LinesOf(current, NEWLINE)
    && Rest(full, NEWLINE) == Rest(current, NEWLINE)
    && |Terminated(done, NEWLINE)| + |current| == |full|
  }

  lemma ScanStarts(full: seq<byte>)
    ensures Scanning(full, [], full)
  {
    assert [] + LinesOf(full, NEWLINE) == LinesOf(full, NEWLINE);
  }

  lemma ScanRow(full: seq<byte>, done: seq<seq<byte>>, row: seq<byte>, tail: seq<byte>)
    requires Scanning(full, done, row + [NEWLINE] + tail) && NEWLINE !in row
    ensures Scanning(full, done + [row], tail)
    ensures |Terminated(done + [row], NEWLINE)| == |Terminated(done, NEWLINE)| + |row| + 1
  {
    hide LinesOf, Rest;
    TakeLine(row, tail, NEWLINE);
    AppendIsAssociative(done, [row], LinesOf(tail, NEWLINE));
    assert (done + [row])[..|done|] == done;
  }

  lemma ScanEnds(full: seq<byte>, done: seq<seq<byte>>, current: seq<byte>)
    requires Scanning(full, done, current) && NEWLINE !in current
    ensures LinesOf(full, NEWLINE) == done && Rest(full, NEWLINE) == current
  {
    NoTerminatorNoLine(current, NEWLINE);
    assert done + [] == done;
  }

  lemma OneMoreRow(decode: Decoder, done: seq<seq<byte>>, row: seq<byte>, at: nat)
    ensures LinesIn(decode, done + [row])
            == LinesIn(decode, done) + if |row| > ROW_CAP then [] else LineOf(decode, row)
    ensures OversizedIn(done + [row], at)
            == OversizedIn(done, at)
               + if |row| > ROW_CAP then [Oversized(at + |Terminated(done, NEWLINE)|, |row| + 1)] else []
  {
    assert (done + [row])[..|done|] == done;
  }

  /** The local variables of one tick's scan. */
  datatype Scan = Scan(lines: seq<string>, oversized: seq<Oversized>, skipping: bool, rowStart: nat, skippedBytes: nat,
                       ackOffset: nat, idx: nat)

  /** `done` rows of `full` are finished; the current row begins with the `dropped` bytes and goes on in `ahead`. */
  ghost predicate InScan(decode: Decoder, at: nat, absBase: int, full: seq<byte>, done: seq<seq<byte>>,
                         dropped: seq<byte>, ahead: seq<byte>, s: Scan) {
    && Scanning(full, done, dropped + ahead) && NEWLINE !in dropped
    && s.lines == LinesIn(decode, done) && s.oversized == OversizedIn(done, at)
    && (s.skipping <==> |dropped| > ROW_CAP) && (!s.skipping ==> dropped == [])
    && (s.skipping ==> s.rowStart == s.ackOffset && s.skippedBytes == |dropped|)
    && s.ackOffset == at + |Terminated(done, NEWLINE)|
    && absBase + s.idx == s.ackOffset + |dropped|
  }

  /** A row whose terminator was found. */
  method TakeRow(decode: Decoder, s: Scan, absBase: int, rowBytes: seq<byte>, ghost at: nat, ghost full: seq<byte>,
                 ghost done: seq<seq<byte>>, ghost dropped: seq<byte>, ghost ahead: seq<byte>)
    returns (r: Scan)
    requires InScan(decode, at, absBase, full, done, dropped, ahead, s)
    requires IndexOf(ahead, NEWLINE) == Some(|rowBytes|) && rowBytes == ahead[..|rowBytes|]
    ensures InScan(decode, at, absBase, full, done + [dropped + rowBytes], [], ahead[|rowBytes| + 1..], r)
    ensures r.idx == s.idx + |rowBytes| + 1
  {
    hide Scanning, LinesIn, OversizedIn, LineOf, Terminated;
    OneRowScanned(decode, full, done, dropped, ahead, |rowBytes|, at);
    var rowStartAbs := absBase + s.idx;
    if s.skipping {
      r := s.(oversized := s.oversized + [Oversized(s.rowStart, s.skippedBytes + |rowBytes| + 1)],
              skipping := false, skippedBytes := 0);
    } else if |rowBytes| > ROW_CAP {
      r := s.(oversized := s.oversized + [Oversized(rowStartAbs, |rowBytes| + 1)]);
    } else {
      r := s.(lines := s.lines + LineOf(decode, rowBytes));
    }
    r := r.(ackOffset := rowStartAbs + |rowBytes| + 1, idx := s.idx + |rowBytes| + 1);
    assert [] + ahead[|rowBytes| + 1..] == ahead[|rowBytes| + 1..];
  }

  /** The scan of one tick. `held` is the part of the current row already dropped, empty unless skipping. */
  method ScanRows(decode: Decoder, base: TailState, combined: seq<byte>, ghost held: seq<byte>) returns (s: Scan)
    requires NEWLINE !in held && (base.skipping <==> |held| > ROW_CAP) && (!base.skipping ==> held == [])
    requires base.skipping ==> base.rowStart == base.ackOffset && base.skippedBytes == |held|
    requires base.offset - |base.carry| == base.ackOffset + |held|
    ensures var full, rest := held + combined, Rest(held + combined, NEWLINE);
      && s.lines == LinesIn(decode, LinesOf(full, NEWLINE))
      && s.oversized == OversizedIn(LinesOf(full, NEWLINE), base.ackOffset)
      && (s.skipping <==> |rest| > ROW_CAP)
      && (s.skipping ==> s.rowStart == s.ackOffset && s.skippedBytes == |rest|)
      && s.idx <= |combined| && (!s.skipping ==> combined[s.idx..] == rest)
      && s.ackOffset + |rest| == base.ackOffset + |full|
  {
    hide InScan, LinesOf, Rest, OversizedIn, LinesIn;
    ghost var full, done, dropped := held + combined, [], held;
    var absBase := base.offset - |base.carry|;
    s := Scan([], [], base.skipping, base.rowStart, base.skippedBytes, base.ackOffset, 0);
    var ahead := combined;
    NothingScanned(decode, base.ackOffset, absBase, combined, held, s);
    var found := IndexOf(ahead, NEWLINE);
    while found.Some?
      invariant s.idx + |ahead| == |combined| && combined[s.idx..] == ahead
      invariant found == IndexOf(ahead, NEWLINE)
      invariant InScan(decode, base.ackOffset, absBase, full, done, dropped, ahead, s)
      decreases |ahead|
    {
      var rowBytes := ahead[..found.value];
      s := TakeRow(decode, s, absBase, rowBytes, base.ackOffset, full, done, dropped, ahead);
      done, dropped, ahead := done + [dropped + rowBytes], [], ahead[|rowBytes| + 1..];
      found := IndexOf(ahead, NEWLINE);
    }
    ScanFinished(decode, base.ackOffset, absBase, full, done, dropped, ahead, s);
    if s.skipping {
      s := s.(skippedBytes := s.skippedBytes + |ahead|);
    } else if |ahead| > ROW_CAP {
      s := s.(skipping := true, rowStart := absBase + s.idx, skippedBytes := |ahead|);
    }
  }

  lemma NothingScanned(decode: Decoder, at: nat, absBase: int, combined: seq<byte>, held: seq<byte>, s: Scan)
    requires NEWLINE !in held && (s.skipping <==> |held| > ROW_CAP) && (!s.skipping ==> held == [])
    requires s.skipping ==> s.rowStart == s.ackOffset && s.skippedBytes == |held|
    requires s.lines == [] && s.oversized == [] && s.ackOffset == at && absBase + s.idx == at + |held|
    ensures InScan(decode, at, absBase, held + combined, [], held, combined, s)
  {
    ScanStarts(held + combined);
  }

  lemma ScanFinished(decode: Decoder, at: nat, absBase: int, full: seq<byte>, done: seq<seq<byte>>, dropped: seq<byte>,
                     ahead: seq<byte>, s: Scan)
    requires InScan(decode, at, absBase, full, done, dropped, ahead, s) && NEWLINE !in ahead
    ensures LinesOf(full, NEWLINE) == done && Rest(full, NEWLINE) == dropped + ahead
    ensures s.lines == LinesIn(decode, done) && s.oversized == OversizedIn(done, at)
    ensures (s.skipping <==> |dropped| > ROW_CAP) && (!s.skipping ==> dropped + ahead == ahead)
    ensures s.skipping ==> s.rowStart == s.ackOffset && s.skippedBytes == |dropped|
    ensures s.ackOffset + |dropped + ahead| == at + |full| && absBase + s.idx == s.ackOffset + |dropped|
  {
    ScanEnds(full, done, dropped + ahead);
  }

  lemma OneRowScanned(decode: Decoder, full: seq<byte>, done: seq<seq<byte>>, dropped: seq<byte>, ahead: seq<byte>, i: nat,
                      at: nat)
    requires Scanning(full, done, dropped + ahead) && NEWLINE !in dropped
    requires IndexOf(ahead, NEWLINE) == Some(i)
    requires dropped == [] || |dropped| > ROW_CAP
    ensures var row := dropped + ahead[..i];
      && Scanning(full, done + [row], ahead[i + 1..])
      && |Terminated(done + [row], NEWLINE)| == |Terminated(done, NEWLINE)| + |row| + 1
      && LinesIn(decode, done + [row])
         == LinesIn(decode, done) + (if |row| > ROW_CAP then [] else LineOf(decode, ahead[..i]))
      && OversizedIn(done + [row], at)
         == OversizedIn(done, at)
            + (if |row| > ROW_CAP then [Oversized(at + |Terminated(done, NEWLINE)|, |row| + 1)] else [])
  {
    hide Scanning, LinesIn, OversizedIn, LineOf, Terminated;
    var row := dropped + ahead[..i];
    assert dropped + ahead == row + [NEWLINE] + ahead[i + 1..];
    ScanRow(full, done, row, ahead[i + 1..]);
    OneMoreRow(decode, done, row, at);
    assert dropped == [] ==> row == ahead[..i];
  }

  /** One tick: unless the file was reset, the state comes to observe the file with the chunk, and exactly
      the rows the chunk completes are given, each once, as a line or as an oversized node at its true start. */
  method AdvanceTail(decode: Decoder, state: TailState, chunk: seq<byte>, obs: FileObservation, ghost seen: seq<byte>)
    returns (tick: TailTick)
    requires Observes(state, seen)
    ensures tick.reset == Some(Truncated) <==> obs.sizeBytes < state.offset
    ensures tick.reset == Some(Rotated) <==> obs.sizeBytes >= state.offset && state.inode != 0 && obs.inode != state.inode
    ensures var from, at := if tick.reset.Some? then [] else seen, if tick.reset.Some? then 0 else state.ackOffset;
      && Observes(tick.state, from + chunk) && tick.state.inode == obs.inode
      && tick.lines == LinesIn(decode, NewRows(from, chunk))
      && tick.oversized == OversizedIn(NewRows(from, chunk), at)
  {
    hide LinesOf, Rest, LinesIn, OversizedIn;
    var reset := ResetOf(state, obs);
    var base := if reset.Some? then TailState(0, [], 0, 0, false, 0, 0) else state;
    ghost var from := if reset.Some? then [] else seen;
    ghost var rest := Rest(from, NEWLINE);
    ghost var held := if base.skipping then rest else [];
    var combined := base.carry + chunk;
    NoTerminatorNoLine<byte>([], NEWLINE);
    assert held + combined == rest + chunk;
    LinesConcat(from, chunk, NEWLINE);
    var s := ScanRows(decode, base, combined, held);
    var finalCarry := if s.skipping then [] else combined[s.idx..];
    var after :=
      TailState(base.offset + |chunk|, finalCarry, s.ackOffset, obs.inode, s.skipping, s.rowStart, s.skippedBytes);
    tick := TailTick(after, s.lines, s.oversized, reset);
  }

  /** The state holds at most one row's worth of bytes, and has acknowledged up to a real line boundary. */
  lemma AckIsALineBoundary(s: TailState, seen: seq<byte>)
    requires Observes(s, seen)
    ensures |s.carry| <= ROW_CAP
    ensures s.ackOffset == 0 || seen[s.ackOffset - 1] == NEWLINE
    ensures NEWLINE !in seen[s.ackOffset..]
  {
    LinesReassemble(seen, NEWLINE);
    var lines, rest := LinesOf(seen, NEWLINE), Rest(seen, NEWLINE);
    assert seen[s.ackOffset..] == rest;
    if lines != [] {
      var n := |lines| - 1;
      assert Terminated(lines, NEWLINE) == Terminated(lines[..n], NEWLINE) + (lines[n] + [NEWLINE]);
    }
  }

  lemma {:induction false} EmissionsConcat(decode: Decoder, a: seq<seq<byte>>, b: seq<seq<byte>>, at: nat)
    ensures LinesIn(decode, a + b) == LinesIn(decode, a) + LinesIn(decode, b)
    ensures OversizedIn(a + b, at) == OversizedIn(a, at) + OversizedIn(b, at + |Terminated(a, NEWLINE)|)
    ensures Terminated(a + b, NEWLINE) == Terminated(a, NEWLINE) + Terminated(b, NEWLINE)
    decreases |b|
  {
    if b == [] {
      assert a + b == a;
    } else {
      hide LineOf;
      var c, row := b[..|b| - 1], b[|b| - 1];
      assert a + b == (a + c) + [row] && b == c + [row];
      EmissionsConcat(decode, a, c, at);
      OneMoreRow(decode, a + c, row, at);
      OneMoreRow(decode, c, row, at + |Terminated(a, NEWLINE)|);
      assert (a + b)[..|a + b| - 1] == a + c;
      AppendIsAssociative(Terminated(a, NEWLINE), Terminated(c, NEWLINE), row + [NEWLINE]);
    }
  }

  /** Everything given over a run of ticks, as each tick's contract states it. */
  datatype Output = Output(lines: seq<string>, oversized: seq<Oversized>)

  function Emitted(decode: Decoder, chunks: seq<seq<byte>>): Output {
    if chunks == [] then Output([], [])
    else
      var n := |chunks| - 1;
      EmitNext(decode, Emitted(decode, chunks[..n]), Flatten(chunks[..n]), chunks[n])
  }

  function EmitNext(decode: Decoder, sofar: Output, seen: seq<byte>, chunk: seq<byte>): Output {
    var rows := NewRows(seen, chunk);
    Output(sofar.lines + LinesIn(decode, rows), sofar.oversized + OversizedIn(rows, |seen| - |RestOf(seen)|))
  }

  /** What one read of the whole file gives. */
  function WholeRead(decode: Decoder, file: seq<byte>): Output {
    Output(LinesIn(decode, LinesOf(file, NEWLINE)), OversizedIn(LinesOf(file, NEWLINE), 0))
  }

  function RestOf(seen: seq<byte>): (rest: seq<byte>)
    ensures |rest| <= |seen|
  {
    LinesReassemble(seen, NEWLINE);
    Rest(seen, NEWLINE)
  }

  lemma OneTickExtends(decode: Decoder, seen: seq<byte>, chunk: seq<byte>)
    ensures EmitNext(decode, WholeRead(decode, seen), seen, chunk) == WholeRead(decode, seen + chunk)
  {
    hide LinesIn, OversizedIn, LinesOf, Rest, Terminated;
    LinesConcat(seen, chunk, NEWLINE);
    LinesReassemble(seen, NEWLINE);
    EmissionsConcat(decode, LinesOf(seen, NEWLINE), NewRows(seen, chunk), 0);
  }

  /** The line a kept row gives: its text without one final carriage return, unless nothing is left. */
  predicate IsLineOf(decode: Decoder, row: seq<byte>, line: string) {
    && line != ""
    && (decode(row) == line + "\r" || (decode(row) == line && line[|line| - 1] != '\r'))
  }

  /** The lines one row gives: none if it is over the cap or blank. */
  predicate LinesOfRow(decode: Decoder, row: seq<byte>, lines: seq<string>) {
    if |row| > ROW_CAP || decode(row) == "" || decode(row) == "\r" then lines == []
    else |lines| == 1 && IsLineOf(decode, row, lines[0])
  }

  /** The nodes one row that begins at `from` gives: one if it is over the cap, with the bytes it had, its newline
      included. */
  predicate NodesOfRow(row: seq<byte>, from: nat, nodes: seq<Oversized>) {
    nodes == if |row| > ROW_CAP then [Oversized(from, |row| + 1)] else []
  }

  lemma LineOfARow(decode: Decoder, row: seq<byte>)
    ensures LinesOfRow(decode, row, if |row| > ROW_CAP then [] else LineOf(decode, row))
  {
    var text := decode(row);
    if text != "" && text[|text| - 1] == '\r' {
      assert text == text[..|text| - 1] + "\r";
    }
  }

  /** Row by row, `lines` and `nodes` hold what each gives; a row begins where those before it end. */
  ghost predicate IsGivenBy(decode: Decoder, rows: seq<seq<byte>>, from: nat, out: Output,
                            lines: seq<seq<string>>, nodes: seq<seq<Oversized>>)
  {
    && |lines| == |nodes| == |rows|
    && (forall k :: 0 <= k < |rows| ==>
          LinesOfRow(decode, rows[k], lines[k]) && NodesOfRow(rows[k], from + |Terminated(rows[..k], NEWLINE)|, nodes[k]))
    && out.lines == Flatten(lines) && out.oversized == Flatten(nodes)
  }

  /** Every row gives its own lines and nodes, in order, and nothing else is given. */
  lemma {:induction false} EveryRowIsGiven(decode: Decoder, rows: seq<seq<byte>>, from: nat)
    returns (lines: seq<seq<string>>, nodes: seq<seq<Oversized>>)
    ensures IsGivenBy(decode, rows, from, Output(LinesIn(decode, rows), OversizedIn(rows, from)), lines, nodes)
    decreases |rows|
  {
    hide LineOf, Terminated;
    if rows == [] {
      lines, nodes := [], [];
    } else {
      hide IsGivenBy;
      var n := |rows| - 1;
      lines, nodes := EveryRowIsGiven(decode, rows[..n], from);
      assert rows == rows[..n] + [rows[n]];
      lines, nodes := OneMoreGiven(decode, rows[..n], rows[n], from, Output(LinesIn(decode, rows[..n]), OversizedIn(rows[..n], from)), lines, nodes);
    }
  }

  lemma OneMoreGiven(decode: Decoder, rows: seq<seq<byte>>, row: seq<byte>, from: nat, out: Output,
                     lines: seq<seq<string>>, nodes: seq<seq<Oversized>>)
    returns (lines': seq<seq<string>>, nodes': seq<seq<Oversized>>)
    requires IsGivenBy(decode, rows, from, out, lines, nodes)
    ensures IsGivenBy(decode, rows + [row], from,
              Output(out.lines + (if |row| > ROW_CAP then [] else LineOf(decode, row)),
                     out.oversized + (if |row| > ROW_CAP then [Oversized(from + |Terminated(rows, NEWLINE)|, |row| + 1)] else [])),
              lines', nodes')
  {
    hide Flatten, Terminated, LineOf, LinesOfRow;
    var line := if |row| > ROW_CAP then [] else LineOf(decode, row);
    var node := if |row| > ROW_CAP then [Oversized(from + |Terminated(rows, NEWLINE)|, |row| + 1)] else [];
    lines', nodes' := lines + [line], nodes + [node];
    LineOfARow(decode, row);
    FlattenAppend(lines, line);
    FlattenAppend(nodes, node);
    var longer := rows + [row];
    assert longer[|rows|] == row && longer[..|rows|] == rows;
    assert forall k :: 0 <= k < |rows| ==> longer[k] == rows[k] && longer[..k] == rows[..k];
  }

  /** However the file's growth is cut into ticks, the lines and oversized nodes are those of one whole read. */
  lemma {:induction false} ChunkingIsInvisible(decode: Decoder, chunks: seq<seq<byte>>)
    ensures Emitted(decode, chunks) == WholeRead(decode, Flatten(chunks))
    decreases |chunks|
  {
    hide EmitNext;
    if chunks == [] {
      assert LinesOf<byte>([], NEWLINE) == [];
    } else {
      hide WholeRead;
      var init, chunk := chunks[..|chunks| - 1], chunks[|chunks| - 1];
      ChunkingIsInvisible(decode, init);
      assert chunks == init + [chunk];
      FlattenAppend(init, chunk);
      OneTickExtends(decode, Flatten(init), chunk);
    }
  }
}
