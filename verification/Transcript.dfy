/** Transcript rows read as a stream (runner/adapters/transcript-io.adapter.ts). */
module Transcript {
  import opened Collections
  import opened Lines

  const CHUNK_SIZE: nat := 64 * 1024
  const FIELDS: nat := 15

  datatype Outcome = Row(value: string) | Skip(reason: string) | Blank

  /** The compared fields of a session's metrics in their declared order, each as its JSON text. */
  type Metrics = m: seq<string> | |m| == FIELDS witness seq(FIELDS, _ => "")

  /** What the adapter calls and does not decide. `decode` is the streaming UTF-8 decoder, one byte at a
      time: it keeps the bytes of an unfinished character and gives the text it can already give. */
  datatype Edge = Edge(
    decode: (seq<byte>, byte) -> (seq<byte>, string),
    end: seq<byte> -> string,
    classify: (string, nat) -> Outcome,
    sha256: seq<byte> -> string,
    accumulate: seq<string> -> Metrics,
    countText: nat -> string,
    reasonsText: seq<string> -> string)

  /** How many of the `want` bytes at a position one read gives; 0 only when the file shrank. */
  type Reads = (nat, nat) -> nat

  function Min(a: nat, b: nat): nat {
    if a <= b then a else b
  }

  /** How far a reading loop gets before the target or a read that gives nothing. */
  function ReadLength(io: Reads, pos: nat, target: nat): (length: nat)
    requires pos <= target
    ensures pos <= length <= target
    decreases target - pos
  {
    if pos == target then pos
    else
      var want := Min(CHUNK_SIZE, target - pos);
      var n := Min(io(pos, want), want);
      if n == 0 then pos else ReadLength(io, pos + n, target)
  }

  lemma PrefixGrows(file: seq<byte>, pos: nat, n: nat)
    requires pos + n <= |file|
    ensures file[..pos] + file[pos..pos + n] == file[..pos + n]
  {
  }

  ghost predicate NeverStops(io: Reads) {
    forall pos: nat, want: nat :: 0 < want ==> 0 < io(pos, want)
  }

  lemma {:induction false} FullRead(io: Reads, pos: nat, target: nat)
    requires NeverStops(io) && pos <= target
    ensures ReadLength(io, pos, target) == target
    decreases target - pos
  {
    if pos < target {
      var want := Min(CHUNK_SIZE, target - pos);
      assert 0 < io(pos, want);
      FullRead(io, pos + Min(io(pos, want), want), target);
    }
  }

  /** The text of some bytes decoded from a decoder state, and the state left. */
  function DecodeFrom(t: Edge, pending: seq<byte>, bytes: seq<byte>): (seq<byte>, string) {
    if bytes == [] then (pending, "")
    else
      var (mid, text) := DecodeFrom(t, pending, bytes[..|bytes| - 1]);
      var (after, more) := t.decode(mid, bytes[|bytes| - 1]);
      (after, text + more)
  }

  function TextOf(t: Edge, bytes: seq<byte>): string {
    DecodeFrom(t, [], bytes).1
  }

  /** Chunks may split a character anywhere: decoding them one after another gives the same text. */
  lemma {:induction false} DecodeConcat(t: Edge, pending: seq<byte>, a: seq<byte>, b: seq<byte>)
    ensures var (mid, first) := DecodeFrom(t, pending, a);
      var (after, second) := DecodeFrom(t, mid, b);
      DecodeFrom(t, pending, a + b) == (after, first + second)
    decreases |b|
  {
    var (mid, first) := DecodeFrom(t, pending, a);
    if b == [] {
      assert a + b == a && first + "" == first;
    } else {
      var c, last := b[..|b| - 1], b[|b| - 1];
      assert (a + b)[..|a + b| - 1] == a + c;
      DecodeConcat(t, pending, a, c);
      var (after, second) := DecodeFrom(t, mid, c);
      AppendIsAssociative(first, second, t.decode(after, last).1);
    }
  }

  datatype Tally = Tally(rows: seq<string>, lines: nat, skipped: nat, reasons: seq<string>)

  const NOTHING := Tally([], 0, 0, [])

  /** One more line, numbered from 1. */
  function Observe(t: Edge, sofar: Tally, raw: string): Tally {
    var n := sofar.lines + 1;
    match t.classify(raw, n)
    case Row(value) => sofar.(rows := sofar.rows + [value], lines := n)
    case Skip(reason) => sofar.(skipped := sofar.skipped + 1, reasons := sofar.reasons + [reason], lines := n)
    case Blank => sofar.(lines := n)
  }

  function TallyFrom(t: Edge, sofar: Tally, lines: seq<string>): Tally {
    if lines == [] then sofar
    else Observe(t, TallyFrom(t, sofar, lines[..|lines| - 1]), lines[|lines| - 1])
  }

  lemma TallyNone(t: Edge, sofar: Tally)
    ensures TallyFrom(t, sofar, []) == sofar
  {
  }

  lemma TallyNext(t: Edge, sofar: Tally, taken: seq<string>, raw: string)
    ensures TallyFrom(t, sofar, taken + [raw]) == Observe(t, TallyFrom(t, sofar, taken), raw)
  {
    assert (taken + [raw])[..|taken|] == taken;
  }

  lemma {:induction false} TallyConcat(t: Edge, sofar: Tally, a: seq<string>, b: seq<string>)
    ensures TallyFrom(t, sofar, a + b) == TallyFrom(t, TallyFrom(t, sofar, a), b)
    decreases |b|
  {
    if b == [] {
      assert a + b == a;
    } else {
      assert (a + b)[..|a + b| - 1] == a + b[..|b| - 1];
      TallyConcat(t, sofar, a, b[..|b| - 1]);
    }
  }

  lemma {:induction false} TallyOnlyGrows(t: Edge, sofar: Tally, lines: seq<string>)
    ensures var after := TallyFrom(t, sofar, lines);
      && after.lines == sofar.lines + |lines|
      && sofar.rows <= after.rows && sofar.reasons <= after.reasons
      && after.skipped - sofar.skipped == |after.reasons| - |sofar.reasons|
    decreases |lines|
  {
    if lines != [] {
      TallyOnlyGrows(t, sofar, lines[..|lines| - 1]);
    }
  }

  /** What one line leaves: its row, its reason, or nothing. */
  predicate RowOf(outcome: Outcome, part: seq<string>) {
    if outcome.Row? then part == [outcome.value] else part == []
  }

  predicate ReasonOf(outcome: Outcome, part: seq<string>) {
    if outcome.Skip? then part == [outcome.reason] else part == []
  }

  /** Every line is classified once under its own number: line by line, `rows` and `reasons` hold what it left; all lines
      are counted, blank ones too, and the skipped ones are those with a reason. */
  ghost predicate IsTallyOf(t: Edge, lines: seq<string>, r: Tally, rows: seq<seq<string>>, reasons: seq<seq<string>>) {
    && |rows| == |reasons| == |lines| == r.lines
    && (forall k :: 0 <= k < |lines| ==> RowOf(t.classify(lines[k], k + 1), rows[k]) && ReasonOf(t.classify(lines[k], k + 1), reasons[k]))
    && r.rows == Flatten(rows) && r.reasons == Flatten(reasons) && r.skipped == |r.reasons|
  }

  lemma {:induction false} EveryLineIsTallied(t: Edge, lines: seq<string>) returns (rows: seq<seq<string>>, reasons: seq<seq<string>>)
    ensures IsTallyOf(t, lines, TallyFrom(t, NOTHING, lines), rows, reasons)
    decreases |lines|
  {
    if lines == [] {
      rows, reasons := [], [];
    } else {
      hide IsTallyOf, Observe;
      var n := |lines| - 1;
      rows, reasons := EveryLineIsTallied(t, lines[..n]);
      assert lines == lines[..n] + [lines[n]];
      rows, reasons := OneMoreTallied(t, lines[..n], lines[n], TallyFrom(t, NOTHING, lines[..n]), rows, reasons);
    }
  }

  lemma OneMoreTallied(t: Edge, lines: seq<string>, raw: string, r: Tally, rows: seq<seq<string>>, reasons: seq<seq<string>>)
    returns (rows': seq<seq<string>>, reasons': seq<seq<string>>)
    requires IsTallyOf(t, lines, r, rows, reasons)
    ensures IsTallyOf(t, lines + [raw], Observe(t, r, raw), rows', reasons')
  {
    hide Flatten;
    var outcome := t.classify(raw, |lines| + 1);
    var row := if outcome.Row? then [outcome.value] else [];
    var reason := if outcome.Skip? then [outcome.reason] else [];
    rows', reasons' := rows + [row], reasons + [reason];
    FlattenAppend(rows, row);
    FlattenAppend(reasons, reason);
    assert Flatten(rows) + [] == Flatten(rows) && Flatten(reasons) + [] == Flatten(reasons);
  }

  /** Every line of a whole file, the unterminated last one included when it is not empty. */
  function StreamedLines(t: Edge, bytes: seq<byte>): seq<string> {
    var (pending, text) := DecodeFrom(t, [], bytes);
    var last := Rest(text, '\n') + t.end(pending);
    LinesOf(text, '\n') + if last == "" then [] else [last]
  }

  /** The text read so far is the lines already taken off plus what is left over. */
  ghost predicate Streaming(t: Edge, bytes: seq<byte>, pending: seq<byte>, taken: seq<string>, leftover: string) {
    && DecodeFrom(t, [], bytes).0 == pending
    && taken + LinesOf(leftover, '\n') == LinesOf(TextOf(t, bytes), '\n')
    && Rest(leftover, '\n') == Rest(TextOf(t, bytes), '\n')
  }

  /** A chunk decoded onto a left-over text that holds no complete line. */
  lemma NextChunk(t: Edge, bytes: seq<byte>, pending: seq<byte>, taken: seq<string>, leftover: string, chunk: seq<byte>)
    requires Streaming(t, bytes, pending, taken, leftover) && '\n' !in leftover
    ensures var (after, more) := DecodeFrom(t, pending, chunk);
      Streaming(t, bytes + chunk, after, taken, leftover + more)
  {
    hide LinesOf, Rest, DecodeFrom;
    NoTerminatorNoLine(leftover, '\n');
    assert taken + [] == taken;
    DecodeConcat(t, [], bytes, chunk);
    LinesConcat(TextOf(t, bytes), DecodeFrom(t, pending, chunk).1, '\n');
  }

  lemma NextLine(t: Edge, bytes: seq<byte>, pending: seq<byte>, taken: seq<string>, leftover: string, i: nat)
    requires Streaming(t, bytes, pending, taken, leftover)
    requires IndexOf(leftover, '\n') == Some(i)
    ensures Streaming(t, bytes, pending, taken + [leftover[..i]], leftover[i + 1..])
  {
    hide LinesOf, Rest, DecodeFrom;
    CutAtIndex(leftover, '\n');
    AppendIsAssociative(taken, [leftover[..i]], LinesOf(leftover[i + 1..], '\n'));
  }

  /** The generator's loop; the lines are collected in the order they are yielded. */
  method ReadLines(t: Edge, file: seq<byte>, io: Reads) returns (lines: seq<string>)
    ensures lines == StreamedLines(t, file[..ReadLength(io, 0, |file|)])
  {
    hide LinesOf, Rest, DecodeFrom, TextOf;
    lines := [];
    var pos, pending: seq<byte>, leftover := 0, [], "";
    StreamingStarts(t);
    while pos < |file|
      invariant pos <= |file| && ReadLength(io, pos, |file|) == ReadLength(io, 0, |file|)
      invariant Streaming(t, file[..pos], pending, lines, leftover) && '\n' !in leftover
    {
      var want := Min(CHUNK_SIZE, |file| - pos);
      var n := Min(io(pos, want), want);
      if n == 0 {
        break;
      }
      var chunk := file[pos..pos + n];
      NextChunk(t, file[..pos], pending, lines, leftover, chunk);
      PrefixGrows(file, pos, n);
      var (after, more) := DecodeFrom(t, pending, chunk);
      pending, leftover, pos := after, leftover + more, pos + n;
      var idx := IndexOf(leftover, '\n');
      while idx.Some?
        invariant Streaming(t, file[..pos], pending, lines, leftover)
        invariant idx == IndexOf(leftover, '\n')
        decreases |leftover|
      {
        NextLine(t, file[..pos], pending, lines, leftover, idx.value);
        lines := lines + [leftover[..idx.value]];
        leftover := leftover[idx.value + 1..];
        idx := IndexOf(leftover, '\n');
      }
    }
    StreamingEnds(t, file[..pos], pending, lines, leftover);
    leftover := leftover + t.end(pending);
    if leftover != "" {
      lines := lines + [leftover];
    }
  }

  lemma StreamingStarts(t: Edge)
    ensures Streaming(t, [], [], [], "")
  {
  }

  lemma StreamingEnds(t: Edge, bytes: seq<byte>, pending: seq<byte>, taken: seq<string>, leftover: string)
    requires Streaming(t, bytes, pending, taken, leftover) && '\n' !in leftover
    ensures taken == LinesOf(TextOf(t, bytes), '\n') && leftover == Rest(TextOf(t, bytes), '\n')
    ensures StreamedLines(t, bytes)
            == taken + if leftover + t.end(pending) == "" then [] else [leftover + t.end(pending)]
  {
    hide LinesOf, Rest, DecodeFrom;
    NoTerminatorNoLine(leftover, '\n');
    assert taken + [] == taken;
  }

  method ReadTranscriptRows(t: Edge, file: seq<byte>, io: Reads) returns (r: Tally)
    ensures r == TallyFrom(t, NOTHING, StreamedLines(t, file[..ReadLength(io, 0, |file|)]))
  {
    var all := ReadLines(t, file, io);
    hide StreamedLines, ReadLength;
    var rows, reasons, skipped, lines := [], [], 0, 0;
    for i := 0 to |all|
      invariant Tally(rows, lines, skipped, reasons) == TallyFrom(t, NOTHING, all[..i])
    {
      assert all[..i + 1][..i] == all[..i];
      lines := lines + 1;
      var outcome := t.classify(all[i], lines);
      match outcome {
        case Row(value) => rows := rows + [value];
        case Skip(reason) => skipped, reasons := skipped + 1, reasons + [reason];
        case Blank =>
      }
    }
    assert all[..|all|] == all;
    r := Tally(rows, lines, skipped, reasons);
  }
}
