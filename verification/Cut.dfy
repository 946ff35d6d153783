/** The pinned cut that a baseline entry keeps of a transcript (runner/adapters/cut.ts). */
module Cut {
  import opened Collections
  import opened Lines
  import opened Transcript

  datatype CutInfo = CutInfo(lines: nat, bytes: nat, sha256: string)
  datatype Measurement = Measurement(cut: CutInfo, metrics: Metrics)

  /** What the window over exactly these bytes measures: its terminated lines, and nothing of a partial one. */
  function CommittedRows(t: Edge, bytes: seq<byte>): Tally {
    TallyFrom(t, NOTHING, LinesOf(TextOf(t, bytes), '\n'))
  }

  function MeasurementOf(t: Edge, bytes: seq<byte>): Measurement {
    var tally := CommittedRows(t, bytes);
    Measurement(CutInfo(tally.lines, |bytes|, t.sha256(bytes)),
                t.accumulate(tally.rows)[0 := t.countText(tally.lines)][1 := t.countText(tally.skipped)]
                                        [2 := t.reasonsText(tally.reasons)])
  }

  /** The first three compared fields are the counts of the cut itself, the lines, the skipped ones and their reasons;
      all others are what the accumulator makes of the rows. */
  lemma MeasuredFields(t: Edge, bytes: seq<byte>)
    ensures var r := TallyFrom(t, NOTHING, LinesOf(TextOf(t, bytes), '\n'));
      var m := MeasurementOf(t, bytes);
      && m.cut == CutInfo(|LinesOf(TextOf(t, bytes), '\n')|, |bytes|, t.sha256(bytes))
      && m.metrics[0] == t.countText(m.cut.lines) && m.metrics[1] == t.countText(r.skipped) && m.metrics[2] == t.reasonsText(r.reasons)
      && forall i :: 3 <= i < FIELDS ==> m.metrics[i] == t.accumulate(r.rows)[i]
  {
    TallyOnlyGrows(t, NOTHING, LinesOf(TextOf(t, bytes), '\n'));
  }

  /** `requested === null ? size : max(0, min(requested, size))` */
  function TargetOf(size: nat, requested: Option<int>): (target: nat)
    ensures target <= size
    ensures requested.None? ==> target == size
    ensures requested.Some? && requested.value <= 0 ==> target == 0
    ensures requested.Some? && requested.value >= 0 ==> target <= requested.value && (target == requested.value || target == size)
  {
    match requested
    case None => size
    case Some(n) => if n < 0 then 0 else Min(n, size)
  }

  method MeasureWindow(t: Edge, file: seq<byte>, requested: Option<int>, io: Reads)
    returns (cut: CutInfo, tally: Tally)
    ensures var n := ReadLength(io, 0, TargetOf(|file|, requested));
      tally == CommittedRows(t, file[..n]) && cut == CutInfo(tally.lines, n, t.sha256(file[..n]))
  {
    hide LinesOf, Rest, DecodeFrom, TextOf, Streaming, Observe, TallyFrom;
    var target := TargetOf(|file|, requested);
    var hashed: seq<byte>, pending: seq<byte>, leftover := [], [], "";
    tally := NOTHING;
    ghost var taken: seq<string> := [];
    var readTotal := 0;
    StreamingStarts(t);
    TallyNone(t, NOTHING);
    while readTotal < target
      invariant readTotal <= target && ReadLength(io, readTotal, target) == ReadLength(io, 0, target)
      invariant hashed == file[..readTotal]
      invariant Streaming(t, file[..readTotal], pending, taken, leftover) && '\n' !in leftover
      invariant tally == TallyFrom(t, NOTHING, taken)
    {
      var want := Min(CHUNK_SIZE, target - readTotal);
      var n := Min(io(readTotal, want), want);
      if n == 0 {
        break;
      }
      var slice := file[readTotal..readTotal + n];
      NextChunk(t, file[..readTotal], pending, taken, leftover, slice);
      PrefixGrows(file, readTotal, n);
      hashed := hashed + slice;
      var (after, more) := DecodeFrom(t, pending, slice);
      pending, leftover, readTotal := after, leftover + more, readTotal + n;
      var idx := IndexOf(leftover, '\n');
      while idx.Some?
        invariant Streaming(t, file[..readTotal], pending, taken, leftover)
        invariant tally == TallyFrom(t, NOTHING, taken)
        invariant idx == IndexOf(leftover, '\n')
        decreases |leftover|
      {
        var raw := leftover[..idx.value];
        NextLine(t, file[..readTotal], pending, taken, leftover, idx.value);
        leftover := leftover[idx.value + 1..];
        TallyNext(t, NOTHING, taken, raw);
        tally, taken := Observe(t, tally, raw), taken + [raw];
        idx := IndexOf(leftover, '\n');
      }
    }
    StreamingEnds(t, file[..readTotal], pending, taken, leftover);
    cut := CutInfo(tally.lines, readTotal, t.sha256(hashed));
  }

  method MeasureAtCut(t: Edge, file: seq<byte>, requested: Option<int>, io: Reads) returns (m: Measurement)
    ensures m == MeasurementOf(t, file[..ReadLength(io, 0, TargetOf(|file|, requested))])
  {
    hide CommittedRows, ReadLength;
    var cut, tally := MeasureWindow(t, file, requested, io);
    var metrics := t.accumulate(tally.rows);
    metrics := metrics[0 := t.countText(tally.lines)];
    metrics := metrics[1 := t.countText(tally.skipped)];
    metrics := metrics[2 := t.reasonsText(tally.reasons)];
    m := Measurement(cut, metrics);
  }

  /** Metrics as a baseline file holds them: any JSON value, any field possibly missing. */
  datatype Recorded = NotAnObject | Object(fields: seq<Option<string>>)
  datatype BaselineEntry = BaselineEntry(sessionId: string, path: string, cut: CutInfo, metrics: Recorded)

  function FieldOf(recorded: Recorded, i: nat): Option<string> {
    if recorded.Object? && i < |recorded.fields| then recorded.fields[i] else None
  }

  /** The first compared field that disagrees, in declared order. */
  method FirstMismatchedMetricField(remeasured: Metrics, recorded: Recorded) returns (field: Option<nat>)
    ensures field.None? <==> forall i :: 0 <= i < FIELDS ==> FieldOf(recorded, i) == Some(remeasured[i])
    ensures field.Some? ==> field.value < FIELDS && FieldOf(recorded, field.value) != Some(remeasured[field.value])
    ensures field.Some? ==> forall i :: 0 <= i < field.value ==> FieldOf(recorded, i) == Some(remeasured[i])
  {
    if recorded.NotAnObject? {
      assert FieldOf(recorded, 0) == None;
      return Some(0);
    }
    for i := 0 to FIELDS
      invariant forall j :: 0 <= j < i ==> FieldOf(recorded, j) == Some(remeasured[j])
    {
      if FieldOf(recorded, i) != Some(remeasured[i]) {
        return Some(i);
      }
    }
    return None;
  }

  datatype FileState = Absent | Unreadable | Bytes(content: seq<byte>)
  datatype Status = Verified | AbsentFile | UnreadableFile | Truncated | PrefixMismatch | MetricsMismatch(field: nat)

  ghost predicate IsVerdict(status: Status, t: Edge, file: FileState, io: Reads, e: BaselineEntry) {
    match file
    case Absent => status == AbsentFile
    case Unreadable => status == UnreadableFile
    case Bytes(g) =>
      if |g| < e.cut.bytes then status == Truncated
      else
        var m := MeasurementOf(t, g[..ReadLength(io, 0, e.cut.bytes)]);
        if m.cut.sha256 != e.cut.sha256 then status == PrefixMismatch
        else if Agrees(m.metrics, e.metrics) then status == Verified
        else && status.MetricsMismatch? && status.field < FIELDS
             && FieldOf(e.metrics, status.field) != Some(m.metrics[status.field])
             && forall i :: 0 <= i < status.field ==> FieldOf(e.metrics, i) == Some(m.metrics[i])
  }

  predicate Agrees(remeasured: Metrics, recorded: Recorded) {
    forall i :: 0 <= i < FIELDS ==> FieldOf(recorded, i) == Some(remeasured[i])
  }

  method VerifyEntry(t: Edge, file: FileState, io: Reads, e: BaselineEntry) returns (status: Status)
    ensures IsVerdict(status, t, file, io, e)
  {
    hide MeasurementOf, ReadLength;
    match file {
      case Absent => status := AbsentFile;
      case Unreadable => status := UnreadableFile;
      case Bytes(g) =>
        if |g| < e.cut.bytes {
          return Truncated;
        }
        var m := MeasureAtCut(t, g, Some(e.cut.bytes), io);
        if m.cut.sha256 != e.cut.sha256 {
          return PrefixMismatch;
        }
        var field := FirstMismatchedMetricField(m.metrics, e.metrics);
        status := if field.Some? then MetricsMismatch(field.value) else Verified;
    }
  }

  ghost predicate IsResult(r: (string, Status), t: Edge, files: string -> FileState, io: string -> Reads, e: BaselineEntry) {
    r.0 == e.sessionId && IsVerdict(r.1, t, files(e.path), io(e.path), e)
  }

  /** One verdict per entry, in order. */
  method VerifyBaseline(t: Edge, files: string -> FileState, io: string -> Reads, entries: seq<BaselineEntry>)
    returns (results: seq<(string, Status)>)
    ensures |results| == |entries|
    ensures forall i :: 0 <= i < |entries| ==> IsResult(results[i], t, files, io, entries[i])
  {
    hide IsVerdict;
    results := [];
    for k := 0 to |entries|
      invariant |results| == k
      invariant forall i :: 0 <= i < k ==> IsResult(results[i], t, files, io, entries[i])
    {
      var status := VerifyEntry(t, files(entries[k].path), io(entries[k].path), entries[k]);
      results := results + [(entries[k].sessionId, status)];
    }
  }

  /** A baseline entry as written from a measurement. */
  function EntryFor(sessionId: string, path: string, m: Measurement): BaselineEntry {
    BaselineEntry(sessionId, path, m.cut, Object(seq(FIELDS, i requires 0 <= i < FIELDS => Some(m.metrics[i]))))
  }

  /** An entry measured on `f`, however its reads were chunked or cut short, is verified against a later file,
      however that is chunked, exactly when the pinned prefix is still there. The hash is only trusted not to
      collide on these two prefixes. */
  lemma VerifiedExactlyWhilePrefixIsKept(t: Edge, f: seq<byte>, requested: Option<int>, ioF: Reads, g: seq<byte>,
                                         ioG: Reads, sessionId: string, path: string, status: Status)
    requires NeverStops(ioG)
    requires var n := ReadLength(ioF, 0, TargetOf(|f|, requested));
      && (n <= |g| && t.sha256(g[..n]) == t.sha256(f[..n]) ==> g[..n] == f[..n])
      && IsVerdict(status, t, Bytes(g), ioG, EntryFor(sessionId, path, MeasurementOf(t, f[..n])))
    ensures var n := ReadLength(ioF, 0, TargetOf(|f|, requested));
      && (status == Verified <==> f[..n] <= g)
      && (status == Truncated <==> |g| < n)
      && (status == PrefixMismatch <==> n <= |g| && g[..n] != f[..n])
  {
    var n := ReadLength(ioF, 0, TargetOf(|f|, requested));
    hide MeasurementOf, ReadLength;
    var e := EntryFor(sessionId, path, MeasurementOf(t, f[..n]));
    MeasuredCut(t, f[..n]);
    if n <= |g| {
      FullRead(ioG, 0, n);
      MeasuredCut(t, g[..n]);
      assert g[..n] == f[..n] ==> Agrees(MeasurementOf(t, f[..n]).metrics, e.metrics);
    }
  }

  lemma MeasuredCut(t: Edge, bytes: seq<byte>)
    ensures MeasurementOf(t, bytes).cut.bytes == |bytes|
    ensures MeasurementOf(t, bytes).cut.sha256 == t.sha256(bytes)
  {
  }

  /** Appending never breaks a pinned entry, whatever the hash does. */
  lemma PinnedCutSurvivesAppends(t: Edge, f: seq<byte>, requested: Option<int>, ioF: Reads, appended: seq<byte>,
                                 ioG: Reads, sessionId: string, path: string, status: Status)
    requires NeverStops(ioG)
    requires IsVerdict(status, t, Bytes(f + appended), ioG,
               EntryFor(sessionId, path, MeasurementOf(t, f[..ReadLength(ioF, 0, TargetOf(|f|, requested))])))
    ensures status == Verified
  {
    var n := ReadLength(ioF, 0, TargetOf(|f|, requested));
    assert (f + appended)[..n] == f[..n];
    VerifiedExactlyWhilePrefixIsKept(t, f, requested, ioF, f + appended, ioG, sessionId, path, status);
  }

  /** Rows once committed stay: a longer cut only adds to what a shorter one measured. */
  lemma CommittedRowsOnlyGrow(t: Edge, a: seq<byte>, b: seq<byte>)
    ensures var before, after := CommittedRows(t, a), CommittedRows(t, a + b);
      before.rows <= after.rows && before.reasons <= after.reasons
      && before.lines <= after.lines && before.skipped <= after.skipped
  {
    hide LinesOf, Rest, DecodeFrom, TallyFrom;
    var (mid, first) := DecodeFrom(t, [], a);
    var more := DecodeFrom(t, mid, b).1;
    DecodeConcat(t, [], a, b);
    LinesConcat(first, more, '\n');
    var known, extra := LinesOf(first, '\n'), LinesOf(Rest(first, '\n') + more, '\n');
    TallyConcat(t, NOTHING, known, extra);
    TallyOnlyGrows(t, TallyFrom(t, NOTHING, known), extra);
  }

  /** The streamed report and the cut over the same bytes differ by the unterminated last line, and only by it. */
  lemma StreamAddsOnlyThePartialLine(t: Edge, bytes: seq<byte>)
    ensures var (pending, text) := DecodeFrom(t, [], bytes);
      var last := Rest(text, '\n') + t.end(pending);
      var streamed := TallyFrom(t, NOTHING, StreamedLines(t, bytes));
      && streamed == (if last == "" then CommittedRows(t, bytes) else Observe(t, CommittedRows(t, bytes), last))
      && (streamed == CommittedRows(t, bytes) <==> last == "")
  {
    hide LinesOf, Rest, DecodeFrom;
    var (pending, text) := DecodeFrom(t, [], bytes);
    var lines, last := LinesOf(text, '\n'), Rest(text, '\n') + t.end(pending);
    assert lines + [] == lines;
    assert (lines + [last])[..|lines|] == lines;
  }

  /** What loading a baseline asks of a cut: positive counts. */
  predicate LoadableCut(cut: CutInfo) {
    cut.lines > 0 && cut.bytes > 0
  }

  /** A measured entry can be loaded again exactly when its window held a complete line. */
  lemma MeasuredEntryLoadsExactlyWithALine(t: Edge, bytes: seq<byte>)
    ensures LoadableCut(MeasurementOf(t, bytes).cut) <==> '\n' in TextOf(t, bytes)
  {
    var text := TextOf(t, bytes);
    TallyOnlyGrows(t, NOTHING, LinesOf(text, '\n'));
    CutAtIndex(text, '\n');
    if '\n' in text {
      assert bytes != [];
    }
  }
}
