/** What one reconciliation appends, said of the ledger, the changed files and what grep answers
    (gaps/gap-reconcile.ts, gaps/paths.ts). */
module GapSightings {
  import opened Collections
  import opened JsMap
  import opened GapIds
  import opened GapEvents
  import opened GapRegistry
  import opened Fingerprint

  // ----- the words the results are said in

  /** The `k`-th event opens the gap, and none after it does. */
  ghost predicate OpensAt(events: seq<GapEvent>, id: string, k: int) {
    && 0 <= k < |events| && events[k].Opened? && events[k].id == id
    && forall i :: k < i < |events| && events[i].Opened? ==> events[i].id != id
  }

  ghost predicate IsOpened(events: seq<GapEvent>, id: string, e: GapEvent) {
    exists k :: OpensAt(events, id, k) && events[k] == e
  }

  /** The `j`-th event is the last of the gap. */
  ghost predicate LastAt(events: seq<GapEvent>, id: string, j: int) {
    0 <= j < |events| && events[j].id == id && forall i :: j < i < |events| ==> events[i].id != id
  }

  ghost predicate IsRuled(events: seq<GapEvent>, id: string) {
    exists j :: LastAt(events, id, j) && events[j].Ruled?
  }

  /** The path lies under the directory, however the directory is written. */
  ghost predicate IsUnder(path: string, dir: string) {
    if dir != "" && dir[|dir| - 1] == '/' then dir <= path else dir + "/" <= path
  }

  ghost predicate Overlap(a: string, b: string) {
    a == b || IsUnder(a, b) || IsUnder(b, a)
  }

  ghost predicate TouchesAny(paths: seq<string>, f: string) {
    exists i :: 0 <= i < |paths| && Overlap(paths[i], f)
  }

  /** `at` are the positions, in order, of exactly the changed files that touch the paths. */
  ghost predicate Selects(at: seq<int>, paths: seq<string>, changed: seq<string>) {
    && (forall i :: 0 <= i < |at| ==> 0 <= at[i] < |changed|)
    && (forall i, j :: 0 <= i < j < |at| ==> at[i] < at[j])
    && (forall k :: 0 <= k < |changed| ==> (k in at <==> TouchesAny(paths, changed[k])))
  }

  function FilesAt(at: seq<int>, changed: seq<string>): (files: seq<string>)
    requires forall i :: 0 <= i < |at| ==> 0 <= at[i] < |changed|
    ensures |files| == |at|
  {
    seq(|at|, i requires 0 <= i < |at| => changed[at[i]])
  }

  /** The stored command's flags and pattern, `flags` of its words being flags, over the files. */
  ghost predicate Restricts(argv: seq<string>, tokens: seq<string>, flags: int, files: seq<string>) {
    && 1 <= flags + 1 <= |tokens|
    && (forall i :: 1 <= i <= flags ==> tokens[i] != "" && tokens[i][0] == '-')
    && (flags + 1 < |tokens| ==> tokens[flags + 1] == "" || tokens[flags + 1][0] != '-')
    && argv == ["grep"] + tokens[1..flags + 1] + [if flags + 1 < |tokens| then tokens[flags + 1] else ""] + files
  }

  /** The gap's own grep, on the changed files it concerns, answers this. */
  ghost predicate GrepAnswers(e: GapEvent, changed: seq<string>, world: World, answer: GrepOutcome)
    requires e.Opened?
  {
    exists at, argv, flags ::
      && Selects(at, e.paths, changed) && at != []
      && ValidateFingerprint(e.fingerprint).Valid?
      && Restricts(argv, ValidateFingerprint(e.fingerprint).tokens, flags, FilesAt(at, changed))
      && world.grep(argv) == answer
  }

  /** An open gap whose grep still fires on the change, with so many hits. */
  ghost predicate StillFires(events: seq<GapEvent>, changed: seq<string>, world: World, id: string, e: GapEvent, hits: int) {
    IsOpened(events, id, e) && !IsRuled(events, id) && e.Opened? && GrepAnswers(e, changed, world, GrepOutcome(true, hits))
  }

  // ----- the parts of the registry in these words

  lemma UnderIsPrefix(path: string, dir: string)
    ensures NormalizeDir(dir) <= path <==> IsUnder(path, dir)
  {
  }

  lemma OverlapIs(a: string, b: string)
    ensures PathsOverlap(a, b) <==> Overlap(a, b)
  {
    UnderIsPrefix(a, b);
    UnderIsPrefix(b, a);
  }

  lemma TouchIs(paths: seq<string>, f: string)
    ensures AnyPathOverlap(paths, [f]) <==> TouchesAny(paths, f)
  {
    hide PathsOverlap, Overlap;
    if AnyPathOverlap(paths, [f]) {
      var x, y :| x in paths && y in [f] && PathsOverlap(x, y);
      var i :| 0 <= i < |paths| && paths[i] == x;
      OverlapIs(x, f);
    }
    if TouchesAny(paths, f) {
      var i :| 0 <= i < |paths| && Overlap(paths[i], f);
      OverlapIs(paths[i], f);
      assert paths[i] in paths && f in [f];
    }
  }

  /** The files grep is run on are the selected ones. */
  lemma {:induction false} SelectionExists(paths: seq<string>, changed: seq<string>) returns (at: seq<int>)
    ensures Selects(at, paths, changed) && OverlappingChanged(paths, changed) == FilesAt(at, changed)
    decreases |changed|
  {
    hide AnyPathOverlap, TouchesAny;
    if changed == [] {
      at := [];
    } else {
      var n := |changed| - 1;
      at := SelectionExists(paths, changed[..n]);
      TouchIs(paths, changed[n]);
      assert FilesAt(at, changed) == FilesAt(at, changed[..n]);
      forall k | 0 <= k < n ensures k in at <==> TouchesAny(paths, changed[k]) {
        assert changed[..n][k] == changed[k];
      }
      if TouchesAny(paths, changed[n]) {
        assert FilesAt(at + [n], changed) == FilesAt(at, changed) + [changed[n]];
        assert forall k :: k in at + [n] <==> k in at || k == n;
        at := at + [n];
      }
    }
  }

  lemma {:induction false} IncreasingIsItsSet(a: seq<int>, b: seq<int>)
    requires forall i, j :: 0 <= i < j < |a| ==> a[i] < a[j]
    requires forall i, j :: 0 <= i < j < |b| ==> b[i] < b[j]
    requires forall k :: k in a <==> k in b
    ensures a == b
    decreases |a|
  {
    if a == [] {
      FirstIsIn(b);
    } else {
      assert a[0] in a && a[0] in b && b != [];
      SameFirst(a, b);
      RestOfIncreasing(a);
      RestOfIncreasing(b);
      IncreasingIsItsSet(a[1..], b[1..]);
    }
  }

  lemma FirstIsIn(a: seq<int>)
    ensures a != [] ==> a[0] in a
  {
  }

  lemma RestOfIncreasing(a: seq<int>)
    requires a != [] && forall i, j :: 0 <= i < j < |a| ==> a[i] < a[j]
    ensures forall k :: k in a[1..] <==> k in a && k != a[0]
  {
    assert forall i :: 1 <= i < |a| ==> a[i] == a[1..][i - 1] && a[i] != a[0];
  }

  lemma SameFirst(a: seq<int>, b: seq<int>)
    requires a != [] && b != []
    requires forall i, j :: 0 <= i < j < |a| ==> a[i] < a[j]
    requires forall i, j :: 0 <= i < j < |b| ==> b[i] < b[j]
    requires forall k :: k in a <==> k in b
    ensures a[0] == b[0]
  {
    assert a[0] in a && b[0] in b;
    var i :| 0 <= i < |b| && b[i] == a[0];
    var j :| 0 <= j < |a| && a[j] == b[0];
  }

  lemma SelectionIsUnique(a: seq<int>, b: seq<int>, paths: seq<string>, changed: seq<string>)
    requires Selects(a, paths, changed) && Selects(b, paths, changed)
    ensures a == b
  {
    hide TouchesAny;
    IncreasingIsItsSet(a, b);
  }

  lemma {:induction false} FlagsAreCounted(rest: seq<string>, n: nat)
    requires n <= |rest| && (forall i :: 0 <= i < n ==> rest[i] != "" && rest[i][0] == '-')
    requires n < |rest| ==> rest[n] == "" || rest[n][0] != '-'
    ensures FlagCount(rest) == n
    decreases n
  {
    if n > 0 {
      FlagsAreCounted(rest[1..], n - 1);
    }
  }

  lemma {:induction false} CountedAreFlags(rest: seq<string>)
    ensures forall i :: 0 <= i < FlagCount(rest) ==> rest[i] != "" && rest[i][0] == '-'
    ensures FlagCount(rest) < |rest| ==> rest[FlagCount(rest)] == "" || rest[FlagCount(rest)][0] != '-'
  {
    if rest != [] && rest[0] != "" && rest[0][0] == '-' {
      CountedAreFlags(rest[1..]);
    }
  }

  lemma RestrictedIs(argv: seq<string>, tokens: seq<string>, files: seq<string>)
    requires tokens != []
    ensures argv == RestrictedArgv(tokens, files) <==> exists flags :: Restricts(argv, tokens, flags, files)
  {
    hide FlagCount;
    var rest := tokens[1..];
    var n := FlagCount(rest);
    CountedAreFlags(rest);
    assert forall i :: 0 <= i < |rest| ==> rest[i] == tokens[i + 1];
    assert rest[..n] == tokens[1..n + 1];
    if argv == RestrictedArgv(tokens, files) {
      assert Restricts(argv, tokens, n, files) by {
        forall i | 1 <= i <= n ensures tokens[i] != "" && tokens[i][0] == '-' {
          assert tokens[i] == rest[i - 1];
        }
      }
    }
    if flags :| Restricts(argv, tokens, flags, files) {
      forall i | 0 <= i < flags ensures rest[i] != "" && rest[i][0] == '-' {
        assert tokens[i + 1] == rest[i];
      }
      FlagsAreCounted(rest, flags);
    }
  }

  /** What grep answers is what it answers on the restricted command. */
  lemma GrepAnswersIs(e: GapEvent, changed: seq<string>, world: World, answer: GrepOutcome)
    requires e.Opened?
    ensures GrepAnswers(e, changed, world, answer) <==>
              && OverlappingChanged(e.paths, changed) != [] && ValidateFingerprint(e.fingerprint).Valid?
              && world.grep(RestrictedArgv(ValidateFingerprint(e.fingerprint).tokens, OverlappingChanged(e.paths, changed))) == answer
  {
    hide RestrictedArgv, Restricts, OverlappingChanged, TouchesAny;
    var at := SelectionExists(e.paths, changed);
    var files := OverlappingChanged(e.paths, changed);
    var v := ValidateFingerprint(e.fingerprint);
    assert at == [] <==> files == [] by { FilesAreAsMany(at, e.paths, changed); }
    if GrepAnswers(e, changed, world, answer) {
      var at', argv, flags :| Selects(at', e.paths, changed) && at' != [] && v.Valid?
                               && Restricts(argv, v.tokens, flags, FilesAt(at', changed)) && world.grep(argv) == answer;
      SelectionIsUnique(at, at', e.paths, changed);
      RestrictedIs(argv, v.tokens, files);
    }
    if files != [] && v.Valid? {
      RestrictedIs(RestrictedArgv(v.tokens, files), v.tokens, files);
      var flags :| Restricts(RestrictedArgv(v.tokens, files), v.tokens, flags, files);
    }
  }

  lemma FilesAreAsMany(at: seq<int>, paths: seq<string>, changed: seq<string>)
    requires Selects(at, paths, changed) && OverlappingChanged(paths, changed) == FilesAt(at, changed)
    ensures |at| == |OverlappingChanged(paths, changed)|
  {
  }

  // ----- the ledger in these words

  lemma {:induction false} EntriesAreOpenings(events: seq<GapEvent>)
    ensures Distinct(OpenedById(events))
    ensures forall id, e :: Entry(id, e) in OpenedById(events) <==> IsOpened(events, id, e)
    decreases |events|
  {
    if events != [] {
      hide IsOpened, Distinct;
      var n := |events| - 1;
      var before, last := OpenedById(events[..n]), events[n];
      EntriesAreOpenings(events[..n]);
      forall id, e ensures IsOpened(events, id, e) <==>
                             if last.Opened? && last.id == id then e == last else IsOpened(events[..n], id, e)
      {
        OneMoreOpening(events, id, e);
      }
      if last.Opened? {
        SetIsOneEntry(before, last.id, last);
      }
    } else {
      assert OpenedById(events) == [];
    }
  }

  lemma OneMoreOpening(events: seq<GapEvent>, id: string, e: GapEvent)
    requires events != []
    ensures var n := |events| - 1;
      IsOpened(events, id, e) <==> if events[n].Opened? && events[n].id == id then e == events[n] else IsOpened(events[..n], id, e)
  {
    var n := |events| - 1;
    if events[n].Opened? && events[n].id == id {
      assert OpensAt(events, id, n);
      assert forall k :: OpensAt(events, id, k) ==> k == n;
    } else {
      forall k ensures OpensAt(events, id, k) <==> OpensAt(events[..n], id, k) {
      }
    }
  }

  lemma RuledIs(events: seq<GapEvent>, id: string)
    ensures IsRuled(events, id) <==> Latest(events, id).Some? && Latest(events, id).value.Ruled?
  {
    LatestIsAnEvent(events, id);
    hide Latest;
    if Latest(events, id).Some? {
      var k :| 0 <= k < |events| && events[k] == Latest(events, id).value && events[k].id == id
               && forall i :: k < i < |events| ==> events[i].id != id;
      assert LastAt(events, id, k);
    }
  }

  /** One entry's verdict, in these words. */
  lemma VerdictIs(events: seq<GapEvent>, changed: seq<string>, world: World, id: string, e: GapEvent, hits: int)
    requires IsOpened(events, id, e)
    ensures Judge(events, changed, world, id, e) == Fired(hits) <==> StillFires(events, changed, world, id, e, hits)
    ensures e.Opened?
  {
    RuledIs(events, id);
    GrepAnswersIs(e, changed, world, GrepOutcome(true, hits));
    hide OverlappingChanged, RestrictedArgv, GrepAnswers, Latest, IsRuled;
  }

  // ----- sightings

  lemma {:induction false} SightingsOfEntries(events: seq<GapEvent>, changed: seq<string>, world: World, entries: Openings,
                                              pr: int, id: string, p: int, hits: int)
    ensures Seen(id, p, hits) in SeenOf(events, changed, world, entries, pr) <==>
              p == pr && exists e :: Entry(id, e) in entries && Judge(events, changed, world, id, e) == Fired(hits)
    decreases |entries|
  {
    hide Judge;
    if entries != [] {
      var n := |entries| - 1;
      assert entries == entries[..n] + [entries[n]];
      SightingsOfEntries(events, changed, world, entries[..n], pr, id, p, hits);
    }
  }

  /** A sighting is appended exactly for an open gap whose own grep, its flags and pattern run on the changed files that
      touch its paths, still fires; with the hits grep counted, under the run's PR. */
  lemma SeenExactlyWhenGrepFires(events: seq<GapEvent>, changed: seq<string>, candidates: seq<Candidate>, world: World,
                                 id: string, pr: int, hits: int)
    ensures Seen(id, pr, hits) in Appended(events, changed, candidates, world) <==>
              pr == CurrentPr(candidates) && exists e :: StillFires(events, changed, world, id, e, hits)
  {
    hide Judge, StillFires, SeenOf, OpenedOf, FiredOf, OpenedById, IsOpened;
    var entries := OpenedById(events);
    SightingsOfEntries(events, changed, world, entries, CurrentPr(candidates), id, pr, hits);
    MintsAreOpenings(candidates, FiredOf(events, changed, world, entries), Keys(entries), CurrentPr(candidates));
    EntriesAreOpenings(events);
    forall e | IsOpened(events, id, e)
      ensures Judge(events, changed, world, id, e) == Fired(hits) <==> StillFires(events, changed, world, id, e, hits)
    {
      VerdictIs(events, changed, world, id, e, hits);
    }
    forall e | StillFires(events, changed, world, id, e, hits) ensures IsOpened(events, id, e) {
      FiringIsOpened(events, changed, world, id, e, hits);
    }
  }

  lemma FiringIsOpened(events: seq<GapEvent>, changed: seq<string>, world: World, id: string, e: GapEvent, hits: int)
    requires StillFires(events, changed, world, id, e, hits)
    ensures IsOpened(events, id, e) && e.Opened?
  {
  }

  lemma {:induction false} MintsAreOpenings(candidates: seq<Candidate>, fired: Openings, ids: seq<string>, pr: int)
    ensures forall e :: e in OpenedOf(candidates, fired, ids, pr) ==> e.Opened?
    decreases |candidates|
  {
    if candidates != [] {
      hide Represented, OpeningFor;
      MintsAreOpenings(candidates[..|candidates| - 1], fired, ids, pr);
    }
  }

  /** No gap is seen twice in one run. */
  lemma EachGapIsSeenOnce(events: seq<GapEvent>, changed: seq<string>, world: World, pr: int)
    ensures NoDuplicates(IdsOf(SeenOf(events, changed, world, OpenedById(events), pr)))
  {
    hide OpenedById, SeenOf, IdsOf, IsOpened;
    EntriesAreOpenings(events);
    SightingsFollowEntries(events, changed, world, OpenedById(events), pr);
  }

  lemma {:induction false} SightingsFollowEntries(events: seq<GapEvent>, changed: seq<string>, world: World, entries: Openings, pr: int)
    requires Distinct(entries)
    ensures FollowKeys(IdsOf(SeenOf(events, changed, world, entries, pr)), entries)
    decreases |entries|
  {
    hide Judge, FollowKeys, Distinct;
    if entries != [] {
      var n := |entries| - 1;
      var before := SeenOf(events, changed, world, entries[..n], pr);
      assert Distinct(entries[..n]) by { DistinctPrefix(entries); }
      SightingsFollowEntries(events, changed, world, entries[..n], pr);
      var verdict := Judge(events, changed, world, entries[n].key, entries[n].value);
      hide SeenOf, IdsOf;
      if verdict.Fired? {
        assert IdsOf(before + [Seen(entries[n].key, pr, verdict.hits)]) == IdsOf(before) + [entries[n].key];
      } else {
        assert before + [] == before;
      }
      OneMoreKey(IdsOf(before), entries);
    } else {
      hide Has;
      assert FollowKeys([], entries) by { NothingFollows(entries); }
    }
  }

  /** Keys of the entries, each once. */
  ghost predicate FollowKeys(ids: seq<string>, entries: Openings) {
    NoDuplicates(ids) && forall i :: 0 <= i < |ids| ==> Has(entries, ids[i])
  }

  lemma NothingFollows(entries: Openings)
    ensures FollowKeys([], entries)
  {
  }

  lemma DistinctPrefix(entries: Openings)
    requires Distinct(entries) && entries != []
    ensures Distinct(entries[..|entries| - 1])
  {
  }

  lemma OneMoreKey(ids: seq<string>, entries: Openings)
    requires entries != [] && Distinct(entries) && FollowKeys(ids, entries[..|entries| - 1])
    ensures FollowKeys(ids, entries) && FollowKeys(ids + [entries[|entries| - 1].key], entries)
  {
    var n := |entries| - 1;
    forall i | 0 <= i < |ids| ensures Has(entries, ids[i]) && ids[i] != entries[n].key {
      var j :| 0 <= j < n && entries[..n][j].key == ids[i];
      assert entries[j].key == ids[i];
    }
  }

  // ----- openings

  ghost predicate Shares(xs: seq<string>, ys: seq<string>) {
    exists i, j :: 0 <= i < |xs| && 0 <= j < |ys| && Overlap(xs[i], ys[j])
  }

  /** A gap that still fires has the candidate's category and a path that overlaps one of its. */
  ghost predicate IsCovered(events: seq<GapEvent>, changed: seq<string>, world: World, c: Candidate) {
    exists id, e, hits :: StillFires(events, changed, world, id, e, hits) && e.Opened? && e.category == c.category && Shares(e.paths, c.paths)
  }

  lemma SharesIs(xs: seq<string>, ys: seq<string>)
    ensures AnyPathOverlap(xs, ys) <==> Shares(xs, ys)
  {
    hide PathsOverlap, Overlap;
    forall a, b ensures PathsOverlap(a, b) <==> Overlap(a, b) {
      OverlapIs(a, b);
    }
    if AnyPathOverlap(xs, ys) {
      var x, y :| x in xs && y in ys && PathsOverlap(x, y);
      var i :| 0 <= i < |xs| && xs[i] == x;
      var j :| 0 <= j < |ys| && ys[j] == y;
      assert Overlap(xs[i], ys[j]);
    }
    if Shares(xs, ys) {
      var i, j :| 0 <= i < |xs| && 0 <= j < |ys| && Overlap(xs[i], ys[j]);
      assert PathsOverlap(xs[i], ys[j]) && xs[i] in xs && ys[j] in ys;
    }
  }

  lemma {:induction false} FiredEntries(events: seq<GapEvent>, changed: seq<string>, world: World, entries: Openings, x: Entry<string, GapEvent>)
    ensures x in FiredOf(events, changed, world, entries) <==>
              x in entries && Judge(events, changed, world, x.key, x.value).Fired?
    decreases |entries|
  {
    hide Judge;
    if entries != [] {
      var n := |entries| - 1;
      assert entries == entries[..n] + [entries[n]];
      FiredEntries(events, changed, world, entries[..n], x);
    }
  }

  lemma CoveredIs(events: seq<GapEvent>, changed: seq<string>, world: World, c: Candidate)
    ensures Represented(c, FiredOf(events, changed, world, OpenedById(events))) <==> IsCovered(events, changed, world, c)
  {
    hide Judge, StillFires, OpenedById, FiredOf, AnyPathOverlap, Shares, IsOpened;
    var entries := OpenedById(events);
    var fired := FiredOf(events, changed, world, entries);
    EntriesAreOpenings(events);
    if Represented(c, fired) {
      var i :| 0 <= i < |fired| && fired[i].value.Opened? && fired[i].value.category == c.category
               && AnyPathOverlap(fired[i].value.paths, c.paths);
      var id, e := fired[i].key, fired[i].value;
      assert fired[i] in fired && fired[i] == Entry(id, e);
      FiredEntries(events, changed, world, entries, fired[i]);
      VerdictIs(events, changed, world, id, e, Judge(events, changed, world, id, e).hits);
      SharesIs(e.paths, c.paths);
    }
    if IsCovered(events, changed, world, c) {
      var id, e, hits :| StillFires(events, changed, world, id, e, hits) && e.Opened? && e.category == c.category && Shares(e.paths, c.paths);
      FiringIsOpened(events, changed, world, id, e, hits);
      VerdictIs(events, changed, world, id, e, hits);
      FiredEntries(events, changed, world, entries, Entry(id, e));
      var i :| 0 <= i < |fired| && fired[i] == Entry(id, e);
      SharesIs(e.paths, c.paths);
    }
  }

  /** The candidates no firing gap covers, in order. */
  ghost function Uncovered(events: seq<GapEvent>, changed: seq<string>, world: World, candidates: seq<Candidate>): (cs: seq<Candidate>) {
    if candidates == [] then []
    else
      var n := |candidates| - 1;
      Uncovered(events, changed, world, candidates[..n]) + if IsCovered(events, changed, world, candidates[n]) then [] else [candidates[n]]
  }

  /** `m` is the largest number among the opened gaps, 0 when none has one. */
  ghost predicate IsLargestNumber(events: seq<GapEvent>, m: nat) {
    && (forall k :: 0 <= k < |events| && events[k].Opened? && NumberOf(events[k].id).Some? ==> NumberOf(events[k].id).value <= m)
    && (m == 0 || exists k :: 0 <= k < |events| && events[k].Opened? && NumberOf(events[k].id) == Some(m))
  }

  /** The events that open the candidates, numbered on from `m`. */
  function OpenedFrom(cs: seq<Candidate>, m: nat, pr: int): (es: seq<GapEvent>)
    ensures |es| == |cs|
  {
    seq(|cs|, k requires 0 <= k < |cs| => Opened(IdOf(m + 1 + k), cs[k].category, cs[k].paths, cs[k].fingerprint, cs[k].hits, pr))
  }

  lemma MaxOfOneMore(ids: seq<string>, id: string, m: nat)
    requires MaxNumber(ids) < m && NumberOf(id) == Some(m)
    ensures MaxNumber(ids + [id]) == m
  {
    hide NumberOf;
    assert (ids + [id])[..|ids|] == ids;
  }

  lemma OneMoreOpened(cs: seq<Candidate>, c: Candidate, m: nat, pr: int)
    ensures OpenedFrom(cs + [c], m, pr)
            == OpenedFrom(cs, m, pr) + [Opened(IdOf(m + 1 + |cs|), c.category, c.paths, c.fingerprint, c.hits, pr)]
  {
    hide IdOf;
  }

  lemma {:induction false} NumbersGoOn(ids: seq<string>, cs: seq<Candidate>, pr: int)
    ensures MaxNumber(ids + IdsOf(OpenedFrom(cs, MaxNumber(ids), pr))) == MaxNumber(ids) + |cs|
    decreases |cs|
  {
    hide NumberOf, IdOf, MaxNumber, OpenedFrom;
    var m := MaxNumber(ids);
    if cs == [] {
      assert ids + IdsOf(OpenedFrom(cs, m, pr)) == ids;
    } else {
      var n := |cs| - 1;
      NumbersGoOn(ids, cs[..n], pr);
      assert cs == cs[..n] + [cs[n]];
      OneMoreOpened(cs[..n], cs[n], m, pr);
      var before := IdsOf(OpenedFrom(cs[..n], m, pr));
      assert IdsOf(OpenedFrom(cs, m, pr)) == before + [IdOf(m + 1 + n)];
      AppendIsAssociative(ids, before, [IdOf(m + 1 + n)]);
      IdReadsBack(m + 1 + n);
      MaxOfOneMore(ids + before, IdOf(m + 1 + n), m + 1 + n);
    }
  }

  lemma {:induction false} OpenedAreUncovered(events: seq<GapEvent>, changed: seq<string>, world: World, candidates: seq<Candidate>,
                                              ids: seq<string>, pr: int)
    ensures OpenedOf(candidates, FiredOf(events, changed, world, OpenedById(events)), ids, pr)
            == OpenedFrom(Uncovered(events, changed, world, candidates), MaxNumber(ids), pr)
    decreases |candidates|
  {
    hide FiredOf, OpenedById, Represented, IsCovered, MaxNumber, IdOf, OpenedFrom, OpenOne;
    if candidates == [] {
      assert OpenedFrom([], MaxNumber(ids), pr) == [];
    } else {
      var n := |candidates| - 1;
      OpenedAreUncovered(events, changed, world, candidates[..n], ids, pr);
      CoveredIs(events, changed, world, candidates[n]);
      OneMoreCandidate(Uncovered(events, changed, world, candidates[..n]), candidates[n],
                       FiredOf(events, changed, world, OpenedById(events)), ids, pr);
      assert Uncovered(events, changed, world, candidates[..n]) + [] == Uncovered(events, changed, world, candidates[..n]);
    }
  }

  lemma OneMoreCandidate(u: seq<Candidate>, c: Candidate, fired: Openings, ids: seq<string>, pr: int)
    ensures OpenOne(OpenedFrom(u, MaxNumber(ids), pr), c, fired, ids, pr)
            == OpenedFrom(if Represented(c, fired) then u else u + [c], MaxNumber(ids), pr)
  {
    hide Represented, MaxNumber, IdOf, OpenedFrom, IdsOf;
    var m, before := MaxNumber(ids), OpenedFrom(u, MaxNumber(ids), pr);
    NumbersGoOn(ids, u, pr);
    OneMoreOpened(u, c, m, pr);
    assert MaxNumber(ids + IdsOf(before)) + 1 == m + 1 + |u|;
    if !Represented(c, fired) {
      NextOpening(c, ids + IdsOf(before), pr, m + 1 + |u|);
    }
  }

  lemma NextOpening(c: Candidate, known: seq<string>, pr: int, n: nat)
    requires MaxNumber(known) + 1 == n
    ensures OpeningFor(c, known, pr) == Opened(IdOf(n), c.category, c.paths, c.fingerprint, c.hits, pr)
  {
    hide MaxNumber, IdOf;
  }

  lemma LargestNumber(events: seq<GapEvent>)
    ensures IsLargestNumber(events, MaxNumber(Keys(OpenedById(events))))
  {
    hide MaxNumber, NumberOf, OpenedById;
    var entries := OpenedById(events);
    var ids := Keys(entries);
    var m := MaxNumber(ids);
    EntriesAreOpenings(events);
    forall k | 0 <= k < |events| && events[k].Opened? ensures events[k].id in ids {
      OpeningHasALast(events, events[k].id, k);
      var e :| IsOpened(events, events[k].id, e);
      var i :| 0 <= i < |entries| && entries[i] == Entry(events[k].id, e);
      assert ids[i] == events[k].id;
    }
    if m > 0 {
      var id :| id in ids && NumberOf(id) == Some(m);
      var i :| 0 <= i < |ids| && ids[i] == id;
      assert entries[i] in entries && entries[i] == Entry(id, entries[i].value);
      assert IsOpened(events, id, entries[i].value);
    }
  }

  lemma {:induction false} OpeningHasALast(events: seq<GapEvent>, id: string, k: nat)
    requires k < |events| && events[k].Opened? && events[k].id == id
    ensures exists e :: IsOpened(events, id, e)
    decreases |events|
  {
    hide IsOpened;
    var n := |events| - 1;
    if events[n].Opened? && events[n].id == id {
      OneMoreOpening(events, id, events[n]);
    } else {
      OpeningHasALast(events[..n], id, k);
      var e :| IsOpened(events[..n], id, e);
      OneMoreOpening(events, id, e);
    }
  }

  /** A run appends its sightings and then opens exactly the candidates no firing gap covers, in order, each with its
      own category, paths, fingerprint and hits, numbered on from the largest number there is. */
  lemma OpenedExactlyUnlessCovered(events: seq<GapEvent>, changed: seq<string>, candidates: seq<Candidate>, world: World)
    returns (sightings: seq<GapEvent>, m: nat)
    ensures IsLargestNumber(events, m) && (forall e :: e in sightings ==> e.Seen?) && NoDuplicates(IdsOf(sightings))
    ensures Appended(events, changed, candidates, world)
            == sightings + OpenedFrom(Uncovered(events, changed, world, candidates), m, CurrentPr(candidates))
  {
    hide SeenOf, OpenedOf, FiredOf, OpenedById, MaxNumber, Uncovered, OpenedFrom;
    var entries := OpenedById(events);
    sightings, m := SeenOf(events, changed, world, entries, CurrentPr(candidates)), MaxNumber(Keys(entries));
    LargestNumber(events);
    OpenedAreUncovered(events, changed, world, candidates, Keys(entries), CurrentPr(candidates));
    EachGapIsSeenOnce(events, changed, world, CurrentPr(candidates));
    SightingsAreSeen(events, changed, world, entries, CurrentPr(candidates));
  }

  lemma {:induction false} SightingsAreSeen(events: seq<GapEvent>, changed: seq<string>, world: World, entries: Openings, pr: int)
    ensures forall e :: e in SeenOf(events, changed, world, entries, pr) ==> e.Seen?
    decreases |entries|
  {
    hide Judge;
    if entries != [] {
      SightingsAreSeen(events, changed, world, entries[..|entries| - 1], pr);
    }
  }

  /** The run's PR is that of the first candidate that has one, 0 if none has. */
  lemma {:induction false} PrOfTheFirst(candidates: seq<Candidate>, k: nat)
    requires k <= |candidates| && forall i :: 0 <= i < k ==> candidates[i].pr.None?
    requires k < |candidates| ==> candidates[k].pr.Some?
    ensures CurrentPr(candidates) == if k < |candidates| then candidates[k].pr.value else 0
    decreases k
  {
    if k > 0 {
      PrOfTheFirst(candidates[1..], k - 1);
    }
  }

  // ----- reports

  ghost predicate IsTouched(e: GapEvent, changed: seq<string>)
    requires e.Opened?
  {
    exists k :: 0 <= k < |changed| && TouchesAny(e.paths, changed[k])
  }

  lemma TouchedIs(paths: seq<string>, changed: seq<string>)
    ensures OverlappingChanged(paths, changed) != [] <==> exists k :: 0 <= k < |changed| && TouchesAny(paths, changed[k])
    ensures AnyPathOverlap(paths, changed) <==> exists k :: 0 <= k < |changed| && TouchesAny(paths, changed[k])
  {
    hide TouchesAny, OverlappingChanged, AnyPathOverlap;
    var at := SelectionExists(paths, changed);
    FilesAreAsMany(at, paths, changed);
    if k :| 0 <= k < |changed| && TouchesAny(paths, changed[k]) {
      assert k in at;
    }
    if at != [] {
      assert at[0] in at;
    }
    TouchedByAny(paths, changed);
  }

  lemma TouchedByAny(paths: seq<string>, changed: seq<string>)
    ensures AnyPathOverlap(paths, changed) <==> exists k :: 0 <= k < |changed| && TouchesAny(paths, changed[k])
  {
    hide PathsOverlap;
    if AnyPathOverlap(paths, changed) {
      var x, y :| x in paths && y in changed && PathsOverlap(x, y);
      var k :| 0 <= k < |changed| && changed[k] == y;
      assert y in [y] && AnyPathOverlap(paths, [changed[k]]);
      TouchIs(paths, changed[k]);
    }
    if k :| 0 <= k < |changed| && TouchesAny(paths, changed[k]) {
      TouchIs(paths, changed[k]);
      var x, y :| x in paths && y in [changed[k]] && PathsOverlap(x, y);
      assert y == changed[k] && y in changed;
    }
  }

  lemma {:induction false} FlagsOfEntries(events: seq<GapEvent>, changed: seq<string>, world: World, entries: Openings, f: Flag)
    ensures f in FlagsOf(events, changed, world, entries) <==>
              exists e :: Entry(f.id, e) in entries && e.Opened? && f.fingerprint == e.fingerprint
                          && Judge(events, changed, world, f.id, e) == Flagged(f.reason)
    decreases |entries|
  {
    hide Judge;
    if entries != [] {
      var n := |entries| - 1;
      assert entries == entries[..n] + [entries[n]];
      FlagsOfEntries(events, changed, world, entries[..n], f);
    }
  }

  /** An open gap is reported exactly when the change touches it and its stored command is refused, for that reason; it is
      then never run. */
  lemma FlaggedExactlyWhenRefused(events: seq<GapEvent>, changed: seq<string>, world: World, f: Flag)
    ensures f in FlagsOf(events, changed, world, OpenedById(events)) <==>
              exists e :: IsOpened(events, f.id, e) && !IsRuled(events, f.id) && e.Opened? && IsTouched(e, changed)
                          && f.fingerprint == e.fingerprint && ValidateFingerprint(e.fingerprint) == Rejected(f.reason)
  {
    hide OpenedById, FlagsOf, Judge, IsOpened, IsRuled, IsTouched;
    EntriesAreOpenings(events);
    FlagsOfEntries(events, changed, world, OpenedById(events), f);
    forall e: GapEvent | e.Opened?
      ensures Judge(events, changed, world, f.id, e) == Flagged(f.reason) <==>
                !IsRuled(events, f.id) && IsTouched(e, changed) && ValidateFingerprint(e.fingerprint) == Rejected(f.reason)
    {
      RefusalIs(events, changed, world, f.id, e, f.reason);
    }
  }

  lemma RefusalIs(events: seq<GapEvent>, changed: seq<string>, world: World, id: string, e: GapEvent, reason: Rejection)
    requires e.Opened?
    ensures Judge(events, changed, world, id, e) == Flagged(reason) <==>
              !IsRuled(events, id) && IsTouched(e, changed) && ValidateFingerprint(e.fingerprint) == Rejected(reason)
    ensures Judge(events, changed, world, id, e) == Suppressed(true) <==> IsRuled(events, id) && IsTouched(e, changed)
  {
    RuledIs(events, id);
    TouchedIs(e.paths, changed);
    hide OverlappingChanged, RestrictedArgv, Latest, IsRuled, AnyPathOverlap, TouchesAny;
  }

  /** The ruled gaps the change touches. */
  ghost function Hushed(events: seq<GapEvent>, changed: seq<string>, entries: Openings): (ids: set<string>) {
    set i | 0 <= i < |entries| && entries[i].value.Opened? && IsRuled(events, entries[i].key) && IsTouched(entries[i].value, changed)
      :: entries[i].key
  }

  /** The count is the number of ruled gaps the change touches. */
  lemma {:induction false} SuppressedAreCounted(events: seq<GapEvent>, changed: seq<string>, world: World, entries: Openings)
    requires Distinct(entries) && forall i :: 0 <= i < |entries| ==> entries[i].value.Opened?
    ensures SuppressedCount(events, changed, world, entries) == |Hushed(events, changed, entries)|
    decreases |entries|
  {
    hide Judge, IsRuled, IsTouched, Hushed;
    if entries != [] {
      var n := |entries| - 1;
      SuppressedAreCounted(events, changed, world, entries[..n]);
      RefusalIs(events, changed, world, entries[n].key, entries[n].value, NotOneGrep);
      OneMoreHushed(events, changed, entries);
    } else {
      assert Hushed(events, changed, entries) == {} by { NoneHushed(events, changed); }
    }
  }

  lemma NoneHushed(events: seq<GapEvent>, changed: seq<string>)
    ensures Hushed(events, changed, []) == {}
  {
  }

  lemma OneMoreHushed(events: seq<GapEvent>, changed: seq<string>, entries: Openings)
    requires entries != [] && Distinct(entries) && entries[|entries| - 1].value.Opened?
    ensures var n := |entries| - 1;
      var before := Hushed(events, changed, entries[..n]);
      entries[n].key !in before && Hushed(events, changed, entries) ==
        if IsRuled(events, entries[n].key) && IsTouched(entries[n].value, changed) then before + {entries[n].key} else before
  {
    hide IsRuled, IsTouched;
    var n := |entries| - 1;
    assert forall i :: 0 <= i < n ==> entries[..n][i] == entries[i];
    var before, all := Hushed(events, changed, entries[..n]), Hushed(events, changed, entries);
    forall id | id in all && id != entries[n].key ensures id in before {
      var i :| 0 <= i < |entries| && entries[i].value.Opened? && IsRuled(events, entries[i].key)
               && IsTouched(entries[i].value, changed) && entries[i].key == id;
      assert entries[..n][i] == entries[i];
    }
    forall id | id in before ensures id in all {
      var i :| 0 <= i < n && entries[..n][i].value.Opened? && IsRuled(events, entries[..n][i].key)
               && IsTouched(entries[..n][i].value, changed) && entries[..n][i].key == id;
      assert entries[i] == entries[..n][i];
    }
  }

  /** In the whole run it counts each ruled gap once. */
  lemma SuppressedInARun(events: seq<GapEvent>, changed: seq<string>, world: World) returns (ids: set<string>)
    ensures SuppressedCount(events, changed, world, OpenedById(events)) == |ids|
    ensures forall id :: id in ids <==> IsRuled(events, id) && exists e :: IsOpened(events, id, e) && e.Opened? && IsTouched(e, changed)
  {
    hide OpenedById, SuppressedCount, IsRuled, IsTouched;
    var entries := OpenedById(events);
    EntriesAreOpenings(events);
    forall i | 0 <= i < |entries| ensures IsOpened(events, entries[i].key, entries[i].value) && entries[i].value.Opened? {
      assert entries[i] in entries && entries[i] == Entry(entries[i].key, entries[i].value);
    }
    hide IsOpened;
    SuppressedAreCounted(events, changed, world, entries);
    ids := Hushed(events, changed, entries);
    forall id, e | IsRuled(events, id) && IsOpened(events, id, e) && e.Opened? && IsTouched(e, changed) ensures id in ids {
      assert Entry(id, e) in entries;
      var i :| 0 <= i < |entries| && entries[i] == Entry(id, e);
    }
  }
}
