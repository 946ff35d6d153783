/** The registry file and its two writers (gaps/gap-reconcile.ts, gaps/gap-rule.ts). */
module GapRegistry {
  import opened Collections
  import opened JsMap
  import opened GapIds
  import opened GapEvents
  import opened GapRuling
  import opened Fingerprint

  datatype Candidate = Candidate(category: string, paths: seq<string>, fingerprint: string, hits: int, pr: Option<int>)
  datatype GrepOutcome = GrepOutcome(fired: bool, hits: int)

  /** What running grep on an argument list reports. */
  datatype World = World(grep: seq<string> -> GrepOutcome)

  function NormalizeDir(p: string): string {
    if p != "" && p[|p| - 1] == '/' then p else p + "/"
  }

  predicate PathsOverlap(a: string, b: string) {
    a == b || NormalizeDir(a) <= b || NormalizeDir(b) <= a
  }

  predicate AnyPathOverlap(xs: seq<string>, ys: seq<string>) {
    exists x, y :: x in xs && y in ys && PathsOverlap(x, y)
  }

  function OverlappingChanged(paths: seq<string>, changed: seq<string>): seq<string> {
    if changed == [] then []
    else
      var last := changed[|changed| - 1];
      OverlappingChanged(paths, changed[..|changed| - 1]) + if AnyPathOverlap(paths, [last]) then [last] else []
  }

  function FlagCount(rest: seq<string>): (n: nat)
    ensures n <= |rest|
  {
    if rest != [] && rest[0] != "" && rest[0][0] == '-' then 1 + FlagCount(rest[1..]) else 0
  }

  /** The stored command's flags and pattern over the changed files in scope. */
  function RestrictedArgv(tokens: seq<string>, targets: seq<string>): seq<string>
    requires tokens != []
  {
    var rest := tokens[1..];
    var n := FlagCount(rest);
    ["grep"] + rest[..n] + [if n < |rest| then rest[n] else ""] + targets
  }

  /** What becomes of one opened entry: ruled (and in scope of the change or not), out of scope, its fingerprint
      refused, grepped without a hit, or fired. */
  datatype EntryVerdict = Suppressed(inScope: bool) | OutOfScope | Flagged(reason: Rejection) | Quiet | Fired(hits: int)

  /** One open entry against the change: a ruled gap takes no part at all. */
  function Judge(events: seq<GapEvent>, changed: seq<string>, world: World, id: string, entry: GapEvent): EntryVerdict {
    var latest := Latest(events, id);
    if !entry.Opened? then OutOfScope
    else if latest.Some? && latest.value.Ruled? then Suppressed(AnyPathOverlap(entry.paths, changed))
    else
      var targets := OverlappingChanged(entry.paths, changed);
      if targets == [] then OutOfScope
      else
        var validation := ValidateFingerprint(entry.fingerprint);
        if validation.Rejected? then Flagged(validation.reason)
        else
          var outcome := world.grep(RestrictedArgv(validation.tokens, targets));
          if outcome.fired then Fired(outcome.hits) else Quiet
  }

  type Openings = seq<Entry<string, GapEvent>>

  function FiredOf(events: seq<GapEvent>, changed: seq<string>, world: World, entries: Openings): Openings {
    if entries == [] then []
    else
      var last := entries[|entries| - 1];
      FiredOf(events, changed, world, entries[..|entries| - 1]) +
      if Judge(events, changed, world, last.key, last.value).Fired? then [last] else []
  }

  function SeenOf(events: seq<GapEvent>, changed: seq<string>, world: World, entries: Openings, pr: int): seq<GapEvent> {
    if entries == [] then []
    else
      var n := |entries| - 1;
      SeenOf(events, changed, world, entries[..n], pr)
      + SightOf(Judge(events, changed, world, entries[n].key, entries[n].value), entries[n].key, pr)
  }

  function SightOf(verdict: EntryVerdict, id: string, pr: int): seq<GapEvent> {
    if verdict.Fired? then [Seen(id, pr, verdict.hits)] else []
  }

  /** An entry whose stored command was refused, as reported. */
  datatype Flag = Flag(id: string, reason: Rejection, fingerprint: string)

  /** The entries whose command was refused, in order. */
  function FlagsOf(events: seq<GapEvent>, changed: seq<string>, world: World, entries: Openings): seq<Flag> {
    if entries == [] then []
    else
      var n := |entries| - 1;
      FlagsOf(events, changed, world, entries[..n])
      + FlagOf(Judge(events, changed, world, entries[n].key, entries[n].value), entries[n])
  }

  function FlagOf(verdict: EntryVerdict, entry: Entry<string, GapEvent>): seq<Flag> {
    if verdict.Flagged? && entry.value.Opened? then [Flag(entry.key, verdict.reason, entry.value.fingerprint)] else []
  }

  /** How many ruled gaps the change touches. */
  function SuppressedCount(events: seq<GapEvent>, changed: seq<string>, world: World, entries: Openings): nat {
    if entries == [] then 0
    else
      var n := |entries| - 1;
      SuppressedCount(events, changed, world, entries[..n])
      + if Judge(events, changed, world, entries[n].key, entries[n].value) == Suppressed(true) then 1 else 0
  }

  predicate Represented(c: Candidate, fired: Openings) {
    exists i :: 0 <= i < |fired| && fired[i].value.Opened? && fired[i].value.category == c.category
                && AnyPathOverlap(fired[i].value.paths, c.paths)
  }

  /** The candidates no fired entry represents, opened under fresh ids in order. */
  function OpenedOf(candidates: seq<Candidate>, fired: Openings, ids: seq<string>, pr: int): seq<GapEvent> {
    if candidates == [] then []
    else
      var n := |candidates| - 1;
      OpenOne(OpenedOf(candidates[..n], fired, ids, pr), candidates[n], fired, ids, pr)
  }

  function OpenOne(before: seq<GapEvent>, c: Candidate, fired: Openings, ids: seq<string>, pr: int): seq<GapEvent> {
    if Represented(c, fired) then before else before + [OpeningFor(c, ids + IdsOf(before), pr)]
  }

  /** A candidate's opened event, under the number after the largest known. */
  function OpeningFor(c: Candidate, known: seq<string>, pr: int): (e: GapEvent)
    ensures e.Opened?
  {
    Opened(IdOf(MaxNumber(known) + 1), c.category, c.paths, c.fingerprint, c.hits, pr)
  }

  function IdsOf(events: seq<GapEvent>): (ids: seq<string>)
    ensures |ids| == |events| && forall i :: 0 <= i < |ids| ==> ids[i] == events[i].id
  {
    seq(|events|, i requires 0 <= i < |events| => events[i].id)
  }

  function CurrentPr(candidates: seq<Candidate>): int {
    if candidates == [] then 0
    else if candidates[0].pr.Some? then candidates[0].pr.value
    else CurrentPr(candidates[1..])
  }

  /** Everything one reconciliation appends. */
  function Appended(events: seq<GapEvent>, changed: seq<string>, candidates: seq<Candidate>, world: World): seq<GapEvent> {
    var entries := OpenedById(events);
    var pr := CurrentPr(candidates);
    SeenOf(events, changed, world, entries, pr) +
    OpenedOf(candidates, FiredOf(events, changed, world, entries), Keys(entries), pr)
  }

  class Registry {
    var events: seq<GapEvent>

    constructor ()
      ensures events == []
    {
      events := [];
    }

    method BuildRestrictedArgv(tokens: seq<string>, targets: seq<string>) returns (argv: seq<string>)
      requires tokens != []
      ensures argv == RestrictedArgv(tokens, targets)
    {
      var rest := tokens[1..];
      var flags: seq<string> := [];
      var idx := 0;
      while idx < |rest| && rest[idx] != "" && rest[idx][0] == '-'
        invariant 0 <= idx <= |rest| && flags == rest[..idx]
        invariant FlagCount(rest) == idx + FlagCount(rest[idx..])
      {
        assert rest[idx..][1..] == rest[idx + 1..];
        flags := flags + [rest[idx]];
        idx := idx + 1;
      }
      argv := ["grep"] + flags + [if idx < |rest| then rest[idx] else ""] + targets;
    }

    method JudgeEntry(latestById: map<string, GapEvent>, changed: seq<string>, world: World, id: string, entry: GapEvent)
      returns (verdict: EntryVerdict)
      requires (id in latestById <==> Latest(events, id).Some?) && (id in latestById ==> Latest(events, id) == Some(latestById[id]))
      ensures verdict == Judge(events, changed, world, id, entry)
    {
      if !entry.Opened? {
        return OutOfScope;
      }
      if id in latestById && latestById[id].Ruled? {
        return Suppressed(AnyPathOverlap(entry.paths, changed));
      }
      var targets: seq<string> := [];
      for i := 0 to |changed|
        invariant targets == OverlappingChanged(entry.paths, changed[..i])
      {
        assert changed[..i + 1][..i] == changed[..i];
        if AnyPathOverlap(entry.paths, [changed[i]]) {
          targets := targets + [changed[i]];
        }
      }
      assert changed[..|changed|] == changed;
      if targets == [] {
        return OutOfScope;
      }
      var validation := ValidateFingerprint(entry.fingerprint);
      if validation.Rejected? {
        return Flagged(validation.reason);
      }
      var argv := BuildRestrictedArgv(validation.tokens, targets);
      var outcome := world.grep(argv);
      return if outcome.fired then Fired(outcome.hits) else Quiet;
    }

    method CollectOpenings() returns (openedById: Openings)
      ensures openedById == OpenedById(events)
    {
      openedById := [];
      for i := 0 to |events|
        invariant openedById == OpenedById(events[..i])
      {
        assert events[..i + 1][..i] == events[..i];
        if events[i].Opened? {
          openedById := Set(openedById, events[i].id, events[i]);
        }
      }
      assert events[..|events|] == events;
    }

    /** Runs every open entry in scope; a fired one is seen again, a refused one reported, a ruled one counted. */
    method MatchOpenEntries(openedById: Openings, changed: seq<string>, world: World, pr: int)
      returns (seen: seq<GapEvent>, fired: Openings, flagged: seq<Flag>, suppressedCount: nat)
      ensures seen == SeenOf(events, changed, world, openedById, pr)
      ensures fired == FiredOf(events, changed, world, openedById)
      ensures flagged == FlagsOf(events, changed, world, openedById)
      ensures suppressedCount == SuppressedCount(events, changed, world, openedById)
    {
      hide Judge;
      var latestById := FoldToLatestStatus(events);
      seen, fired, flagged, suppressedCount := [], [], [], 0;
      for i := 0 to |openedById|
        invariant seen == SeenOf(events, changed, world, openedById[..i], pr)
        invariant fired == FiredOf(events, changed, world, openedById[..i])
        invariant flagged == FlagsOf(events, changed, world, openedById[..i])
        invariant suppressedCount == SuppressedCount(events, changed, world, openedById[..i])
      {
        assert openedById[..i + 1][..i] == openedById[..i];
        var id, entry := openedById[i].key, openedById[i].value;
        var verdict := JudgeEntry(latestById, changed, world, id, entry);
        if verdict == Suppressed(true) {
          suppressedCount := suppressedCount + 1;
        }
        flagged := flagged + FlagOf(verdict, openedById[i]);
        if verdict.Fired? {
          seen := seen + [Seen(id, pr, verdict.hits)];
          fired := fired + [openedById[i]];
        }
      }
      assert openedById[..|openedById|] == openedById;
    }

    /** Opens a gap for every candidate no fired entry represents. */
    method MintUnmatched(candidates: seq<Candidate>, fired: Openings, ids: seq<string>, pr: int)
      returns (newly: seq<GapEvent>)
      ensures newly == OpenedOf(candidates, fired, ids, pr)
    {
      hide Represented, MaxNumber, IdOf;
      var allIds := ids;
      newly := [];
      for i := 0 to |candidates|
        invariant newly == OpenedOf(candidates[..i], fired, ids, pr)
        invariant allIds == ids + IdsOf(newly)
      {
        assert candidates[..i + 1][..i] == candidates[..i];
        var c := candidates[i];
        if Represented(c, fired) {
          continue;
        }
        var nextId := MintNextId(allIds);
        var openedEvent := Opened(nextId, c.category, c.paths, c.fingerprint, c.hits, pr);
        AppendIsAssociative(ids, IdsOf(newly), [nextId]);
        assert IdsOf(newly + [openedEvent]) == IdsOf(newly) + [nextId];
        newly := newly + [openedEvent];
        allIds := allIds + [nextId];
      }
      assert candidates[..|candidates|] == candidates;
    }

    method Reconcile(changed: seq<string>, candidates: seq<Candidate>, world: World)
      returns (matched: seq<string>, minted: seq<string>, suppressedCount: nat, flagged: seq<Flag>)
      modifies this
      ensures events == old(events) + Appended(old(events), changed, candidates, world)
      ensures matched + minted == IdsOf(Appended(old(events), changed, candidates, world))
      ensures |matched| == |FiredOf(old(events), changed, world, OpenedById(old(events)))|
      ensures flagged == FlagsOf(old(events), changed, world, OpenedById(old(events)))
      ensures suppressedCount == SuppressedCount(old(events), changed, world, OpenedById(old(events)))
    {
      hide SeenOf, FiredOf, FlagsOf, SuppressedCount, OpenedOf, OpenedById;
      var openedById := CollectOpenings();
      var currentPr := CurrentPr(candidates);
      var seen, fired, flags, count := MatchOpenEntries(openedById, changed, world, currentPr);
      var newly := MintUnmatched(candidates, fired, Keys(openedById), currentPr);
      SeenPerFired(events, changed, world, openedById, currentPr);
      assert IdsOf(seen + newly) == IdsOf(seen) + IdsOf(newly);
      matched, minted, suppressedCount, flagged := IdsOf(seen), IdsOf(newly), count, flags;
      events := events + (seen + newly);
    }

    /** The ruling is appended last, and only when the gap is known and unruled and everything it names checked out;
        any refusal leaves the ledger as it was. */
    method Rule(o: RuleOptions, w: RuleWorld) returns (outcome: RuleOutcome)
      modifies this
      ensures outcome.Recorded? <==> Fits(old(events), RulingOf(o)) && Prerequisites(o, w)
      ensures outcome.Refused? ==> events == old(events)
      ensures outcome.Recorded? ==>
                events == old(events) + [Ruled(o.gap, o.disposition, if o.ref.Some? then o.ref.value else "", o.ratifiedBy)]
      ensures outcome == Refused(NotFound) <==> Latest(old(events), o.gap).None?
      ensures outcome == Refused(AlreadyRuled) <==>
                Latest(old(events), o.gap).Some? && Latest(old(events), o.gap).value.Ruled?
      ensures outcome.Refused? && outcome.reason !in {NotFound, AlreadyRuled} ==> FirstRefusal(o, w) == Some(outcome.reason)
      ensures outcome.Recorded? && o.disposition == Debt ==> outcome.baseline == Some(|DebtGrep(o, w).lines|)
    {
      hide Prerequisites, Latest;
      var status := FoldToLatestStatus(events);
      if o.gap !in status {
        return Refused(NotFound);
      }
      if status[o.gap].Ruled? {
        return Refused(AlreadyRuled);
      }
      var refusal, baseline := CheckPrerequisites(o, w);
      if refusal.Some? {
        return Refused(refusal.value);
      }
      events := events + [RulingOf(o)];
      return Recorded(baseline);
    }
  }

  /** Every fired entry is seen once. */
  lemma {:induction false} SeenPerFired(events: seq<GapEvent>, changed: seq<string>, world: World, entries: Openings, pr: int)
    ensures |SeenOf(events, changed, world, entries, pr)| == |FiredOf(events, changed, world, entries)|
  {
    if entries != [] {
      hide Judge;
      SeenPerFired(events, changed, world, entries[..|entries| - 1], pr);
    }
  }
}
