/** The ledger over every sequence of reconcile and rule runs. */
module LedgerRuns {
  import opened Collections
  import opened JsMap
  import opened GapIds
  import opened GapEvents
  import opened GapRuling
  import opened GapRegistry

  lemma {:induction false} OpeningsAreOpened(events: seq<GapEvent>, i: nat)
    requires i < |OpenedById(events)|
    ensures exists k :: 0 <= k < |events| && events[k].Opened? && events[k].id == OpenedById(events)[i].key
    decreases |events|
  {
    var n := |events| - 1;
    var before, last := OpenedById(events[..n]), events[n];
    if last.Opened? && Has(before, last.id) {
      var at := SetOfPresentKeyReplaces(before, last.id, last);
    } else if last.Opened? {
      SetOfAbsentKeyAppends(before, last.id, last);
    }
    if i < |before| && before[i].key == OpenedById(events)[i].key {
      OpeningsAreOpened(events[..n], i);
      var k :| 0 <= k < n && events[..n][k].Opened? && events[..n][k].id == before[i].key;
      assert events[k] == events[..n][k];
    } else {
      assert events[n].Opened? && events[n].id == OpenedById(events)[i].key;
    }
  }

  lemma {:induction false} EveryOpenedIdIsAKey(events: seq<GapEvent>, k: nat)
    requires k < |events| && events[k].Opened?
    ensures events[k].id in Keys(OpenedById(events))
    decreases |events|
  {
    var n := |events| - 1;
    var before, last := OpenedById(events[..n]), events[n];
    if k < n {
      EveryOpenedIdIsAKey(events[..n], k);
      assert events[..n][k] == events[k];
      var i :| 0 <= i < |before| && Keys(before)[i] == events[k].id;
      if last.Opened? && Has(before, last.id) {
        var at := SetOfPresentKeyReplaces(before, last.id, last);
      } else if last.Opened? {
        SetOfAbsentKeyAppends(before, last.id, last);
      }
      assert OpenedById(events)[i].key == before[i].key;
      assert Keys(OpenedById(events))[i] == events[k].id;
    } else if Has(before, last.id) {
      var at := SetOfPresentKeyReplaces(before, last.id, last);
      assert Keys(OpenedById(events))[at] == last.id;
    } else {
      SetOfAbsentKeyAppends(before, last.id, last);
      assert Keys(OpenedById(events))[|before|] == last.id;
    }
  }

  /** Known and not ruled. */
  predicate Live(events: seq<GapEvent>, id: string) {
    Latest(events, id).Some? && !Latest(events, id).value.Ruled?
  }

  lemma SeeingKeepsLive(events: seq<GapEvent>, e: GapEvent, id: string)
    requires Live(events, id) && !e.Ruled?
    ensures Live(events + [e], id)
  {
    assert (events + [e])[..|events|] == events;
  }

  ghost predicate AreLiveSights(events: seq<GapEvent>, sights: seq<GapEvent>) {
    forall i :: 0 <= i < |sights| ==> sights[i].Seen? && Live(events, sights[i].id)
  }

  /** Only live gaps are seen again. */
  lemma {:induction false} SeenGapsAreLive(events: seq<GapEvent>, changed: seq<string>, world: World, n: nat, pr: int)
    requires WellFormed(events) && n <= |OpenedById(events)|
    ensures AreLiveSights(events, SeenOf(events, changed, world, OpenedById(events)[..n], pr))
  {
    if n > 0 {
      hide WellFormed, Judge, Live, AreLiveSights, SightOf, OpenedById;
      var entries := OpenedById(events);
      SeenGapsAreLive(events, changed, world, n - 1, pr);
      assert entries[..n][..n - 1] == entries[..n - 1];
      var verdict := Judge(events, changed, world, entries[n - 1].key, entries[n - 1].value);
      if verdict.Fired? {
        FiredEntryIsLive(events, changed, world, n - 1);
      }
      OneMoreSight(events, SeenOf(events, changed, world, entries[..n - 1], pr), verdict, entries[n - 1].key, pr);
    }
  }

  lemma OneMoreSight(events: seq<GapEvent>, sights: seq<GapEvent>, verdict: EntryVerdict, id: string, pr: int)
    requires AreLiveSights(events, sights) && (verdict.Fired? ==> Live(events, id))
    ensures AreLiveSights(events, sights + SightOf(verdict, id, pr))
  {
    hide Live;
  }

  lemma FiredEntryIsLive(events: seq<GapEvent>, changed: seq<string>, world: World, k: nat)
    requires WellFormed(events) && k < |OpenedById(events)|
    requires Judge(events, changed, world, OpenedById(events)[k].key, OpenedById(events)[k].value).Fired?
    ensures Live(events, OpenedById(events)[k].key)
  {
    OpeningsAreOpened(events, k);
    LatestIsAnEvent(events, OpenedById(events)[k].key);
  }

  /** Sights of live gaps fit, one after the other. */
  lemma {:induction false} SightsKeepWellFormed(base: seq<GapEvent>, sights: seq<GapEvent>)
    requires WellFormed(base) && AreLiveSights(base, sights)
    ensures WellFormed(base + sights)
    ensures forall id :: Live(base, id) ==> Live(base + sights, id)
    decreases |sights|
  {
    hide WellFormed;
    if sights == [] {
      assert base + sights == base;
    } else {
      var n := |sights| - 1;
      SightsKeepWellFormed(base, sights[..n]);
      AppendKeepsWellFormed(base + sights[..n], sights[n]);
      AppendIsAssociative(base, sights[..n], [sights[n]]);
      assert sights == sights[..n] + [sights[n]];
      hide Live;
      forall id | Live(base, id) ensures Live(base + sights, id) {
        SeeingKeepsLive(base + sights[..n], sights[n], id);
      }
    }
  }

  ghost predicate OpenedAreKnown(events: seq<GapEvent>, ids: seq<string>) {
    forall k :: 0 <= k < |events| && events[k].Opened? ==> events[k].id in ids
  }

  /** The opened part of a reconciliation fits: each minted number exceeds every one before it. */
  lemma {:induction false} MintingKeepsWellFormed(base: seq<GapEvent>, candidates: seq<Candidate>, fired: Openings,
                                                  ids: seq<string>, pr: int)
    requires WellFormed(base)
    requires OpenedAreKnown(base, ids)
    ensures WellFormed(base + OpenedOf(candidates, fired, ids, pr))
    decreases |candidates|
  {
    hide WellFormed, OpenOne, OpenedAreKnown;
    if candidates == [] {
      assert base + [] == base;
    } else {
      var n := |candidates| - 1;
      MintingKeepsWellFormed(base, candidates[..n], fired, ids, pr);
      OneMintKeepsWellFormed(base, OpenedOf(candidates[..n], fired, ids, pr), candidates[n], fired, ids, pr);
    }
  }

  lemma OneMintKeepsWellFormed(base: seq<GapEvent>, before: seq<GapEvent>, c: Candidate, fired: Openings,
                               ids: seq<string>, pr: int)
    requires OpenedAreKnown(base, ids)
    requires WellFormed(base + before)
    ensures WellFormed(base + OpenOne(before, c, fired, ids, pr))
  {
    hide WellFormed, Fits, Represented, MaxNumber, IdsOf, IdOf, OpenedAreKnown;
    var e := OpeningFor(c, ids + IdsOf(before), pr);
    NextMintFits(base, before, ids, e);
    AppendKeepsWellFormed(base + before, e);
    AppendIsAssociative(base, before, [e]);
  }

  lemma NextMintFits(base: seq<GapEvent>, before: seq<GapEvent>, ids: seq<string>, e: GapEvent)
    requires OpenedAreKnown(base, ids)
    requires WellFormed(base + before)
    requires e.Opened? && e.id == IdOf(MaxNumber(ids + IdsOf(before)) + 1)
    ensures Fits(base + before, e)
  {
    hide IdOf, NumberOf, OpenedBefore;
    var known := ids + IdsOf(before);
    IdReadsBack(MaxNumber(known) + 1);
    var sofar := base + before;
    forall i | 0 <= i < |sofar| && sofar[i].Opened? ensures Minted(sofar[i].id) < Minted(e.id) {
      assert NumberOf(sofar[i].id).Some?;
      hide WellFormed;
      assert i >= |base| ==> IdsOf(before)[i - |base|] == sofar[i].id;
      assert sofar[i].id in known;
    }
  }

  /** One run's writes fit the ledger it has read. */
  lemma ReconcilingKeepsWellFormed(events: seq<GapEvent>, changed: seq<string>, candidates: seq<Candidate>, world: World)
    requires WellFormed(events)
    ensures WellFormed(events + Appended(events, changed, candidates, world))
  {
    LateReconcileFits(events, events, changed, candidates, world);
  }

  // ----- a run that read earlier than it appends

  /** Ids begin at G-001. */
  ghost predicate NumberedFromOne(events: seq<GapEvent>) {
    forall k :: 0 <= k < |events| && events[k].Opened? ==> Minted(events[k].id) >= 1
  }

  /** Nothing was opened after the first `n` events. */
  ghost predicate NoneOpenedSince(events: seq<GapEvent>, n: nat) {
    forall k :: n <= k < |events| ==> !events[k].Opened?
  }

  lemma {:induction false} PrefixIsWellFormed(events: seq<GapEvent>, more: seq<GapEvent>)
    requires WellFormed(events + more)
    ensures WellFormed(events)
  {
    var longer := events + more;
    assert forall k :: 0 <= k < |events| ==> longer[k] == events[k];
    forall k | 0 <= k < |events| && !events[k].Opened? ensures OpenedBefore(events, k, events[k].id) {
      assert OpenedBefore(longer, k, longer[k].id);
      var j :| 0 <= j < k && longer[j].Opened? && longer[j].id == longer[k].id;
      assert events[j].Opened? && events[j].id == events[k].id;
    }
  }

  lemma KnownStaysKnown(read: seq<GapEvent>, now: seq<GapEvent>, id: string)
    requires read <= now && Latest(read, id).Some?
    ensures Latest(now, id).Some?
  {
    LatestIsAnEvent(read, id);
    LatestIsAnEvent(now, id);
    var k :| 0 <= k < |read| && read[k].id == id;
    assert now[k].id == id;
  }

  /** What a reconciliation that read `read` may append to `now`. */
  ghost predicate ReconcileIsHarmless(read: seq<GapEvent>, now: seq<GapEvent>, changed: seq<string>,
                                      candidates: seq<Candidate>, world: World) {
    var pr := CurrentPr(candidates);
    && AreLiveSights(now, SeenOf(read, changed, world, OpenedById(read), pr))
    && (MintedBy(read, changed, candidates, world) == [] || NoneOpenedSince(now, |read|))
  }

  /** The openings of a reconciliation that read `read`. */
  function MintedBy(read: seq<GapEvent>, changed: seq<string>, candidates: seq<Candidate>, world: World): seq<GapEvent> {
    OpenedOf(candidates, FiredOf(read, changed, world, OpenedById(read)), Keys(OpenedById(read)), CurrentPr(candidates))
  }

  lemma AppendedIsSightsAndMints(read: seq<GapEvent>, changed: seq<string>, candidates: seq<Candidate>, world: World)
    ensures Appended(read, changed, candidates, world)
            == SeenOf(read, changed, world, OpenedById(read), CurrentPr(candidates))
               + MintedBy(read, changed, candidates, world)
  {
    hide SeenOf, FiredOf, OpenedOf, OpenedById;
  }

  lemma LateReconcileFits(read: seq<GapEvent>, now: seq<GapEvent>, changed: seq<string>, candidates: seq<Candidate>,
                          world: World)
    requires WellFormed(now) && read <= now
    requires read == now || ReconcileIsHarmless(read, now, changed, candidates, world)
    ensures WellFormed(now + Appended(read, changed, candidates, world))
  {
    var sights := SeenOf(read, changed, world, OpenedById(read), CurrentPr(candidates));
    var mints := MintedBy(read, changed, candidates, world);
    if read == now {
      assert OpenedById(read)[..|OpenedById(read)|] == OpenedById(read);
      SeenGapsAreLive(read, changed, world, |OpenedById(read)|, CurrentPr(candidates));
    }
    hide WellFormed, SeenOf, FiredOf, OpenedOf, OpenedById, Appended, Live;
    AppendedIsSightsAndMints(read, changed, candidates, world);
    SightsKeepWellFormed(now, sights);
    AppendIsAssociative(now, sights, mints);
    if mints == [] {
      assert now + sights + mints == now + sights;
    } else {
      KnownWhenNoneOpened(read, now, sights);
      MintingKeepsWellFormed(now + sights, candidates, FiredOf(read, changed, world, OpenedById(read)),
                             Keys(OpenedById(read)), CurrentPr(candidates));
    }
  }

  lemma KnownWhenNoneOpened(read: seq<GapEvent>, now: seq<GapEvent>, sights: seq<GapEvent>)
    requires read <= now && NoneOpenedSince(now, |read|) && forall i :: 0 <= i < |sights| ==> sights[i].Seen?
    ensures OpenedAreKnown(now + sights, Keys(OpenedById(read)))
  {
    var base := now + sights;
    forall k | 0 <= k < |base| && base[k].Opened? ensures base[k].id in Keys(OpenedById(read)) {
      assert base[k] == now[k] && k < |read| && now[k] == read[k];
      EveryOpenedIdIsAKey(read, k);
    }
  }

  lemma LateReconcileBreaks(read: seq<GapEvent>, now: seq<GapEvent>, changed: seq<string>, candidates: seq<Candidate>,
                            world: World)
    requires WellFormed(now) && NumberedFromOne(now) && read <= now && WellFormed(read)
    requires WellFormed(now + Appended(read, changed, candidates, world))
    ensures ReconcileIsHarmless(read, now, changed, candidates, world)
  {
    assert OpenedById(read)[..|OpenedById(read)|] == OpenedById(read);
    SeenGapsAreLive(read, changed, world, |OpenedById(read)|, CurrentPr(candidates));
    AppendedIsSightsAndMints(read, changed, candidates, world);
    hide *;
    FirstMintOfRun(read, changed, candidates, world);
    LateWritesAreHarmless(read, now, SeenOf(read, changed, world, OpenedById(read), CurrentPr(candidates)),
                          MintedBy(read, changed, candidates, world));
    HarmlessIs(read, now, changed, candidates, world);
  }

  lemma HarmlessIs(read: seq<GapEvent>, now: seq<GapEvent>, changed: seq<string>, candidates: seq<Candidate>, world: World)
    ensures ReconcileIsHarmless(read, now, changed, candidates, world) <==>
              && AreLiveSights(now, SeenOf(read, changed, world, OpenedById(read), CurrentPr(candidates)))
              && (MintedBy(read, changed, candidates, world) == [] || NoneOpenedSince(now, |read|))
  {
  }

  lemma FirstMintOfRun(read: seq<GapEvent>, changed: seq<string>, candidates: seq<Candidate>, world: World)
    ensures var mints := MintedBy(read, changed, candidates, world);
      mints != [] ==> mints[0].Opened? && Minted(mints[0].id) == MaxNumber(Keys(OpenedById(read))) + 1
  {
    hide OpenedById, IdOf, NumberOf, MaxNumber, OpenedOf, FiredOf;
    if MintedBy(read, changed, candidates, world) != [] {
      FirstMintIsNext(candidates, FiredOf(read, changed, world, OpenedById(read)), Keys(OpenedById(read)),
                      CurrentPr(candidates));
      IdReadsBack(MaxNumber(Keys(OpenedById(read))) + 1);
    }
  }

  lemma LateWritesAreHarmless(read: seq<GapEvent>, now: seq<GapEvent>, sights: seq<GapEvent>, mints: seq<GapEvent>)
    requires WellFormed(now) && NumberedFromOne(now) && read <= now
    requires WellFormed(now + (sights + mints)) && AreLiveSights(read, sights)
    requires mints != [] ==> mints[0].Opened? && Minted(mints[0].id) == MaxNumber(Keys(OpenedById(read))) + 1
    ensures AreLiveSights(now, sights) && (mints == [] || NoneOpenedSince(now, |read|))
  {
    hide WellFormed, NumberedFromOne, Live, Minted, MaxNumber, OpenedById, NoneOpenedSince;
    AppendIsAssociative(now, sights, mints);
    forall i | 0 <= i < |sights| ensures Live(now, sights[i].id) {
      SightFollowsNoRuling(read, now, sights, mints, i);
    }
    if mints != [] {
      FirstMintComesAfterAll(read, now, sights, mints);
    }
  }

  lemma SightFollowsNoRuling(read: seq<GapEvent>, now: seq<GapEvent>, sights: seq<GapEvent>, mints: seq<GapEvent>, i: nat)
    requires WellFormed(now) && WellFormed(now + sights + mints) && read <= now
    requires i < |sights| && Live(read, sights[i].id)
    ensures Live(now, sights[i].id)
  {
    var all, id := now + sights + mints, sights[i].id;
    KnownStaysKnown(read, now, id);
    UnruledLatestMeansNoRuling(now, id);
    hide WellFormed;
    assert all[|now| + i] == sights[i] && forall r :: 0 <= r < |now| ==> all[r] == now[r];
    forall r | 0 <= r < |now| && now[r].Ruled? ensures now[r].id != id {
      NothingFollowsARuling(all, r, |now| + i);
    }
  }

  lemma NothingFollowsARuling(events: seq<GapEvent>, r: nat, k: nat)
    requires WellFormed(events) && r < k < |events| && events[r].Ruled?
    ensures events[k].id != events[r].id
  {
  }

  lemma NumbersIncrease(events: seq<GapEvent>, i: nat, j: nat)
    requires WellFormed(events) && i < j < |events| && events[i].Opened? && events[j].Opened?
    ensures Minted(events[i].id) < Minted(events[j].id)
  {
  }

  lemma FirstMintComesAfterAll(read: seq<GapEvent>, now: seq<GapEvent>, sights: seq<GapEvent>, mints: seq<GapEvent>)
    requires WellFormed(now) && NumberedFromOne(now) && read <= now && WellFormed(now + sights + mints)
    requires mints != [] && mints[0].Opened? && Minted(mints[0].id) == MaxNumber(Keys(OpenedById(read))) + 1
    ensures NoneOpenedSince(now, |read|)
  {
    var all, first := now + sights + mints, |now| + |sights|;
    hide WellFormed, NumberedFromOne, OpenedById, Minted, MaxNumber, Keys;
    assert all[first] == mints[0] && forall k :: 0 <= k < |now| ==> all[k] == now[k];
    forall k | |read| <= k < |now| && now[k].Opened? ensures false {
      NumbersIncrease(all, k, first);
      LaterIsAboveMax(read, now, k);
    }
  }

  lemma {:induction false} FirstMintIsNext(candidates: seq<Candidate>, fired: Openings, ids: seq<string>, pr: int)
    requires OpenedOf(candidates, fired, ids, pr) != []
    ensures var first := OpenedOf(candidates, fired, ids, pr)[0];
      first.Opened? && first.id == IdOf(MaxNumber(ids) + 1)
    decreases |candidates|
  {
    hide Represented, MaxNumber, IdOf;
    var n := |candidates| - 1;
    var before := OpenedOf(candidates[..n], fired, ids, pr);
    if before != [] {
      FirstMintIsNext(candidates[..n], fired, ids, pr);
    } else {
      assert ids + IdsOf(before) == ids;
    }
  }

  lemma LaterIsAboveMax(read: seq<GapEvent>, now: seq<GapEvent>, k: nat)
    requires WellFormed(now) && NumberedFromOne(now) && read <= now && |read| <= k < |now| && now[k].Opened?
    ensures Minted(now[k].id) > MaxNumber(Keys(OpenedById(read)))
  {
    var entries := OpenedById(read);
    var ids := Keys(entries);
    var m := MaxNumber(ids);
    if m > 0 {
      var id :| id in ids && NumberOf(id) == Some(m);
      var i :| 0 <= i < |ids| && ids[i] == id;
      OpeningsAreOpened(read, i);
      var j :| 0 <= j < |read| && read[j].Opened? && read[j].id == entries[i].key;
      assert now[j] == read[j] && Minted(now[j].id) == m;
      assert Minted(now[j].id) < Minted(now[k].id);
    }
  }

  // ----- whole runs, and runs that overlap

  datatype Op =
    | ReconcileOp(changed: seq<string>, candidates: seq<Candidate>, world: World)
    | RuleOp(options: RuleOptions, ruleWorld: RuleWorld)

  /** What a run appends when `read` is the ledger it has read. */
  function Addition(read: seq<GapEvent>, op: Op): seq<GapEvent> {
    match op
    case ReconcileOp(changed, candidates, world) => Appended(read, changed, candidates, world)
    case RuleOp(options, ruleWorld) =>
      if Fits(read, RulingOf(options)) && Prerequisites(options, ruleWorld) then [RulingOf(options)] else []
  }

  /** A run of either writer that read the first `readAt` events, or all there were, and appends when it is done. */
  datatype LateRun = LateRun(readAt: nat, op: Op)

  function ReadBy(now: seq<GapEvent>, run: LateRun): (read: seq<GapEvent>)
    ensures read <= now
  {
    if run.readAt < |now| then now[..run.readAt] else now
  }

  /** The ledger after runs that may have overlapped, in the order of their appends. */
  function History(runs: seq<LateRun>): seq<GapEvent> {
    if runs == [] then []
    else
      var n := |runs| - 1;
      AfterRun(History(runs[..n]), runs[n])
  }

  function AfterRun(now: seq<GapEvent>, run: LateRun): seq<GapEvent> {
    now + Addition(ReadBy(now, run), run.op)
  }

  /** Nothing that was appended since the run read the ledger takes away what it relied on. */
  ghost predicate IsHarmless(now: seq<GapEvent>, run: LateRun) {
    match run.op
    case ReconcileOp(changed, candidates, world) =>
      ReconcileIsHarmless(ReadBy(now, run), now, changed, candidates, world)
    case RuleOp(options, _) => Addition(ReadBy(now, run), run.op) == [] || Live(now, options.gap)
  }

  /** One append keeps every gap's life in order exactly when it is harmless. */
  lemma LateRunIsSafeExactlyWhenHarmless(now: seq<GapEvent>, run: LateRun)
    requires WellFormed(now) && NumberedFromOne(now)
    ensures WellFormed(AfterRun(now, run)) <==> IsHarmless(now, run)
  {
    var read := ReadBy(now, run);
    assert now == read + now[|read|..];
    PrefixIsWellFormed(read, now[|read|..]);
    match run.op {
      case ReconcileOp(changed, candidates, world) =>
        hide WellFormed, ReconcileIsHarmless, NumberedFromOne, Appended;
        if ReconcileIsHarmless(read, now, changed, candidates, world) {
          LateReconcileFits(read, now, changed, candidates, world);
        }
        if WellFormed(now + Appended(read, changed, candidates, world)) {
          LateReconcileBreaks(read, now, changed, candidates, world);
        }
      case RuleOp(options, ruleWorld) =>
        hide WellFormed, Prerequisites, NumberedFromOne;
        AppendKeepsWellFormed(now, RulingOf(options));
        assert now + [] == now;
    }
  }

  lemma AdditionsAreNumbered(now: seq<GapEvent>, run: LateRun)
    requires NumberedFromOne(now)
    ensures NumberedFromOne(AfterRun(now, run))
  {
    var read := ReadBy(now, run);
    if run.op.ReconcileOp? {
      var op := run.op;
      AppendedIsSightsAndMints(read, op.changed, op.candidates, op.world);
      SightsOpenNothing(read, op.changed, op.world, OpenedById(read), CurrentPr(op.candidates));
      MintsAreNumbered(op.candidates, FiredOf(read, op.changed, op.world, OpenedById(read)), Keys(OpenedById(read)),
                       CurrentPr(op.candidates));
      hide SeenOf, OpenedOf, FiredOf, OpenedById, Appended, Minted;
    }
  }

  predicate AreSights(events: seq<GapEvent>) {
    forall i :: 0 <= i < |events| ==> events[i].Seen?
  }

  lemma {:induction false} SightsOpenNothing(read: seq<GapEvent>, changed: seq<string>, world: World, entries: Openings, pr: int)
    ensures AreSights(SeenOf(read, changed, world, entries, pr))
    decreases |entries|
  {
    hide Judge;
    if entries != [] {
      hide AreSights, SightOf;
      var n := |entries| - 1;
      SightsOpenNothing(read, changed, world, entries[..n], pr);
      SightIsASight(SeenOf(read, changed, world, entries[..n], pr),
                    Judge(read, changed, world, entries[n].key, entries[n].value), entries[n].key, pr);
    }
  }

  lemma SightIsASight(sights: seq<GapEvent>, verdict: EntryVerdict, id: string, pr: int)
    requires AreSights(sights)
    ensures AreSights(sights + SightOf(verdict, id, pr))
  {
  }

  lemma {:induction false} MintsAreNumbered(candidates: seq<Candidate>, fired: Openings, ids: seq<string>, pr: int)
    ensures NumberedFromOne(OpenedOf(candidates, fired, ids, pr))
  {
    hide Represented, MaxNumber, IdOf, NumberOf;
    if candidates != [] {
      var n := |candidates| - 1;
      MintsAreNumbered(candidates[..n], fired, ids, pr);
      IdReadsBack(MaxNumber(ids + IdsOf(OpenedOf(candidates[..n], fired, ids, pr))) + 1);
    }
  }

  lemma {:induction false} HistoryIsNumbered(runs: seq<LateRun>)
    ensures NumberedFromOne(History(runs))
  {
    if runs != [] {
      hide NumberedFromOne, AfterRun;
      HistoryIsNumbered(runs[..|runs| - 1]);
      AdditionsAreNumbered(History(runs[..|runs| - 1]), runs[|runs| - 1]);
    } else {
      assert History(runs) == [];
    }
  }

  /** Every append of the history was harmless. */
  ghost predicate AllHarmless(runs: seq<LateRun>) {
    forall k :: 0 <= k < |runs| ==> IsHarmless(History(runs[..k]), runs[k])
  }

  lemma HarmlessUpToTheLast(runs: seq<LateRun>)
    requires runs != []
    ensures var n := |runs| - 1;
      AllHarmless(runs) <==> AllHarmless(runs[..n]) && IsHarmless(History(runs[..n]), runs[n])
  {
    hide IsHarmless, History;
    var n := |runs| - 1;
    assert forall k :: 0 <= k < n ==> runs[..n][..k] == runs[..k] && runs[..n][k] == runs[k];
  }

  /** From an empty ledger, over any interleaving of the two writers in which runs may read early and append late,
      every gap's life stays in order exactly when every append was harmless: nothing it saw fire has been ruled
      since, nothing was opened since if it opens anything, and the gap it rules is still unruled. */
  lemma {:induction false} HistoryIsInOrderExactlyWhenHarmless(runs: seq<LateRun>)
    ensures WellFormed(History(runs)) <==> AllHarmless(runs)
    decreases |runs|
  {
    if runs == [] {
      EmptyLedgerIsWellFormed();
    } else {
      hide WellFormed, IsHarmless, AllHarmless, Addition, NumberedFromOne;
      var n := |runs| - 1;
      var now := History(runs[..n]);
      HistoryIsInOrderExactlyWhenHarmless(runs[..n]);
      HarmlessUpToTheLast(runs);
      if WellFormed(History(runs)) {
        PrefixIsWellFormed(now, Addition(ReadBy(now, runs[n]), runs[n].op));
      }
      if WellFormed(now) {
        HistoryIsNumbered(runs[..n]);
        LateRunIsSafeExactlyWhenHarmless(now, runs[n]);
      }
    }
  }

  lemma EmptyLedgerIsWellFormed()
    ensures WellFormed([])
  {
  }

  /** The ledger after one whole run of either writer. */
  function After(events: seq<GapEvent>, op: Op): seq<GapEvent> {
    events + Addition(events, op)
  }

  function Run(ops: seq<Op>): seq<GapEvent> {
    if ops == [] then [] else After(Run(ops[..|ops| - 1]), ops[|ops| - 1])
  }

  lemma RunKeepsWellFormed(events: seq<GapEvent>, op: Op)
    requires WellFormed(events)
    ensures WellFormed(After(events, op))
    ensures events <= After(events, op)
  {
    hide WellFormed, Fits, Appended, Prerequisites;
    match op {
      case ReconcileOp(changed, candidates, world) =>
        ReconcilingKeepsWellFormed(events, changed, candidates, world);
      case RuleOp(options, _) =>
        AppendKeepsWellFormed(events, RulingOf(options));
        assert events + [] == events;
    }
  }

  /** From an empty ledger every sequence of runs, each reading what the one before it left, only appends, and keeps
      every gap's life in order. */
  lemma {:induction false} LedgerStaysWellFormed(ops: seq<Op>, n: nat)
    requires n <= |ops|
    ensures WellFormed(Run(ops))
    ensures Run(ops[..n]) <= Run(ops)
    decreases |ops|
  {
    if ops != [] {
      hide WellFormed, After;
      var init, last := ops[..|ops| - 1], ops[|ops| - 1];
      LedgerStaysWellFormed(init, if n < |ops| then n else 0);
      RunKeepsWellFormed(Run(init), last);
      if n < |ops| {
        assert init[..n] == ops[..n];
      } else {
        assert ops[..n] == ops;
      }
    }
  }

  /** A ruling whose check was made on an older ledger may be appended safely exactly while the gap is still unruled. */
  lemma LateRulingIsSafeExactlyWhileUnruled(ops: seq<Op>, ruling: GapEvent)
    requires ruling.Ruled? && Latest(Run(ops), ruling.id).Some?
    ensures WellFormed(Run(ops) + [ruling]) <==> Live(Run(ops), ruling.id)
  {
    LedgerStaysWellFormed(ops, 0);
    AppendKeepsWellFormed(Run(ops), ruling);
  }

  /** Overlap is a real danger: two reconciliations that both read an empty ledger open two gaps under one id. */
  lemma OverlappingReconcilesMintOneIdTwice(c: Candidate, d: Candidate, world: World)
    ensures var first, second := LateRun(0, ReconcileOp([], [c], world)), LateRun(0, ReconcileOp([], [d], world));
      var ledger := History([first, second]);
      && |ledger| == 2 && ledger[0].Opened? && ledger[1].Opened? && ledger[0].id == ledger[1].id
      && !WellFormed(ledger)
  {
    var first, second := LateRun(0, ReconcileOp([], [c], world)), LateRun(0, ReconcileOp([], [d], world));
    OneCandidateOnEmptyLedger(c, world);
    OneCandidateOnEmptyLedger(d, world);
    TwoRunsFromNothing(first, second);
    hide Appended, History, IdOf;
  }

  /** Two runs that both read the empty ledger write as if each were alone. */
  lemma TwoRunsFromNothing(first: LateRun, second: LateRun)
    requires first.readAt == 0 && second.readAt == 0
    ensures History([first, second]) == Addition([], first.op) + Addition([], second.op)
  {
    hide Addition;
    var none: seq<LateRun> := [];
    assert [first, second][..1] == [first] && [first][..0] == none;
    var a := Addition([], first.op);
    assert ReadBy([], first) == [];
    assert History([first]) == [] + a == a;
    assert a == [] ==> ReadBy(a, second) == [];
    assert ReadBy(a, second) == [];
  }

  lemma OneCandidateOnEmptyLedger(c: Candidate, world: World)
    ensures var added := Appended([], [], [c], world);
      |added| == 1 && added[0].Opened? && added[0].id == IdOf(1)
  {
    var none: seq<GapEvent> := [];
    var entries := OpenedById(none);
    assert [c][..0] == [];
    assert !Represented(c, []);
    assert Keys(entries) + IdsOf(none) == [];
    assert OpenedOf([c], [], [], CurrentPr([c])) == OpenOne([], c, [], [], CurrentPr([c]));
  }
}
