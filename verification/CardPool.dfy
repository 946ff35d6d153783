/** Deadlock-freedom, and what a whole pass of the concurrent card pool keeps
    (runner/core/loop/run-loop.ts). */
module CardPool {
  import opened Collections
  import opened DependencyGraph
  import opened Deadlock
  import opened Blocking
  import opened Campaign

  /** Every `dependsOn` id names a card: the referential check at load. */
  predicate Resolves(g: Graph, st: Statuses) {
    g.Keys == st.Keys && forall id, d :: id in g && d in g[id] ==> d in st
  }

  ghost predicate NothingReady(g: Graph, st: Statuses, io: StateIO, includeEscalated: bool, sequence: seq<string>) {
    forall i :: 0 <= i < |sequence| ==> !Ready(g, st, io, includeEscalated, sequence[i])
  }

  /** An unshipped card that nothing but an unanswered escalation holds back. */
  predicate AwaitsRuling(g: Graph, st: Statuses, io: StateIO, id: string) {
    id in st && st[id] == Escalated && io.fileExists(EscalationFile(id)) && DependenciesShipped(g, st, id)
  }

  ghost predicate SomeUnshipped(st: Statuses) {
    exists id :: id in st && st[id] != Shipped
  }

  /** Among unshipped cards of an acyclic graph some card has every dependency shipped. */
  lemma UnshippedFrontier(g: Graph, st: Statuses) returns (id: string)
    requires !Cyclic(g) && Resolves(g, st) && SomeUnshipped(st)
    ensures id in st && st[id] != Shipped && DependenciesShipped(g, st, id)
  {
    var unshipped := set c | c in st && st[c] != Shipped;
    var some :| some in st && st[some] != Shipped;
    assert some in unshipped;
    if Trapped(g, unshipped) {
      TrapHasCycle(g, unshipped);
    }
    id :| id in unshipped && !PointsInto(g, id, unshipped);
    forall d | d in DependsOn(g, id) ensures d in st && st[d] == Shipped {
      assert Edge(g, id, d);
    }
  }

  /** With every card in the sequence, `done` while work remains means exactly that a human ruling
      is outstanding; `--include-escalated` removes even that. */
  lemma DoneOnlyWhenShippedOrAwaitingRuling(
    g: Graph, st: Statuses, io: StateIO, includeEscalated: bool, sequence: seq<string>)
    requires !Cyclic(g) && Resolves(g, st)
    requires forall id :: id in st ==> id in sequence
    requires NothingReady(g, st, io, includeEscalated, sequence)
    ensures SomeUnshipped(st) <==> !includeEscalated && exists id :: AwaitsRuling(g, st, io, id)
  {
    forall id | id in st ensures !Ready(g, st, io, includeEscalated, id) {
      var i :| 0 <= i < |sequence| && sequence[i] == id;
    }
    if SomeUnshipped(st) {
      var id := UnshippedFrontier(g, st);
      assert AwaitsRuling(g, st, io, id);
    }
  }

  // ----- the pool as a state machine

  /** What a pass is given; `loaded` are the statuses its state was loaded with. */
  datatype Config = Config(
    g: Graph, loaded: Statuses, sequence: seq<string>, limit: Option<nat>, width: nat, includeEscalated: bool)

  /** `attempted` is claimed at selection; `planning` is a claimed card whose planning escalation is
      being written; `handedOut` records the claims in order. */
  datatype Pool = Pool(
    st: Statuses, attempted: set<string>, active: set<string>, planning: Option<string>, worked: nat,
    handedOut: seq<string>)

  datatype Event =
    | FillFoundNothing(io: StateIO)
    | Launch(io: StateIO, cardId: string)
    | ClaimForPlanning(io: StateIO, cardId: string)
    | PlanningEscalated
    | WorkerSetStatus(cardId: string, status: Status)
    | Finish(cardId: string, didWork: bool)

  /** The sequence handed to the selection: what this pass has not attempted yet. */
  function Remaining(sequence: seq<string>, attempted: set<string>): (r: seq<string>)
    ensures forall id :: id in r <==> id in sequence && id !in attempted
  {
    if sequence == [] then []
    else if sequence[0] in attempted then Remaining(sequence[1..], attempted)
    else [sequence[0]] + Remaining(sequence[1..], attempted)
  }

  predicate CanFill(c: Config, p: Pool) {
    p.planning.None? && |p.active| < c.width && (c.limit.Some? ==> p.worked + |p.active| < c.limit.value)
  }

  ghost predicate Selects(c: Config, p: Pool, io: StateIO, id: string) {
    var rest := Remaining(c.sequence, p.attempted);
    exists at: nat :: at < |rest| && rest[at] == id && FirstReady(c.g, p.st, io, c.includeEscalated, rest, at)
  }

  ghost predicate Step(c: Config, p: Pool, e: Event, q: Pool) {
    match e
    case FillFoundNothing(io) =>
      && CanFill(c, p)
      && NothingReady(c.g, p.st, io, c.includeEscalated, Remaining(c.sequence, p.attempted))
      && q == p.(st := TruedUp(c.g, p.st))
    case Launch(io, id) =>
      && CanFill(c, p)
      && Selects(c, p, io, id)
      && q == p.(st := TruedUp(c.g, p.st), attempted := p.attempted + {id}, active := p.active + {id},
                 handedOut := p.handedOut + [id])
    case ClaimForPlanning(io, id) =>
      && CanFill(c, p)
      && Selects(c, p, io, id)
      && q == p.(st := TruedUp(c.g, p.st), attempted := p.attempted + {id}, planning := Some(id),
                 handedOut := p.handedOut + [id])
    case PlanningEscalated =>
      && p.planning.Some?
      && q == p.(st := p.st[p.planning.value := Escalated], planning := None, worked := p.worked + 1)
    case WorkerSetStatus(id, status) =>
      && id in p.active && id in p.st && p.st[id] != Shipped
      && status in {Running, Shipped, Escalated}
      && q == p.(st := p.st[id := status])
    case Finish(id, didWork) =>
      && id in p.active
      && q == p.(active := p.active - {id}, worked := if didWork then p.worked + 1 else p.worked)
  }

  /** The card stands at the `k`-th place of the sequence, is not attempted yet and can progress, and no card before that
      place is such a card. */
  ghost predicate IsNextUp(c: Config, p: Pool, io: StateIO, id: string, k: int) {
    && 0 <= k < |c.sequence| && c.sequence[k] == id && id !in p.attempted
    && Ready(c.g, p.st, io, c.includeEscalated, id)
    && forall j :: 0 <= j < k && c.sequence[j] !in p.attempted ==> !Ready(c.g, p.st, io, c.includeEscalated, c.sequence[j])
  }

  lemma {:induction false} FirstOfTheRest(g: Graph, st: Statuses, io: StateIO, includeEscalated: bool, sequence: seq<string>,
                                          attempted: set<string>) returns (k: nat, at: nat)
    ensures k <= |sequence| && at <= |Remaining(sequence, attempted)|
    ensures k == |sequence| <==> at == |Remaining(sequence, attempted)|
    ensures k < |sequence| ==> sequence[k] == Remaining(sequence, attempted)[at]
    ensures k < |sequence| ==> sequence[k] !in attempted && Ready(g, st, io, includeEscalated, sequence[k])
    ensures forall j :: 0 <= j < k && sequence[j] !in attempted ==> !Ready(g, st, io, includeEscalated, sequence[j])
    ensures forall i :: 0 <= i < at ==> !Ready(g, st, io, includeEscalated, Remaining(sequence, attempted)[i])
  {
    hide Ready;
    k, at := 0, 0;
    if sequence != [] {
      var first, rest := sequence[0], Remaining(sequence[1..], attempted);
      assert Remaining(sequence, attempted) == if first in attempted then rest else [first] + rest;
      hide Remaining;
      if first in attempted {
        k, at := FirstOfTheRest(g, st, io, includeEscalated, sequence[1..], attempted);
        k := k + 1;
      } else if !Ready(g, st, io, includeEscalated, first) {
        k, at := FirstOfTheRest(g, st, io, includeEscalated, sequence[1..], attempted);
        k, at := k + 1, at + 1;
      }
    }
  }

  /** A fill takes the card that is next up, whatever has been attempted before. */
  lemma SelectedIsNextUp(c: Config, p: Pool, io: StateIO, id: string)
    ensures Selects(c, p, io, id) <==> exists k :: IsNextUp(c, p, io, id, k)
  {
    var k, at := FirstOfTheRest(c.g, p.st, io, c.includeEscalated, c.sequence, p.attempted);
    hide Ready, Remaining;
    var rest := Remaining(c.sequence, p.attempted);
    if Selects(c, p, io, id) {
      var at': nat :| at' < |rest| && rest[at'] == id && FirstReady(c.g, p.st, io, c.includeEscalated, rest, at');
      assert at' == at;
      assert IsNextUp(c, p, io, id, k);
    }
    if k' :| IsNextUp(c, p, io, id, k') {
      assert k' == k;
      assert FirstReady(c.g, p.st, io, c.includeEscalated, rest, at);
    }
  }

  /** The pool never holds back: a card is launched or claimed for planning exactly while no planning is under way, fewer
      cards than the width are in flight, the budget leaves room for one more, and a card not attempted yet can progress. */
  lemma FillsExactlyWhenThereIsRoom(c: Config, p: Pool, io: StateIO)
    ensures (exists id, q :: Step(c, p, Launch(io, id), q)) <==>
              && p.planning.None? && |p.active| < c.width && (c.limit.Some? ==> p.worked + |p.active| < c.limit.value)
              && exists id :: id in c.sequence && id !in p.attempted && Ready(c.g, p.st, io, c.includeEscalated, id)
  {
    hide Ready, TruedUp, Selects, Remaining;
    var k, at := FirstOfTheRest(c.g, p.st, io, c.includeEscalated, c.sequence, p.attempted);
    if id, q :| Step(c, p, Launch(io, id), q) {
      SelectedIsNextUp(c, p, io, id);
      var k' :| IsNextUp(c, p, io, id, k');
    }
    if CanFill(c, p) && k < |c.sequence| {
      var id := c.sequence[k];
      assert IsNextUp(c, p, io, id, k);
      SelectedIsNextUp(c, p, io, id);
      assert Step(c, p, Launch(io, id),
                  p.(st := TruedUp(c.g, p.st), attempted := p.attempted + {id}, active := p.active + {id},
                     handedOut := p.handedOut + [id]));
    }
  }

  predicate HasShipped(st: Statuses, id: string) {
    id in st && st[id] == Shipped
  }

  /** Whatever has shipped since `loaded`, its dependencies have shipped. */
  ghost predicate SafeOrderSince(g: Graph, loaded: Statuses, st: Statuses) {
    forall id :: HasShipped(st, id) && !HasShipped(loaded, id) ==> DependenciesShipped(g, st, id)
  }

  /** Whatever has shipped, its dependencies have. */
  ghost predicate SafeOrder(g: Graph, st: Statuses) {
    SafeOrderSince(g, map[], st)
  }

  ghost predicate StillShipped(loaded: Statuses, st: Statuses) {
    forall id :: HasShipped(loaded, id) ==> HasShipped(st, id)
  }

  predicate InFlight(p: Pool, id: string) {
    id in p.active || p.planning == Some(id)
  }

  ghost predicate Sound(c: Config, p: Pool) {
    && Resolves(c.g, p.st)
    && SafeOrderSince(c.g, c.loaded, p.st) && StillShipped(c.loaded, p.st)
    && (forall id :: InFlight(p, id) ==> id in p.attempted && id in p.st && p.st[id] != Blocked)
    && (forall id :: InFlight(p, id) ==> DependenciesShipped(c.g, p.st, id))
    && (p.planning.Some? ==> p.planning.value !in p.active && p.st[p.planning.value] != Shipped)
    && p.attempted == (set id | id in p.handedOut)
    && (forall id :: id in p.attempted ==> id in c.sequence)
    && NoDuplicates(p.handedOut)
    && |p.active| <= c.width
    && (c.limit.Some? ==> p.worked + |p.active| + (if p.planning.Some? then 1 else 0) <= c.limit.value)
  }

  lemma TruingUpKeepsOutcomes(g: Graph, st: Statuses, id: string)
    requires id in st
    ensures TruedUp(g, st)[id] == Shipped <==> st[id] == Shipped
    ensures TruedUp(g, st)[id] == Escalated <==> st[id] == Escalated
    ensures DependenciesShipped(g, st, id) && st[id] != Blocked ==> TruedUp(g, st)[id] == st[id]
  {
    if IsBlocked(g, st, id) {
      BlockedHasParkedDependency(g, st, id);
    }
  }

  lemma TruingUpKeepsShipping(g: Graph, st: Statuses)
    ensures forall id :: HasShipped(TruedUp(g, st), id) <==> HasShipped(st, id)
    ensures forall id :: DependenciesShipped(g, TruedUp(g, st), id) <==> DependenciesShipped(g, st, id)
  {
    forall id | id in st
      ensures TruedUp(g, st)[id] == Shipped <==> st[id] == Shipped
    {
      TruingUpKeepsOutcomes(g, st, id);
    }
    var trued := TruedUp(g, st);
    assert trued.Keys == st.Keys;
    hide TruedUp;
    forall id ensures DependenciesShipped(g, trued, id) <==> DependenciesShipped(g, st, id) {
    }
  }

  /** What the selection of a fill adds to a sound pool. */
  lemma SelectedCardIsClean(c: Config, p: Pool, io: StateIO, id: string)
    requires Sound(c, p) && Selects(c, p, io, id)
    ensures id in c.sequence && id !in p.attempted && !InFlight(p, id)
    ensures id in p.st && DependenciesShipped(c.g, p.st, id)
    ensures TruedUp(c.g, p.st)[id] != Blocked && TruedUp(c.g, p.st)[id] != Shipped
  {
    assert id in Remaining(c.sequence, p.attempted);
    ReadinessIgnoresBlocked(c.g, p.st, io, c.includeEscalated, id);
    TruingUpKeepsOutcomes(c.g, p.st, id);
  }

  /** A fill reconciles the whole state, yet never changes the status of a card in flight. */
  lemma FillLeavesInFlightCardsAlone(c: Config, p: Pool, id: string)
    requires Sound(c, p) && InFlight(p, id)
    ensures TruedUp(c.g, p.st)[id] == p.st[id]
  {
    TruingUpKeepsOutcomes(c.g, p.st, id);
  }

  lemma ShippingMoreKeepsDependencies(g: Graph, st: Statuses, id: string, status: Status)
    requires id in st && st[id] != Shipped && (status == Shipped ==> DependenciesShipped(g, st, id))
    ensures forall c :: HasShipped(st, c) ==> HasShipped(st[id := status], c)
    ensures forall c :: DependenciesShipped(g, st, c) ==> DependenciesShipped(g, st[id := status], c)
    ensures forall loaded :: SafeOrderSince(g, loaded, st) ==> SafeOrderSince(g, loaded, st[id := status])
  {
  }

  lemma TruedPoolIsSound(c: Config, p: Pool)
    requires Sound(c, p)
    ensures Sound(c, p.(st := TruedUp(c.g, p.st)))
  {
    TruingUpKeepsShipping(c.g, p.st);
    forall id | InFlight(p, id) ensures TruedUp(c.g, p.st)[id] == p.st[id] {
      FillLeavesInFlightCardsAlone(c, p, id);
    }
  }

  lemma LaunchKeepsSound(c: Config, p: Pool, id: string)
    requires Sound(c, p) && CanFill(c, p)
    requires id in c.sequence && id !in p.attempted && id in p.st && p.st[id] != Blocked
    requires DependenciesShipped(c.g, p.st, id)
    ensures Sound(c, p.(attempted := p.attempted + {id}, active := p.active + {id}, handedOut := p.handedOut + [id]))
  {
    var q := p.(attempted := p.attempted + {id}, active := p.active + {id}, handedOut := p.handedOut + [id]);
    assert forall x :: InFlight(q, x) <==> InFlight(p, x) || x == id;
    HandedOutGrows(p.handedOut, id);
    assert !InFlight(p, id);
  }

  lemma PlanningClaimKeepsSound(c: Config, p: Pool, id: string)
    requires Sound(c, p) && CanFill(c, p)
    requires id in c.sequence && id !in p.attempted && id in p.st && p.st[id] != Blocked && p.st[id] != Shipped
    requires DependenciesShipped(c.g, p.st, id)
    ensures Sound(c, p.(attempted := p.attempted + {id}, planning := Some(id), handedOut := p.handedOut + [id]))
  {
    var q := p.(attempted := p.attempted + {id}, planning := Some(id), handedOut := p.handedOut + [id]);
    assert forall x :: InFlight(q, x) <==> InFlight(p, x) || x == id;
    HandedOutGrows(p.handedOut, id);
    assert !InFlight(p, id);
  }

  lemma HandedOutGrows(ids: seq<string>, id: string)
    requires NoDuplicates(ids) && id !in ids
    ensures NoDuplicates(ids + [id])
    ensures (set x | x in ids + [id]) == (set x | x in ids) + {id}
  {
  }

  lemma StepKeepsSound(c: Config, p: Pool, e: Event, q: Pool)
    requires Sound(c, p) && Step(c, p, e, q)
    ensures Sound(c, q)
  {
    match e
    case FillFoundNothing(io) =>
      TruedPoolIsSound(c, p);
    case Launch(io, id) =>
      SelectedCardIsClean(c, p, io, id);
      TruedPoolIsSound(c, p);
      TruingUpKeepsShipping(c.g, p.st);
      LaunchKeepsSound(c, p.(st := TruedUp(c.g, p.st)), id);
    case ClaimForPlanning(io, id) =>
      SelectedCardIsClean(c, p, io, id);
      TruedPoolIsSound(c, p);
      TruingUpKeepsShipping(c.g, p.st);
      PlanningClaimKeepsSound(c, p.(st := TruedUp(c.g, p.st)), id);
    case PlanningEscalated =>
      ShippingMoreKeepsDependencies(c.g, p.st, p.planning.value, Escalated);
      assert forall x :: InFlight(q, x) ==> InFlight(p, x);
    case WorkerSetStatus(id, status) =>
      assert InFlight(p, id);
      ShippingMoreKeepsDependencies(c.g, p.st, id, status);
      assert forall x :: InFlight(q, x) <==> InFlight(p, x);
    case Finish(id, didWork) =>
      assert forall x :: InFlight(q, x) ==> InFlight(p, x);
  }

  lemma ShippedStaysShipped(c: Config, p: Pool, e: Event, q: Pool, id: string)
    requires Sound(c, p) && Step(c, p, e, q)
    requires id in p.st && p.st[id] == Shipped
    ensures id in q.st && q.st[id] == Shipped
  {
    TruingUpKeepsOutcomes(c.g, p.st, id);
  }

  ghost predicate IsRun(c: Config, pools: seq<Pool>, events: seq<Event>) {
    && |pools| == |events| + 1
    && forall i :: 0 <= i < |events| ==> Step(c, pools[i], events[i], pools[i + 1])
  }

  /** The start of a pass over any state that passed the load checks. */
  ghost predicate PassStart(c: Config, p: Pool) {
    && Resolves(c.g, p.st) && p.st == c.loaded
    && p.attempted == {} && p.active == {} && p.planning.None? && p.worked == 0 && p.handedOut == []
  }

  lemma {:induction false} EveryReachablePoolIsSound(c: Config, pools: seq<Pool>, events: seq<Event>, i: nat)
    requires IsRun(c, pools, events) && PassStart(c, pools[0]) && i < |pools|
    ensures Sound(c, pools[i])
  {
    if i > 0 {
      EveryReachablePoolIsSound(c, pools, events, i - 1);
      StepKeepsSound(c, pools[i - 1], events[i - 1], pools[i]);
    }
  }

  lemma {:induction false} DuplicateFreeListIsShort(ids: seq<string>, all: seq<string>)
    requires NoDuplicates(ids) && forall id :: id in ids ==> id in all
    ensures |ids| <= |all|
  {
    var room := set id | id in all;
    DuplicateFreeFits(ids, room);
    SetOfSequenceIsSmall(all);
  }

  lemma {:induction false} SetOfSequenceIsSmall(all: seq<string>)
    ensures |set id | id in all| <= |all|
  {
    if all != [] {
      SetOfSequenceIsSmall(all[1..]);
      assert (set id | id in all) == {all[0]} + set id | id in all[1..];
    }
  }

  /** Over every interleaving of fills and workers: whatever the pass ships, it ships after its dependencies; what
      had shipped before stays shipped; no card is handed out twice, the pass claims at most one card per sequence
      entry, and the `--max-cards` budget is never overshot. */
  lemma PassIsSafe(c: Config, pools: seq<Pool>, events: seq<Event>, i: nat)
    requires IsRun(c, pools, events) && PassStart(c, pools[0]) && i < |pools|
    ensures SafeOrderSince(c.g, pools[0].st, pools[i].st) && StillShipped(pools[0].st, pools[i].st)
    ensures NoDuplicates(pools[i].handedOut) && |pools[i].handedOut| <= |c.sequence|
    ensures c.limit.Some? ==> pools[i].worked + |pools[i].active| <= c.limit.value
    ensures |pools[i].active| <= c.width
  {
    EveryReachablePoolIsSound(c, pools, events, i);
    DuplicateFreeListIsShort(pools[i].handedOut, c.sequence);
  }

  /** So a pass keeps a whole campaign in order exactly when it found it in order, as far as the cards it found
      shipped go: what a reset left behind is not repaired, and nothing is added to it. */
  lemma OrderIsKeptExactlyWhereItWas(c: Config, pools: seq<Pool>, events: seq<Event>, i: nat)
    requires IsRun(c, pools, events) && PassStart(c, pools[0]) && i < |pools|
    ensures SafeOrder(c.g, pools[0].st) ==> SafeOrder(c.g, pools[i].st)
    ensures SafeOrder(c.g, pools[i].st) <==>
              forall id :: HasShipped(pools[0].st, id) ==> DependenciesShipped(c.g, pools[i].st, id)
  {
    PassIsSafe(c, pools, events, i);
    var start, st := pools[0].st, pools[i].st;
    if SafeOrder(c.g, start) {
      forall id | HasShipped(start, id) ensures DependenciesShipped(c.g, st, id) {
        assert DependenciesShipped(c.g, start, id);
        forall d | d in DependsOn(c.g, id) ensures HasShipped(st, d) {
          assert HasShipped(start, d);
        }
      }
    }
  }

  /** A card is in flight only while everything it depends on has shipped, so two cards in flight
      depend on each other only when the dependency has already shipped. */
  lemma InFlightCardsAreIndependent(c: Config, pools: seq<Pool>, events: seq<Event>, i: nat, a: string, b: string)
    requires IsRun(c, pools, events) && PassStart(c, pools[0]) && i < |pools|
    requires a in pools[i].active && b in pools[i].active
    ensures Edge(c.g, a, b) ==> b in pools[i].st && pools[i].st[b] == Shipped
  {
    EveryReachablePoolIsSound(c, pools, events, i);
    assert InFlight(pools[i], a);
  }

  /** A pass that ends because a fill found nothing has shipped the whole campaign exactly when every card it
      attempted shipped and no ruling is outstanding. */
  lemma FinishedPassShippedEverything(c: Config, pools: seq<Pool>, events: seq<Event>, io: StateIO)
    requires IsRun(c, pools, events) && PassStart(c, pools[0]) && !Cyclic(c.g)
    requires var last := pools[|events|];
      && NothingReady(c.g, last.st, io, c.includeEscalated, Remaining(c.sequence, last.attempted))
      && (forall id :: id in last.st ==> id in c.sequence)
    ensures var last := pools[|events|];
      (forall id :: id in last.st ==> last.st[id] == Shipped) <==>
        && (forall id :: id in last.attempted ==> HasShipped(last.st, id))
        && (forall id :: id in last.st ==> !AwaitsRuling(c.g, last.st, io, id))
  {
    var last := pools[|events|];
    EveryReachablePoolIsSound(c, pools, events, |events|);
    AttemptedCardsAreKnown(c, pools, events, |events|);
    if (forall id :: id in last.attempted ==> HasShipped(last.st, id)) && SomeUnshipped(last.st) {
      var id := UnshippedFrontier(c.g, last.st);
      assert id in Remaining(c.sequence, last.attempted);
      assert AwaitsRuling(c.g, last.st, io, id);
    }
  }

  lemma {:induction false} AttemptedCardsAreKnown(c: Config, pools: seq<Pool>, events: seq<Event>, i: nat)
    requires IsRun(c, pools, events) && PassStart(c, pools[0]) && i < |pools|
    ensures forall id :: id in pools[i].attempted ==> id in pools[i].st
  {
    if i > 0 {
      AttemptedCardsAreKnown(c, pools, events, i - 1);
      EveryReachablePoolIsSound(c, pools, events, i - 1);
      hide Sound, Step;
      StepKeepsAttemptedKnown(c, pools[i - 1], events[i - 1], pools[i]);
    }
  }

  lemma StepKeepsAttemptedKnown(c: Config, p: Pool, e: Event, q: Pool)
    requires Sound(c, p) && Step(c, p, e, q)
    requires forall id :: id in p.attempted ==> id in p.st
    ensures forall id :: id in q.attempted ==> id in q.st
  {
    StepAttemptsTheSelected(c, p, e, q);
    if e.Launch? || e.ClaimForPlanning? {
      hide Step, Sound;
      SelectedCardIsClean(c, p, e.io, e.cardId);
    }
  }

  lemma StepAttemptsTheSelected(c: Config, p: Pool, e: Event, q: Pool)
    requires Step(c, p, e, q)
    ensures p.st.Keys <= q.st.Keys
    ensures q.attempted == if e.Launch? || e.ClaimForPlanning? then p.attempted + {e.cardId} else p.attempted
    ensures e.Launch? || e.ClaimForPlanning? ==> Selects(c, p, e.io, e.cardId)
  {
    assert TruedUp(c.g, p.st).Keys == p.st.Keys;
    hide Selects, CanFill, Ready, TruedUp, NothingReady;
  }
}
