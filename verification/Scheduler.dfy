/** Card selection (runner/core/state.ts): the derived `blocked` status and the next card. */
module Blocking {
  import opened DependencyGraph

  datatype Status = Staged | Running | Shipped | Escalated | Blocked
  type Statuses = map<string, Status>

  /** Only these cards can be parked by a dependency. The stored `blocked` is never trusted. */
  predicate Parkable(st: Statuses, id: string) {
    id in st && st[id] != Shipped && st[id] != Escalated
  }

  predicate IsEscalated(st: Statuses, id: string) {
    id in st && st[id] == Escalated
  }

  /** A `dependsOn` walk to an escalated card through cards that are neither shipped nor escalated. */
  ghost predicate LeadsToEscalation(g: Graph, st: Statuses, w: seq<string>) {
    && |w| >= 2
    && IsWalk(g, w)
    && IsEscalated(st, w[|w| - 1])
    && forall i :: 0 <= i < |w| - 1 ==> Parkable(st, w[i])
  }

  ghost predicate IsBlocked(g: Graph, st: Statuses, id: string) {
    exists w :: LeadsToEscalation(g, st, w) && w[0] == id
  }

  /** The test of one card in the fixpoint, against the set found so far. */
  predicate ParkedBy(g: Graph, st: Statuses, blocked: set<string>, id: string) {
    exists d :: d in DependsOn(g, id) && (IsEscalated(st, d) || d in blocked)
  }

  lemma ParkedByBlockedIsBlocked(g: Graph, st: Statuses, blocked: set<string>, id: string)
    requires Parkable(st, id) && ParkedBy(g, st, blocked, id)
    requires forall b :: b in blocked ==> IsBlocked(g, st, b)
    ensures IsBlocked(g, st, id)
  {
    var d :| d in DependsOn(g, id) && (IsEscalated(st, d) || d in blocked);
    assert Edge(g, id, d);
    if IsEscalated(st, d) {
      assert LeadsToEscalation(g, st, [id, d]);
    } else {
      var w :| LeadsToEscalation(g, st, w) && w[0] == d;
      var longer := [id] + w;
      forall i | 0 <= i < |longer| - 1 ensures Edge(g, longer[i], longer[i + 1]) && Parkable(st, longer[i]) {
        if i > 0 {
          assert Edge(g, w[i - 1], w[i]);
        }
      }
      assert LeadsToEscalation(g, st, longer);
    }
  }

  /** A set no card can be added to any more. */
  ghost predicate Closed(g: Graph, st: Statuses, blocked: set<string>) {
    forall id :: Parkable(st, id) && ParkedBy(g, st, blocked, id) ==> id in blocked
  }

  lemma {:induction false} ClosedSetHoldsEveryWalk(g: Graph, st: Statuses, blocked: set<string>, w: seq<string>)
    requires Closed(g, st, blocked) && LeadsToEscalation(g, st, w)
    ensures w[0] in blocked
  {
    assert Parkable(st, w[0]) && Edge(g, w[0], w[1]);
    if |w| > 2 {
      forall i | 0 <= i < |w[1..]| - 1 ensures Edge(g, w[1..][i], w[1..][i + 1]) && Parkable(st, w[1..][i]) {
        assert Edge(g, w[i + 1], w[i + 2]) && Parkable(st, w[i + 1]);
      }
      ClosedSetHoldsEveryWalk(g, st, blocked, w[1..]);
    }
    assert ParkedBy(g, st, blocked, w[0]);
  }

  lemma BlockedHasParkedDependency(g: Graph, st: Statuses, id: string)
    requires IsBlocked(g, st, id)
    ensures Parkable(st, id)
    ensures exists d :: Edge(g, id, d) && d in st && st[d] != Shipped
  {
    var w :| LeadsToEscalation(g, st, w) && w[0] == id;
    assert Parkable(st, w[0]) && Edge(g, w[0], w[1]);
    if |w| > 2 {
      assert Parkable(st, w[1]);
    }
  }

  // ----- reconciliation

  function Reconciled(st: Statuses, blocked: set<string>): (r: Statuses) {
    map id | id in st ::
      if id in blocked then Blocked
      else if st[id] == Blocked then Staged
      else st[id]
  }

  /** Reconciling against the computed set does not move the set: blocked cards stay parkable and
      escalations are untouched. */
  lemma ReconcilingKeepsTheBlockedSet(g: Graph, st: Statuses, blocked: set<string>, id: string)
    requires forall b :: b in blocked ==> IsBlocked(g, st, b)
    ensures IsBlocked(g, Reconciled(st, blocked), id) <==> IsBlocked(g, st, id)
  {
    var after := Reconciled(st, blocked);
    forall c | c in blocked ensures Parkable(st, c) {
      BlockedHasParkedDependency(g, st, c);
    }
    assert forall c :: Parkable(after, c) <==> Parkable(st, c);
    assert forall c :: IsEscalated(after, c) <==> IsEscalated(st, c);
    forall w ensures LeadsToEscalation(g, after, w) <==> LeadsToEscalation(g, st, w) {
    }
  }

  lemma ReconcilingIsIdempotent(g: Graph, st: Statuses, blocked: set<string>, again: set<string>)
    requires forall id :: id in blocked <==> IsBlocked(g, st, id)
    requires forall id :: id in again <==> IsBlocked(g, Reconciled(st, blocked), id)
    ensures again == blocked
    ensures Reconciled(Reconciled(st, blocked), again) == Reconciled(st, blocked)
  {
    forall id ensures id in again <==> id in blocked {
      ReconcilingKeepsTheBlockedSet(g, st, blocked, id);
    }
  }

  /** After reconciliation `blocked` is exactly the derived set, and every blocked card waits for a
      card that has not shipped; a card no longer blocked is staged again, and any other keeps its status. */
  lemma ReconciledBlockedIsDerived(g: Graph, st: Statuses, blocked: set<string>, id: string)
    requires forall c :: c in blocked <==> IsBlocked(g, st, c)
    requires id in st
    ensures Reconciled(st, blocked)[id] == Blocked <==> IsBlocked(g, st, id)
    ensures Reconciled(st, blocked)[id] == Blocked ==>
      exists d :: Edge(g, id, d) && d in st && Reconciled(st, blocked)[d] != Shipped
    ensures !IsBlocked(g, st, id) && st[id] == Blocked ==> Reconciled(st, blocked)[id] == Staged
    ensures !IsBlocked(g, st, id) && st[id] != Blocked ==> Reconciled(st, blocked)[id] == st[id]
  {
    if id in blocked {
      BlockedHasParkedDependency(g, st, id);
      var d :| Edge(g, id, d) && d in st && st[d] != Shipped;
      assert Reconciled(st, blocked)[d] != Shipped;
    }
  }
}

/** The in-memory campaign: one mutable `Card` per id, and the algorithms that read and write it. */
module Campaign {
  import opened Collections
  import opened DependencyGraph
  import opened Blocking

  class Card {
    var status: Status
    const dependsOn: seq<string>
    const spec: Option<string>
    const plan: Option<string>

    constructor (status: Status, dependsOn: seq<string>, spec: Option<string>, plan: Option<string>)
      ensures this.status == status && this.dependsOn == dependsOn && this.spec == spec && this.plan == plan
    {
      this.status, this.dependsOn, this.spec, this.plan := status, dependsOn, spec, plan;
    }
  }

  type Cards = map<string, Card>

  /** The parsed JSON object holds a distinct card object under each id. */
  ghost predicate DistinctObjects(cards: Cards) {
    forall a, b :: a in cards && b in cards && a != b ==> cards[a] != cards[b]
  }

  ghost function StatusesOf(cards: Cards): Statuses
    reads cards.Values
  {
    map id | id in cards :: cards[id].status
  }

  function GraphOf(cards: Cards): Graph {
    map id | id in cards :: cards[id].dependsOn
  }

  /** `Object.entries(cards)`: some enumeration of the ids. */
  ghost predicate Enumerates(ids: seq<string>, cards: Cards) {
    forall id :: id in ids <==> id in cards
  }

  /** The fixpoint. For every enumeration order it is exactly the set of cards that reach an
      escalated card. */
  method ComputeBlockedCardIds(cards: Cards, ids: seq<string>) returns (blocked: set<string>)
    requires Enumerates(ids, cards)
    ensures forall id :: id in blocked <==> IsBlocked(GraphOf(cards), StatusesOf(cards), id)
    ensures blocked <= cards.Keys
  {
    ghost var g, st := GraphOf(cards), StatusesOf(cards);
    blocked := {};
    var changed := true;
    while changed
      invariant blocked <= cards.Keys
      invariant forall id :: id in blocked ==> IsBlocked(g, st, id)
      invariant !changed ==> Closed(g, st, blocked)
      decreases cards.Keys - blocked, changed
    {
      changed := false;
      ghost var start := blocked;
      for i := 0 to |ids|
        invariant start <= blocked <= cards.Keys
        invariant forall id :: id in blocked ==> IsBlocked(g, st, id)
        invariant changed <==> start != blocked
        invariant !changed ==> forall k :: 0 <= k < i ==>
          Parkable(st, ids[k]) && ParkedBy(g, st, blocked, ids[k]) ==> ids[k] in blocked
      {
        var cardId := ids[i];
        var card := cards[cardId];
        if cardId in blocked || card.status == Shipped || card.status == Escalated {
          continue;
        }
        var parked :=
          exists d :: d in card.dependsOn && ((d in cards && cards[d].status == Escalated) || d in blocked);
        assert parked == ParkedBy(g, st, blocked, cardId) by {
          assert DependsOn(g, cardId) == card.dependsOn;
        }
        if parked {
          ParkedByBlockedIsBlocked(g, st, blocked, cardId);
          blocked := blocked + {cardId};
          changed := true;
        }
      }
    }
    forall id | IsBlocked(g, st, id) ensures id in blocked {
      var w :| LeadsToEscalation(g, st, w) && w[0] == id;
      ClosedSetHoldsEveryWalk(g, st, blocked, w);
    }
  }

  method ReconcileBlockedStatuses(cards: Cards, ids: seq<string>, blocked: set<string>)
    requires Enumerates(ids, cards) && DistinctObjects(cards)
    modifies cards.Values
    ensures StatusesOf(cards) == Reconciled(old(StatusesOf(cards)), blocked)
  {
    ghost var st := StatusesOf(cards);
    ghost var target := Reconciled(st, blocked);
    for i := 0 to |ids|
      invariant forall id :: id in cards ==> cards[id].status == if id in ids[..i] then target[id] else st[id]
    {
      var card := cards[ids[i]];
      var shouldBeBlocked := ids[i] in blocked;
      assert card.status == target[ids[i]] || card.status == st[ids[i]];
      if shouldBeBlocked && card.status != Blocked {
        card.status := Blocked;
      } else if !shouldBeBlocked && card.status == Blocked {
        card.status := Staged;
      }
      assert card.status == target[ids[i]];
      assert ids[..i + 1] == ids[..i] + [ids[i]];
      hide Reconciled;
    }
    assert ids[..|ids|] == ids;
  }

  // ----- the next card

  datatype FilePath = EscalationFile(cardId: string) | RepoFile(relative: string)
  datatype StateIO = StateIO(fileExists: FilePath -> bool)
  datatype Missing = MissingSpec | MissingPlan
  datatype NextCardResult = Done | PlanningNeeded(cardId: string, missing: seq<Missing>) | NextCard(cardId: string)

  predicate DependenciesShipped(g: Graph, st: Statuses, id: string) {
    forall d :: d in DependsOn(g, id) ==> d in st && st[d] == Shipped
  }

  predicate Answered(st: Statuses, io: StateIO, includeEscalated: bool, id: string)
    requires id in st
  {
    st[id] == Escalated ==> includeEscalated || !io.fileExists(EscalationFile(id))
  }

  /** A card the campaign can progress now, said without the derived `blocked` status. */
  predicate Ready(g: Graph, st: Statuses, io: StateIO, includeEscalated: bool, id: string) {
    && id in st
    && st[id] != Shipped
    && Answered(st, io, includeEscalated, id)
    && DependenciesShipped(g, st, id)
  }

  predicate OnDisk(doc: Option<string>, io: StateIO) {
    doc.Some? && doc.value != "" && io.fileExists(RepoFile(doc.value))
  }

  function MissingDocs(card: Card, io: StateIO): (missing: seq<Missing>)
    ensures MissingSpec in missing <==>
              card.spec.None? || card.spec.value == "" || !io.fileExists(RepoFile(card.spec.value))
    ensures MissingPlan in missing <==>
              card.plan.None? || card.plan.value == "" || !io.fileExists(RepoFile(card.plan.value))
    ensures missing == [] || missing == [MissingSpec] || missing == [MissingPlan] || missing == [MissingSpec, MissingPlan]
  {
    (if OnDisk(card.spec, io) then [] else [MissingSpec]) +
    (if OnDisk(card.plan, io) then [] else [MissingPlan])
  }

  /** The statuses after a reconciliation against the exact blocked set. */
  ghost function TruedUp(g: Graph, st: Statuses): Statuses {
    map id | id in st ::
      if IsBlocked(g, st, id) then Blocked
      else if st[id] == Blocked then Staged
      else st[id]
  }

  /** Reconciling changes no readiness, and a blocked card is never ready. */
  lemma ReadinessIgnoresBlocked(g: Graph, st: Statuses, io: StateIO, includeEscalated: bool, id: string)
    ensures Ready(g, TruedUp(g, st), io, includeEscalated, id) <==> Ready(g, st, io, includeEscalated, id)
    ensures Ready(g, st, io, includeEscalated, id) ==> TruedUp(g, st)[id] != Blocked
  {
    forall c | c in st
      ensures TruedUp(g, st)[c] == Shipped <==> st[c] == Shipped
      ensures TruedUp(g, st)[c] == Escalated <==> st[c] == Escalated
    {
      if IsBlocked(g, st, c) {
        BlockedHasParkedDependency(g, st, c);
      }
    }
    if IsBlocked(g, st, id) {
      BlockedHasParkedDependency(g, st, id);
    }
  }

  predicate FirstReady(g: Graph, st: Statuses, io: StateIO, includeEscalated: bool, sequence: seq<string>, i: nat)
    requires i <= |sequence|
  {
    && (forall j :: 0 <= j < i ==> !Ready(g, st, io, includeEscalated, sequence[j]))
    && (i < |sequence| ==> Ready(g, st, io, includeEscalated, sequence[i]))
  }

  /** The first card of `sequence` that can progress, judged on the statuses as they were given;
      `done` says there is none. Stored statuses are trued up on the way. */
  method SelectNextCard(cards: Cards, ids: seq<string>, sequence: seq<string>, io: StateIO, includeEscalated: bool)
    returns (result: NextCardResult, ghost at: nat)
    requires Enumerates(ids, cards) && DistinctObjects(cards)
    modifies cards.Values
    ensures StatusesOf(cards) == TruedUp(GraphOf(cards), old(StatusesOf(cards)))
    ensures at <= |sequence|
    ensures FirstReady(GraphOf(cards), old(StatusesOf(cards)), io, includeEscalated, sequence, at)
    ensures result.Done? <==> at == |sequence|
    ensures !result.Done? ==> result.cardId == sequence[at]
    ensures result.NextCard? ==> MissingDocs(cards[result.cardId], io) == []
    ensures result.PlanningNeeded? ==> result.missing == MissingDocs(cards[result.cardId], io) != []
  {
    hide TruedUp, Reconciled, IsBlocked, Ready, StatusesOf, GraphOf, MissingDocs, OnDisk;
    ghost var g, st := GraphOf(cards), StatusesOf(cards);
    var blocked := ComputeBlockedCardIds(cards, ids);
    ReconcileBlockedStatuses(cards, ids, blocked);
    ReconciledIsTruedUp(g, st, blocked);
    at := 0;
    for i := 0 to |sequence|
      invariant at == i && StatusesOf(cards) == TruedUp(g, st)
      invariant forall j :: 0 <= j < i ==> !Ready(g, st, io, includeEscalated, sequence[j])
    {
      at := i + 1;
      if sequence[i] !in cards {
        UnknownCardIsNotReady(cards, st, io, includeEscalated, sequence[i]);
        continue;
      }
      var canProgress := CanProgress(cards, sequence[i], io, includeEscalated, st);
      if !canProgress {
        continue;
      }
      at := i;
      var missing := MissingDocs(cards[sequence[i]], io);
      if |missing| > 0 {
        return PlanningNeeded(sequence[i], missing), at;
      }
      return NextCard(sequence[i]), at;
    }
    return Done, at;
  }

  lemma ReconciledIsTruedUp(g: Graph, st: Statuses, blocked: set<string>)
    requires forall id :: id in blocked <==> IsBlocked(g, st, id)
    ensures Reconciled(st, blocked) == TruedUp(g, st)
  {
    hide IsBlocked;
  }

  lemma UnknownCardIsNotReady(cards: Cards, st: Statuses, io: StateIO, includeEscalated: bool, cardId: string)
    requires StatusesOf(cards) == TruedUp(GraphOf(cards), st) && cardId !in cards
    ensures !Ready(GraphOf(cards), st, io, includeEscalated, cardId)
  {
    assert StatusesOf(cards).Keys == st.Keys;
  }

  /** The tests the walk makes of one card, in their order, on the trued-up statuses; `st` are those given. */
  method CanProgress(cards: Cards, cardId: string, io: StateIO, includeEscalated: bool, ghost st: Statuses)
    returns (canProgress: bool)
    requires cardId in cards && StatusesOf(cards) == TruedUp(GraphOf(cards), st)
    ensures canProgress <==> Ready(GraphOf(cards), st, io, includeEscalated, cardId)
  {
    ReadinessIgnoresBlocked(GraphOf(cards), st, io, includeEscalated, cardId);
    ghost var g, trued := GraphOf(cards), StatusesOf(cards);
    hide TruedUp;
    var card := cards[cardId];
    assert card.status == trued[cardId];
    if card.status == Shipped {
      return false;
    }
    if card.status == Escalated && !includeEscalated {
      if io.fileExists(EscalationFile(cardId)) {
        return false;
      }
    }
    if card.status == Blocked {
      return false;
    }
    var hasUnmetDependency := exists d :: d in card.dependsOn && !(d in cards && cards[d].status == Shipped);
    assert hasUnmetDependency == !DependenciesShipped(g, trued, cardId);
    return !hasUnmetDependency;
  }
}
