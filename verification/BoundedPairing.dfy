/** The bounded pending map against the ideal, unbounded one. */
module BoundedPairing {
  import opened Collections
  import opened JsMap
  import opened Nodes
  import opened CompletedTool
  import opened Pairing

  /** What the bounded map has lost of the ideal one. */
  function Evicted(ideal: Pendings, bounded: Pendings): Pendings
    requires IsSuffix(bounded, ideal)
  {
    ideal[..|ideal| - |bounded|]
  }

  function CallId(s: Setup, c: RenderNode): Option<string> {
    if c.Tool? then c.toolUseId else None
  }

  /** A call reuses the id of a call that is still outstanding but was evicted. */
  predicate StaleReuse(s: Setup, ideal: Pendings, bounded: Pendings, c: RenderNode)
    requires IsSuffix(bounded, ideal)
  {
    CallId(s, c).Some? && Has(Evicted(ideal, bounded), CallId(s, c).value)
  }

  ghost predicate InStep(ideal: Pendings, bounded: Pendings, cap: nat) {
    IsSuffix(bounded, ideal) && Distinct(ideal) && |bounded| <= cap
  }

  /** Same outcome, or the ideal pairs a result whose call was evicted and the bounded map leaves it an
      orphan. */
  predicate Weaker(bounded: Outcome, ideal: Outcome, c: RenderNode) {
    bounded == ideal || (ideal.Patched? && c.OrphanResult? && bounded == Emitted(c))
  }

  lemma SplitIdeal(ideal: Pendings, bounded: Pendings, k: string)
    requires IsSuffix(bounded, ideal) && Distinct(ideal)
    ensures ideal == Evicted(ideal, bounded) + bounded
    ensures Has(ideal, k) <==> Has(Evicted(ideal, bounded), k) || Has(bounded, k)
    ensures !(Has(Evicted(ideal, bounded), k) && Has(bounded, k))
    ensures Distinct(bounded)
  {
    var e := Evicted(ideal, bounded);
    assert ideal == e + bounded;
    HasConcat(e, bounded, k);
    forall i, j | 0 <= i < |e| && 0 <= j < |bounded| ensures e[i].key != bounded[j].key {
      assert ideal[i].key != ideal[|e| + j].key;
    }
    forall i, j | 0 <= i < j < |bounded| ensures bounded[i].key != bounded[j].key {
      assert ideal[|e| + i].key != ideal[|e| + j].key;
    }
  }

  lemma SuffixOfSuffix(e: Pendings, b: Pendings, cap: nat)
    ensures IsSuffix(Bounded(b, Some(cap)), e + b)
  {
    var r := Bounded(b, Some(cap));
    assert (e + b)[|e + b| - |r|..] == b[|b| - |r|..];
  }

  lemma CallKeepsStep(s: Setup, cap: nat, ideal: Pendings, bounded: Pendings, id: string, v: PendingCall)
    requires InStep(ideal, bounded, cap) && !Has(Evicted(ideal, bounded), id)
    ensures InStep(Set(ideal, id, v), Bounded(Set(bounded, id, v), Some(cap)), cap)
  {
    var e := Evicted(ideal, bounded);
    SplitIdeal(ideal, bounded, id);
    SetInTail(e, bounded, id, v);
    SetKeepsDistinct(ideal, id, v);
    SuffixOfSuffix(e, Set(bounded, id, v), cap);
  }

  lemma ResultKeepsStep(cap: nat, ideal: Pendings, bounded: Pendings, id: string)
    requires InStep(ideal, bounded, cap)
    ensures InStep(Delete(ideal, id), Delete(bounded, id), cap)
    ensures Has(bounded, id) ==> Get(ideal, id) == Get(bounded, id)
    ensures Has(bounded, id) ==> Has(ideal, id)
  {
    var e := Evicted(ideal, bounded);
    SplitIdeal(ideal, bounded, id);
    DeleteKeepsDistinct(ideal, id);
    DeleteKeepsDistinct(bounded, id);
    GetInConcat(e, bounded, id);
    if Has(e, id) {
      DeleteInHead(e, bounded, id);
      DeleteOfAbsentKey(bounded, id);
      assert (Delete(e, id) + bounded)[|Delete(e, id)|..] == bounded;
    } else {
      DeleteInTail(e, bounded, id);
      assert (e + Delete(bounded, id))[|e|..] == Delete(bounded, id);
    }
  }

  /** One candidate, no stale reuse: the bounded map stays a suffix of the ideal one, and the outcome is
      the ideal's unless the call was evicted. */
  lemma StepSimulates(s: Setup, cap: nat, ideal: Pendings, bounded: Pendings, c: RenderNode)
    requires InStep(ideal, bounded, cap) && !StaleReuse(s, ideal, bounded, c)
    ensures InStep(PairOne(s, None, ideal, c).0, PairOne(s, Some(cap), bounded, c).0, cap)
    ensures Weaker(PairOne(s, Some(cap), bounded, c).1, PairOne(s, None, ideal, c).1, c)
  {
    match c
    case Tool(_, _, _, _, _, _, _, id, _, _, _) =>
      if id.Some? {
        var node := WithAgentId(c, s.taskAgentIds);
        CallKeepsStep(s, cap, ideal, bounded, id.value, PendingOf(node));
      }
    case OrphanResult(_, _, _, id, _, _) =>
      ResultKeepsStep(cap, ideal, bounded, id);
      DeleteOfAbsentKeys(ideal, bounded, id);
      if !Has(bounded, id) && Has(ideal, id) {
        assert PairOne(s, None, ideal, c).1.Patched?;
      }
    case OtherNode(_, _, _, _) =>
  }

  lemma DeleteOfAbsentKeys(ideal: Pendings, bounded: Pendings, id: string)
    ensures !Has(ideal, id) ==> Delete(ideal, id) == ideal
    ensures !Has(bounded, id) ==> Delete(bounded, id) == bounded
  {
    if !Has(ideal, id) {
      DeleteOfAbsentKey(ideal, id);
    }
    if !Has(bounded, id) {
      DeleteOfAbsentKey(bounded, id);
    }
  }

  lemma DifferentLastIsNoSuffix(tail: Pendings, whole: Pendings)
    requires tail != [] && whole != [] && tail[|tail| - 1] != whole[|whole| - 1]
    ensures !IsSuffix(tail, whole)
  {
    if |tail| <= |whole| {
      assert whole[|whole| - |tail|..][|tail| - 1] == whole[|whole| - 1];
    }
  }

  /** The suffix relation survives a call exactly when the call is no stale reuse, up to one corner: the
      bounded map is empty and the reused call is the newest outstanding one. */
  lemma SuffixSurvivesExactlyFreshCalls(s: Setup, cap: nat, ideal: Pendings, bounded: Pendings, c: RenderNode)
    requires InStep(ideal, bounded, cap) && cap >= 1 && CallId(s, c).Some?
    ensures IsSuffix(PairOne(s, Some(cap), bounded, c).0, PairOne(s, None, ideal, c).0) <==>
            (StaleReuse(s, ideal, bounded, c) ==> bounded == [] && ideal[|ideal| - 1].key == CallId(s, c).value)
  {
    var id := CallId(s, c).value;
    var v := PendingOf(WithAgentId(c, s.taskAgentIds));
    if StaleReuse(s, ideal, bounded, c) {
      var e := Evicted(ideal, bounded);
      SplitIdeal(ideal, bounded, id);
      SetInHead(e, bounded, id, v);
      SetOfAbsentKeyAppends(bounded, id, v);
      var at := SetOfPresentKeyReplaces(e, id, v);
      var after, kept := Set(e, id, v) + bounded, Bounded(bounded + [Entry(id, v)], Some(cap));
      assert kept[|kept| - 1] == Entry(id, v);
      if bounded == [] {
        assert kept == [Entry(id, v)];
        assert after == e[at := Entry(id, v)] && ideal == e;
        if ideal[|ideal| - 1].key == id {
          assert at == |e| - 1;
          assert after[|after| - 1..] == kept;
        } else {
          DifferentLastIsNoSuffix(kept, after);
        }
      } else {
        assert after[|after| - 1] == bounded[|bounded| - 1];
        DifferentLastIsNoSuffix(kept, after);
      }
    } else {
      StepSimulates(s, cap, ideal, bounded, c);
    }
  }

  lemma InStepIsSuffix(ideal: Pendings, bounded: Pendings, cap: nat)
    requires InStep(ideal, bounded, cap)
    ensures IsSuffix(bounded, ideal)
  {
  }

  ghost predicate FreshAt(s: Setup, cap: nat, p: Pendings, cs: seq<RenderNode>, n: nat)
    requires n < |cs|
  {
    var ideal := PairAll(s, None, p, cs[..n]).0;
    var bounded := PairAll(s, Some(cap), p, cs[..n]).0;
    IsSuffix(bounded, ideal) ==> !StaleReuse(s, ideal, bounded, cs[n])
  }

  ghost predicate NeverStale(s: Setup, cap: nat, p: Pendings, cs: seq<RenderNode>) {
    forall n :: 0 <= n < |cs| ==> FreshAt(s, cap, p, cs, n)
  }

  /** Over any stream without stale reuse the bounded map is always a suffix of the ideal map. */
  lemma {:induction false} BoundedSimulatesIdeal(s: Setup, cap: nat, p: Pendings, cs: seq<RenderNode>)
    requires InStep(p, p, cap) && NeverStale(s, cap, p, cs)
    ensures InStep(PairAll(s, None, p, cs).0, PairAll(s, Some(cap), p, cs).0, cap)
    decreases |cs|
  {
    if cs != [] {
      hide PairOne, StaleReuse, InStep, Weaker;
      var n := |cs| - 1;
      var init := cs[..n];
      forall k | 0 <= k < n ensures FreshAt(s, cap, p, init, k) {
        assert init[..k] == cs[..k] && init[k] == cs[k];
        assert FreshAt(s, cap, p, cs, k);
      }
      BoundedSimulatesIdeal(s, cap, p, init);
      assert FreshAt(s, cap, p, cs, n);
      InStepIsSuffix(PairAll(s, None, p, init).0, PairAll(s, Some(cap), p, init).0, cap);
      StepSimulates(s, cap, PairAll(s, None, p, init).0, PairAll(s, Some(cap), p, init).0, cs[n]);
    }
  }

  // ----- patches, whatever the stream

  /** Every key the bounded map holds has the ideal map's value. */
  ghost predicate Within(bounded: Pendings, ideal: Pendings) {
    && Distinct(bounded) && Distinct(ideal)
    && forall k :: Get(bounded, k).Some? ==> Get(ideal, k) == Get(bounded, k)
  }

  lemma EvictionStaysWithin(grown: Pendings, ideal: Pendings, cap: nat)
    requires Within(grown, ideal)
    ensures Within(Bounded(grown, Some(cap)), ideal)
  {
    var kept := Bounded(grown, Some(cap));
    var n := |grown| - |kept|;
    assert forall i :: 0 <= i < |kept| ==> kept[i] == grown[n + i];
    hide Bounded;
    forall k | Get(kept, k).Some? ensures Get(ideal, k) == Get(kept, k) {
      var i :| 0 <= i < |kept| && kept[i] == Entry(k, Get(kept, k).value);
      GetIsTheEntry(grown, n + i);
    }
  }

  lemma CallStaysWithin(bounded: Pendings, ideal: Pendings, id: string, v: PendingCall)
    requires Within(bounded, ideal)
    ensures Within(Set(bounded, id, v), Set(ideal, id, v))
  {
    hide Get, Set;
    SetKeepsDistinct(bounded, id, v);
    SetKeepsDistinct(ideal, id, v);
    forall k | Get(Set(bounded, id, v), k).Some? ensures Get(Set(ideal, id, v), k) == Get(Set(bounded, id, v), k) {
      GetAfterSet(bounded, id, v, k);
      GetAfterSet(ideal, id, v, k);
    }
  }

  lemma ResultStaysWithin(bounded: Pendings, ideal: Pendings, id: string)
    requires Within(bounded, ideal)
    ensures Within(Delete(bounded, id), Delete(ideal, id))
  {
    hide Get, Delete;
    DeleteKeepsDistinct(bounded, id);
    DeleteKeepsDistinct(ideal, id);
    forall k | Get(Delete(bounded, id), k).Some? ensures Get(Delete(ideal, id), k) == Get(Delete(bounded, id), k) {
      GetAfterDelete(bounded, id, k);
      GetAfterDelete(ideal, id, k);
    }
  }

  /** Any candidate at all, a stale reuse included: the maps still agree where the bounded one answers, and so the
      outcome is the ideal's, or an orphan the ideal pairs. */
  lemma StepIsIdealOrAnOrphan(s: Setup, cap: nat, bounded: Pendings, ideal: Pendings, c: RenderNode)
    requires Within(bounded, ideal)
    ensures Within(PairOne(s, Some(cap), bounded, c).0, PairOne(s, None, ideal, c).0)
    ensures Weaker(PairOne(s, Some(cap), bounded, c).1, PairOne(s, None, ideal, c).1, c)
  {
    hide Set, Delete, Get, PendingOf, Completed, Bounded;
    match c
    case Tool(_, _, _, _, _, _, _, id, _, _, _) =>
      if id.Some? {
        var v := PendingOf(WithAgentId(c, s.taskAgentIds));
        CallStaysWithin(bounded, ideal, id.value, v);
        EvictionStaysWithin(Set(bounded, id.value, v), Set(ideal, id.value, v), cap);
        assert Bounded(Set(ideal, id.value, v), None) == Set(ideal, id.value, v) by { UnboundedKeepsAll(Set(ideal, id.value, v)); }
      }
    case OrphanResult(_, _, _, id, _, _) =>
      ResultStaysWithin(bounded, ideal, id);
      DeleteOfAbsentKeys(ideal, bounded, id);
    case OtherNode(_, _, _, _) =>
  }

  lemma UnboundedKeepsAll(p: Pendings)
    ensures Bounded(p, None) == p
  {
  }

  /** Over every stream and under every cap, each outcome is the ideal's, or an orphan left by an eviction. */
  lemma {:induction false} EveryOutcomeIsIdealOrAnOrphan(s: Setup, cap: nat, p: Pendings, cs: seq<RenderNode>)
    requires Distinct(p)
    ensures Within(PairAll(s, Some(cap), p, cs).0, PairAll(s, None, p, cs).0)
    ensures forall j :: 0 <= j < |cs| ==> Weaker(PairAll(s, Some(cap), p, cs).1[j], PairAll(s, None, p, cs).1[j], cs[j])
    decreases |cs|
  {
    if cs != [] {
      hide PairOne, Within, Weaker;
      var n := |cs| - 1;
      EveryOutcomeIsIdealOrAnOrphan(s, cap, p, cs[..n]);
      StepIsIdealOrAnOrphan(s, cap, PairAll(s, Some(cap), p, cs[..n]).0, PairAll(s, None, p, cs[..n]).0, cs[n]);
    }
  }

  /** So the bounded machine never sends a patch the ideal one would not. */
  lemma {:induction false} EveryPatchIsIdeal(s: Setup, cap: nat, p: Pendings, cs: seq<RenderNode>)
    requires Distinct(p)
    ensures forall q :: q in PatchesOf(PairAll(s, Some(cap), p, cs).1) ==> q in PatchesOf(PairAll(s, None, p, cs).1)
    decreases |cs|
  {
    if cs != [] {
      hide PairOne, Within, PatchesOf;
      var n := |cs| - 1;
      var bounded, ideal := PairAll(s, Some(cap), p, cs[..n]), PairAll(s, None, p, cs[..n]);
      EveryPatchIsIdeal(s, cap, p, cs[..n]);
      EveryOutcomeIsIdealOrAnOrphan(s, cap, p, cs[..n]);
      StepIsIdealOrAnOrphan(s, cap, bounded.0, ideal.0, cs[n]);
      OutcomesAppend(bounded.1, PairOne(s, Some(cap), bounded.0, cs[n]).1);
      OutcomesAppend(ideal.1, PairOne(s, None, ideal.0, cs[n]).1);
    }
  }

  /** While no more than `cap` calls are outstanding the two are the same machine. */
  lemma {:induction false} NothingEvictedWhileWithinCap(s: Setup, cap: nat, p: Pendings, cs: seq<RenderNode>)
    requires forall n :: 0 <= n <= |cs| ==> |PairAll(s, None, p, cs[..n]).0| <= cap
    ensures PairAll(s, Some(cap), p, cs) == PairAll(s, None, p, cs)
    decreases |cs|
  {
    if cs != [] {
      var init := cs[..|cs| - 1];
      forall k | 0 <= k <= |init| ensures init[..k] == cs[..k] {
      }
      NothingEvictedWhileWithinCap(s, cap, p, init);
      assert cs[..|cs|] == cs;
    }
  }

  /** Calls with ids that are new to the stream. */
  ghost predicate FreshCallIds(s: Setup, p: Pendings, cs: seq<RenderNode>) {
    && (forall i, j :: 0 <= i < j < |cs| && CallId(s, cs[i]).Some? ==> CallId(s, cs[i]) != CallId(s, cs[j]))
    && (forall j :: 0 <= j < |cs| && CallId(s, cs[j]).Some? ==> !Has(p, CallId(s, cs[j]).value))
  }

  lemma {:induction false} UncalledIsNotOutstanding(s: Setup, p: Pendings, cs: seq<RenderNode>, id: string)
    requires Distinct(p) && !Has(p, id) && forall i :: 0 <= i < |cs| ==> CallId(s, cs[i]) != Some(id)
    ensures !Has(PairAll(s, None, p, cs).0, id)
    decreases |cs|
  {
    if cs != [] {
      hide PairOne, Has, CallId, Distinct;
      var n := |cs| - 1;
      UncalledIsNotOutstanding(s, p, cs[..n], id);
      IdealStaysDistinct(s, p, cs[..n]);
      IdealStep(s, PairAll(s, None, p, cs[..n]).0, cs[n]);
    }
  }

  /** What one candidate does to the unbounded map: distinct keys stay so, and only its own call is new. */
  lemma IdealStep(s: Setup, p: Pendings, c: RenderNode)
    requires Distinct(p)
    ensures Distinct(PairOne(s, None, p, c).0)
    ensures forall id :: CallId(s, c) != Some(id) && !Has(p, id) ==> !Has(PairOne(s, None, p, c).0, id)
  {
    hide Set, Delete, Get, PendingOf, Completed;
    match c
    case Tool(_, _, _, _, _, _, _, call, _, _, _) =>
      if call.Some? {
        SetKeepsDistinct(p, call.value, PendingOf(WithAgentId(c, s.taskAgentIds)));
      }
    case OrphanResult(_, _, _, result, _, _) =>
      DeleteKeepsDistinct(p, result);
    case OtherNode(_, _, _, _) =>
  }

  lemma {:induction false} IdealStaysDistinct(s: Setup, p: Pendings, cs: seq<RenderNode>)
    requires Distinct(p)
    ensures Distinct(PairAll(s, None, p, cs).0)
    decreases |cs|
  {
    if cs != [] {
      hide PairOne, Distinct;
      IdealStaysDistinct(s, p, cs[..|cs| - 1]);
      IdealStep(s, PairAll(s, None, p, cs[..|cs| - 1]).0, cs[|cs| - 1]);
    }
  }

  /** Distinct tool ids rule stale reuse out. */
  lemma FreshCallIdsAreNeverStale(s: Setup, cap: nat, p: Pendings, cs: seq<RenderNode>)
    requires Distinct(p) && FreshCallIds(s, p, cs)
    ensures NeverStale(s, cap, p, cs)
  {
    forall n | 0 <= n < |cs| ensures FreshAt(s, cap, p, cs, n) {
      var ideal := PairAll(s, None, p, cs[..n]).0;
      var bounded := PairAll(s, Some(cap), p, cs[..n]).0;
      if CallId(s, cs[n]).Some? {
        var id := CallId(s, cs[n]).value;
        UncalledIsNotOutstanding(s, p, cs[..n], id);
        if IsSuffix(bounded, ideal) {
          assert ideal == Evicted(ideal, bounded) + bounded;
          HasConcat(Evicted(ideal, bounded), bounded, id);
        }
      }
    }
  }

  // ----- stale reuse does happen

  /** `n` calls, named by strings of growing length. */
  function Calls(n: nat): (cs: seq<RenderNode>)
    ensures |cs| == n
  {
    var row := Row("", Anchor(0, 0), None, None);
    seq(n, i requires 0 <= i < n =>
      Tool(row, false, false, "Bash", None, Pending, None, Some(Name(i)), None, row.anchor, None))
  }

  function Name(n: nat): (name: string)
    ensures |name| == n
  {
    seq(n, _ => 'x')
  }

  predicate NamesCalls(s: Setup, p: Pendings, cs: seq<RenderNode>) {
    |p| == |cs| && forall i :: 0 <= i < |p| ==> Some(p[i].key) == CallId(s, cs[i])
  }

  lemma {:induction false} OutstandingCallsPileUp(s: Setup, cs: seq<RenderNode>)
    requires FreshCallIds(s, [], cs) && forall i :: 0 <= i < |cs| ==> CallId(s, cs[i]).Some?
    ensures NamesCalls(s, PairAll(s, None, [], cs).0, cs)
    decreases |cs|
  {
    if cs != [] {
      hide NamesCalls, PairOne, CallId;
      var n := |cs| - 1;
      var init := cs[..n];
      FreshInit(s, cs);
      hide FreshCallIds;
      OutstandingCallsPileUp(s, init);
      assert cs == init + [cs[n]];
      NewCallGoesLast(s, PairAll(s, None, [], init).0, init, cs[n]);
    } else {
      hide FreshCallIds;
    }
  }

  lemma NewCallGoesLast(s: Setup, p: Pendings, cs: seq<RenderNode>, c: RenderNode)
    requires NamesCalls(s, p, cs) && CallId(s, c).Some?
    requires forall i :: 0 <= i < |cs| ==> CallId(s, cs[i]) != CallId(s, c)
    ensures NamesCalls(s, PairOne(s, None, p, c).0, cs + [c])
  {
    hide PairOne, CallId;
    forall i | 0 <= i < |p| ensures p[i].key != CallId(s, c).value {
      assert CallId(s, cs[i]) != CallId(s, c);
    }
    var v := NewCallIsAppended(s, p, c);
  }

  lemma NewCallIsAppended(s: Setup, p: Pendings, c: RenderNode) returns (v: PendingCall)
    requires CallId(s, c).Some? && !Has(p, CallId(s, c).value)
    ensures PairOne(s, None, p, c).0 == p + [Entry(CallId(s, c).value, v)]
  {
    hide Set, PendingOf, Has;
    v := PendingOf(WithAgentId(c, s.taskAgentIds));
    SetOfAbsentKeyAppends(p, CallId(s, c).value, v);
  }

  lemma FreshInit(s: Setup, cs: seq<RenderNode>)
    requires FreshCallIds(s, [], cs) && cs != []
    ensures FreshCallIds(s, [], cs[..|cs| - 1])
    ensures forall i :: 0 <= i < |cs| - 1 && CallId(s, cs[i]).Some? ==> CallId(s, cs[i]) != CallId(s, cs[|cs| - 1])
  {
    var init := cs[..|cs| - 1];
    assert forall i :: 0 <= i < |init| ==> init[i] == cs[i];
    hide CallId;
  }

  /** From the empty map, any `cap + 1` outstanding calls with distinct ids and then a call under the first
      of those ids: the reuse is stale, and the bounded map is no suffix of the ideal one any more. */
  lemma ReuseAfterCapCallsIsStale(s: Setup, cap: nat, cs: seq<RenderNode>, c: RenderNode)
    requires cap >= 1 && |cs| == cap + 1 && FreshCallIds(s, [], cs)
    requires forall i :: 0 <= i < |cs| ==> CallId(s, cs[i]).Some?
    requires CallId(s, c) == CallId(s, cs[0])
    ensures var ideal, bounded := PairAll(s, None, [], cs).0, PairAll(s, Some(cap), [], cs).0;
      && IsSuffix(bounded, ideal) && StaleReuse(s, ideal, bounded, c)
      && !IsSuffix(PairOne(s, Some(cap), bounded, c).0, PairOne(s, None, ideal, c).0)
  {
    var ideal, bounded := PairAll(s, None, [], cs).0, PairAll(s, Some(cap), [], cs).0;
    FreshCallIdsAreNeverStale(s, cap, [], cs);
    BoundedSimulatesIdeal(s, cap, [], cs);
    OutstandingCallsPileUp(s, cs);
    LastCallIsKept(s, cap, cs);
    hide PairAll, PairOne;
    assert Some(ideal[0].key) == CallId(s, cs[0]) && Some(ideal[cap].key) == CallId(s, cs[cap]);
    assert Evicted(ideal, bounded)[0].key == CallId(s, c).value;
    assert ideal[|ideal| - 1].key != CallId(s, c).value;
    SuffixSurvivesExactlyFreshCalls(s, cap, ideal, bounded, c);
  }

  lemma LastCallIsKept(s: Setup, cap: nat, cs: seq<RenderNode>)
    requires cap >= 1 && cs != [] && CallId(s, cs[|cs| - 1]).Some?
    ensures PairAll(s, Some(cap), [], cs).0 != []
  {
    var before := PairAll(s, Some(cap), [], cs[..|cs| - 1]).0;
    var c := cs[|cs| - 1];
    assert Set(before, c.toolUseId.value, PendingOf(WithAgentId(c, s.taskAgentIds))) != [];
  }

  /** Such streams exist for every bound. */
  lemma StaleReuseIsReachable(s: Setup, cap: nat)
    requires cap >= 1
    ensures !NeverStale(s, cap, [], Calls(cap + 1) + [Calls(1)[0]])
  {
    var cs, c := Calls(cap + 1), Calls(1)[0];
    assert Name(0) == "";
    ReuseAfterCapCallsIsStale(s, cap, cs, c);
    var all := cs + [c];
    assert all[..cap + 1] == cs && all[cap + 1] == c;
    assert !FreshAt(s, cap, [], all, cap + 1);
  }
}
