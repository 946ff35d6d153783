/** What pairing should show, said by position: every call with the first result after it
    (viewer/core/pair.ts, viewer/core/window.ts). */
module PairingByPosition {
  import opened Collections
  import opened JsMap
  import opened Nodes
  import opened CompletedTool
  import opened Pairing
  import opened BoundedPairing
  import opened LiveView

  predicate IsCall(c: RenderNode, id: string) {
    c.Tool? && c.toolUseId == Some(id)
  }

  predicate IsResult(c: RenderNode, id: string) {
    c.OrphanResult? && c.resultToolUseId == id
  }

  /** Each tool id is called once. */
  predicate DistinctCalls(cs: seq<RenderNode>) {
    forall i, j :: 0 <= i < j < |cs| && cs[i].Tool? && cs[i].toolUseId.Some? ==> !IsCall(cs[j], cs[i].toolUseId.value)
  }

  /** The first result for `id` from `from` on. */
  function FirstResult(cs: seq<RenderNode>, id: string, from: nat): (j: Option<nat>)
    requires from <= |cs|
    ensures j.Some? ==> from <= j.value < |cs| && IsResult(cs[j.value], id)
    ensures j.Some? ==> forall k :: from <= k < j.value ==> !IsResult(cs[k], id)
    ensures j.None? ==> forall k :: from <= k < |cs| ==> !IsResult(cs[k], id)
    decreases |cs| - from
  {
    if from == |cs| then None
    else if IsResult(cs[from], id) then Some(from)
    else FirstResult(cs, id, from + 1)
  }

  /** The `k`-th candidate is the first result after the call it answers. */
  ghost predicate Claimed(cs: seq<RenderNode>, k: nat)
    requires k < |cs|
  {
    cs[k].OrphanResult? && exists i :: 0 <= i < k && Claims(cs, i, k)
  }

  predicate Claims(cs: seq<RenderNode>, i: nat, k: nat)
    requires i < |cs| && k < |cs| && cs[k].OrphanResult?
  {
    IsCall(cs[i], cs[k].resultToolUseId) && FirstResult(cs, cs[k].resultToolUseId, i + 1) == Some(k)
  }

  /** What a reader should see of the `k`-th candidate: a call with the first result after it, a result only
      when no call claims it, and everything else as it is. */
  ghost function Shown(enc: Encoder, cs: seq<RenderNode>, k: nat): (nodes: seq<RenderNode>)
    requires k < |cs|
  {
    if cs[k].Tool? && cs[k].toolUseId.Some? then
      match FirstResult(cs, cs[k].toolUseId.value, k + 1)
      case Some(j) => [Completed(enc, PendingOf(cs[k]), cs[j])]
      case None => [cs[k]]
    else if Claimed(cs, k) then []
    else [cs[k]]
  }

  ghost function Pieces(enc: Encoder, cs: seq<RenderNode>): (pieces: seq<seq<RenderNode>>)
    ensures |pieces| == |cs|
  {
    seq(|cs|, k requires 0 <= k < |cs| => Shown(enc, cs, k))
  }

  ghost function Displayed(enc: Encoder, cs: seq<RenderNode>): seq<RenderNode> {
    Flatten(Pieces(enc, cs))
  }

  // ----- one more candidate

  lemma FirstResultAppend(cs: seq<RenderNode>, c: RenderNode, id: string, from: nat)
    requires from <= |cs|
    ensures FirstResult(cs + [c], id, from) ==
            if FirstResult(cs, id, from).Some? then FirstResult(cs, id, from)
            else if IsResult(c, id) then Some(|cs|) else None
  {
    var longer := cs + [c];
    assert forall k :: 0 <= k < |cs| ==> longer[k] == cs[k];
    assert longer[|cs|] == c;
    var j := FirstResult(longer, id, from);
    hide IsResult;
  }

  /** The call waits for a result. */
  ghost predicate Waits(cs: seq<RenderNode>, i: int, id: string) {
    0 <= i < |cs| && IsCall(cs[i], id) && FirstResult(cs, id, i + 1).None?
  }

  lemma WaitsAppend(cs: seq<RenderNode>, c: RenderNode, i: int, id: string)
    requires 0 <= i < |cs|
    ensures Waits(cs + [c], i, id) <==> Waits(cs, i, id) && !IsResult(c, id)
  {
    FirstResultAppend(cs, c, id, i + 1);
  }

  lemma EarlierPiece(enc: Encoder, cs: seq<RenderNode>, c: RenderNode, k: nat)
    requires k < |cs|
    ensures Shown(enc, cs + [c], k) ==
            if cs[k].Tool? && cs[k].toolUseId.Some? && Waits(cs, k, cs[k].toolUseId.value)
               && IsResult(c, cs[k].toolUseId.value)
            then [Completed(enc, PendingOf(cs[k]), c)] else Shown(enc, cs, k)
  {
    hide Completed;
    var longer := cs + [c];
    assert longer[k] == cs[k];
    if cs[k].Tool? && cs[k].toolUseId.Some? {
      FirstResultAppend(cs, c, cs[k].toolUseId.value, k + 1);
    } else if cs[k].OrphanResult? {
      forall i | 0 <= i < k ensures Claims(longer, i, k) <==> Claims(cs, i, k) {
        assert longer[i] == cs[i];
        FirstResultAppend(cs, c, cs[k].resultToolUseId, i + 1);
      }
    }
  }

  // ----- the ideal machine shows it

  /** The unbounded map holds exactly the calls that wait. */
  ghost predicate HoldsWaiting(p: Pendings, cs: seq<RenderNode>, id: string) {
    && (forall i :: Waits(cs, i, id) ==> Get(p, id) == Some(PendingOf(cs[i])))
    && (Get(p, id).Some? ==> exists i :: Waits(cs, i, id))
  }

  lemma {:induction false} IdealHoldsWaiting(s: Setup, cs: seq<RenderNode>, id: string)
    requires DistinctCalls(cs) && s.taskAgentIds == map[]
    ensures HoldsWaiting(PairAll(s, None, [], cs).0, cs, id)
    decreases |cs|
  {
    if cs != [] {
      hide HoldsWaiting, DistinctCalls, PairOne;
      var n := |cs| - 1;
      assert DistinctCalls(cs[..n]) by { DistinctInit(cs); }
      IdealHoldsWaiting(s, cs[..n], id);
      IdealStaysDistinct(s, [], cs[..n]);
      assert cs == cs[..n] + [cs[n]];
      StepHoldsWaiting(s, PairAll(s, None, [], cs[..n]).0, cs[..n], cs[n], id);
    } else {
      assert Get<string, PendingCall>([], id).None?;
    }
  }

  lemma DistinctInit(cs: seq<RenderNode>)
    requires DistinctCalls(cs) && cs != []
    ensures DistinctCalls(cs[..|cs| - 1])
  {
  }

  lemma StepHoldsWaiting(s: Setup, p: Pendings, cs: seq<RenderNode>, c: RenderNode, id: string)
    requires HoldsWaiting(p, cs, id) && Distinct(p) && DistinctCalls(cs + [c]) && s.taskAgentIds == map[]
    ensures HoldsWaiting(PairOne(s, None, p, c).0, cs + [c], id)
  {
    hide Get, Set, Delete, Completed, Waits, DistinctCalls, PendingOf;
    var longer, n := cs + [c], |cs|;
    forall i | 0 <= i < n ensures Waits(longer, i, id) <==> Waits(cs, i, id) && !IsResult(c, id)
      ensures longer[i] == cs[i]
    {
      WaitsAppend(cs, c, i, id);
    }
    NewestWaits(cs, c, id);
    if c.Tool? && c.toolUseId.Some? {
      GetAfterSet(p, c.toolUseId.value, PendingOf(c), id);
      if c.toolUseId.value == id {
        OnlyNewestWaits(cs, c, id);
      }
    } else if c.OrphanResult? {
      GetAfterDelete(p, c.resultToolUseId, id);
      if Get(p, c.resultToolUseId).None? {
        DeleteOfAbsentKey(p, c.resultToolUseId);
      }
    }
    WaitsInRange(longer, id);
    WaitsInRange(cs, id);
  }

  lemma WaitsInRange(cs: seq<RenderNode>, id: string)
    ensures forall i :: Waits(cs, i, id) ==> 0 <= i < |cs|
  {
  }

  lemma NewestWaits(cs: seq<RenderNode>, c: RenderNode, id: string)
    ensures Waits(cs + [c], |cs|, id) <==> IsCall(c, id)
  {
    assert (cs + [c])[|cs|] == c;
  }

  lemma OnlyNewestWaits(cs: seq<RenderNode>, c: RenderNode, id: string)
    requires DistinctCalls(cs + [c]) && IsCall(c, id)
    ensures forall i :: 0 <= i < |cs| ==> !Waits(cs, i, id)
  {
    var longer := cs + [c];
    forall i | 0 <= i < |cs| ensures !IsCall(cs[i], id) {
      assert longer[i] == cs[i] && longer[|cs|] == c;
    }
  }

  /** The snapshot of an unbounded machine that starts with nothing pending. */
  function IdealView(s: Setup, cs: seq<RenderNode>): seq<RenderNode> {
    var outcomes := PairAll(s, None, [], cs).1;
    PatchAll(NodesOf(outcomes), PatchesOf(outcomes))
  }

  lemma {:induction false} IdealPatchTargets(s: Setup, cs: seq<RenderNode>, id: string)
    requires DistinctCalls(cs) && s.taskAgentIds == map[] && !HasNode(cs, id)
    ensures forall q :: q in PatchesOf(PairAll(s, None, [], cs).1) ==> q.id != id
    decreases |cs|
  {
    if cs != [] {
      hide DistinctCalls, Completed, Waits;
      var n := |cs| - 1;
      var (before, outcomes) := PairAll(s, None, [], cs[..n]);
      DistinctInit(cs);
      forall i | 0 <= i < n ensures cs[..n][i].row.id != id {
        assert cs[i].row.id != id;
      }
      IdealPatchTargets(s, cs[..n], id);
      OutcomesAppend(outcomes, PairOne(s, None, before, cs[n]).1);
      if cs[n].OrphanResult? {
        IdealHoldsWaiting(s, cs[..n], cs[n].resultToolUseId);
        if i :| Waits(cs[..n], i, cs[n].resultToolUseId) {
          WaitsInRange(cs[..n], cs[n].resultToolUseId);
          assert IsCall(cs[..n][i], cs[n].resultToolUseId) by { WaiterIsACall(cs[..n], i, cs[n].resultToolUseId); }
        }
      }
    }
  }

  lemma WaiterIsACall(cs: seq<RenderNode>, i: int, id: string)
    requires Waits(cs, i, id)
    ensures 0 <= i < |cs| && IsCall(cs[i], id)
  {
  }

  /** Node ids and called tool ids are used once. */
  predicate IsTidy(cs: seq<RenderNode>) {
    UniqueIds(cs) && DistinctCalls(cs)
  }

  lemma TidyInit(cs: seq<RenderNode>)
    requires IsTidy(cs) && cs != []
    ensures IsTidy(cs[..|cs| - 1]) && DistinctCalls(cs[..|cs| - 1]) && DistinctCalls(cs)
  {
    DistinctInit(cs);
  }

  lemma TidyAppend(cs: seq<RenderNode>, c: RenderNode)
    requires IsTidy(cs + [c])
    ensures IsTidy(cs) && !HasNode(cs, c.row.id)
  {
    var longer := cs + [c];
    assert longer[..|longer| - 1] == cs;
    TidyInit(longer);
    forall i | 0 <= i < |cs| ensures cs[i].row.id != c.row.id {
      assert longer[i] == cs[i] && longer[|cs|] == c;
    }
  }

  lemma EmittedGoesLast(s: Setup, cs: seq<RenderNode>, c: RenderNode)
    requires IsTidy(cs + [c]) && s.taskAgentIds == map[]
    requires PairOne(s, None, PairAll(s, None, [], cs).0, c).1 == Emitted(c)
    ensures IdealView(s, cs + [c]) == IdealView(s, cs) + [c]
  {
    hide PairOne, IsTidy;
    var (before, outcomes) := PairAll(s, None, [], cs);
    PairAllAppend(s, None, [], cs, c);
    OutcomesAppend(outcomes, Emitted(c));
    assert PatchesOf(outcomes + [Emitted(c)]) == PatchesOf(outcomes);
    PatchAllSplitsNodes(NodesOf(outcomes), [c], PatchesOf(outcomes));
    TidyAppend(cs, c);
    assert DistinctCalls(cs) by { CallsOfTidy(cs); }
    IdealPatchTargets(s, cs, c.row.id);
    hide PairAll, NodesOf, PatchesOf, PatchAll;
    forall q | q in PatchesOf(outcomes) ensures !HasNode([c], q.id) {
      assert q.id != c.row.id;
    }
    ForeignPatchesDoNothing([c], PatchesOf(outcomes));
  }

  lemma CallsOfTidy(cs: seq<RenderNode>)
    requires IsTidy(cs)
    ensures DistinctCalls(cs) && UniqueIds(cs)
  {
  }

  /** A candidate no call waits for is shown as it is, and changes nothing shown before it. */
  lemma EmittedIsShown(enc: Encoder, cs: seq<RenderNode>, c: RenderNode)
    requires c.OrphanResult? ==> forall i :: !Waits(cs, i, c.resultToolUseId)
    ensures Displayed(enc, cs + [c]) == Displayed(enc, cs) + [c]
  {
    hide Completed, Waits;
    var longer := cs + [c];
    forall k | 0 <= k < |cs| ensures Shown(enc, longer, k) == Shown(enc, cs, k) {
      EarlierPiece(enc, cs, c, k);
    }
    NewestPiece(enc, cs, c);
    hide Shown;
    assert Pieces(enc, longer) == Pieces(enc, cs) + [[c]];
    FlattenAppend(Pieces(enc, cs), [c]);
  }

  lemma NewestPiece(enc: Encoder, cs: seq<RenderNode>, c: RenderNode)
    ensures Shown(enc, cs + [c], |cs|) ==
            if c.OrphanResult? && exists i :: Waits(cs, i, c.resultToolUseId) then [] else [c]
  {
    hide Completed;
    var longer, n := cs + [c], |cs|;
    assert longer[n] == c;
    if c.OrphanResult? {
      forall i | 0 <= i < n ensures Claims(longer, i, n) <==> Waits(cs, i, c.resultToolUseId) {
        assert longer[i] == cs[i];
        FirstResultAppend(cs, c, c.resultToolUseId, i + 1);
      }
      WaitsInRange(cs, c.resultToolUseId);
    }
  }

  function EachPatched(pieces: seq<seq<RenderNode>>, p: Patch): seq<seq<RenderNode>> {
    seq(|pieces|, k requires 0 <= k < |pieces| => PatchOne(pieces[k], p))
  }

  lemma {:induction false} PatchOneFlatten(pieces: seq<seq<RenderNode>>, p: Patch)
    ensures PatchOne(Flatten(pieces), p) == Flatten(EachPatched(pieces, p))
  {
    hide PatchOne;
    if pieces == [] {
      assert PatchOne([], p) == [] by { NothingPatched(p); }
    } else {
      PatchOneFlatten(pieces[1..], p);
      PatchOneSplits(pieces[0], Flatten(pieces[1..]), p);
      assert EachPatched(pieces, p)[1..] == EachPatched(pieces[1..], p);
    }
  }

  lemma NothingPatched(p: Patch)
    ensures PatchOne([], p) == []
  {
  }

  /** The call that waited is shown completed, and its result is not shown. */
  lemma CompletionIsShown(enc: Encoder, cs: seq<RenderNode>, c: RenderNode, i: nat)
    requires IsTidy(cs) && c.OrphanResult? && Waits(cs, i, c.resultToolUseId)
    ensures Displayed(enc, cs + [c]) ==
            PatchOne(Displayed(enc, cs), ResultPatch(cs[i].row.id, Completed(enc, PendingOf(cs[i]), c)))
  {
    hide Completed, IsTidy;
    var longer := cs + [c];
    var p := ResultPatch(cs[i].row.id, Completed(enc, PendingOf(cs[i]), c));
    forall k | 0 <= k < |cs| ensures Shown(enc, longer, k) == PatchOne(Shown(enc, cs, k), p) {
      EarlierPiece(enc, cs, c, k);
      PieceIsPatched(enc, cs, c, i, k);
    }
    NewestPiece(enc, cs, c);
    hide Shown, PatchOne, Waits;
    assert Pieces(enc, longer) == EachPatched(Pieces(enc, cs), p) + [[]];
    FlattenAppend(EachPatched(Pieces(enc, cs), p), []);
    PatchOneFlatten(Pieces(enc, cs), p);
  }

  lemma PieceIsPatched(enc: Encoder, cs: seq<RenderNode>, c: RenderNode, i: nat, k: nat)
    requires IsTidy(cs) && c.OrphanResult? && Waits(cs, i, c.resultToolUseId) && k < |cs|
    ensures PatchOne(Shown(enc, cs, k), ResultPatch(cs[i].row.id, Completed(enc, PendingOf(cs[i]), c))) ==
            if cs[k].Tool? && cs[k].toolUseId.Some? && Waits(cs, k, cs[k].toolUseId.value)
               && IsResult(c, cs[k].toolUseId.value)
            then [Completed(enc, PendingOf(cs[k]), c)] else Shown(enc, cs, k)
  {
    var piece := Shown(enc, cs, k);
    PiecesKeepIds(enc, cs, k);
    if k == i {
      assert piece == [cs[i]] by { hide Completed; }
    } else {
      hide Completed, Shown;
      assert cs[k].row.id != cs[i].row.id;
      assert cs[k].Tool? ==> cs[k].toolUseId != Some(c.resultToolUseId);
    }
  }

  /** What is shown of a candidate has its id. */
  lemma PiecesKeepIds(enc: Encoder, cs: seq<RenderNode>, k: nat)
    requires k < |cs|
    ensures |Shown(enc, cs, k)| <= 1
    ensures forall n :: n in Shown(enc, cs, k) ==> n.row.id == cs[k].row.id
  {
    hide Fitted, Claimed;
    if cs[k].Tool? && cs[k].toolUseId.Some? {
      var j := FirstResult(cs, cs[k].toolUseId.value, k + 1);
      if j.Some? {
        FittingKeepsIdentity(enc, Combined(PendingOf(cs[k]), cs[j.value]));
      }
    }
  }

  /** The unbounded machine shows every call with the first result after it, and hides exactly that result. */
  lemma {:induction false} IdealPairsTheFirstResult(s: Setup, cs: seq<RenderNode>)
    requires IsTidy(cs) && s.taskAgentIds == map[]
    ensures IdealView(s, cs) == Displayed(s.enc, cs)
    decreases |cs|
  {
    if cs != [] {
      hide IsTidy, Displayed, DistinctCalls, Waits, Completed;
      var init, c := cs[..|cs| - 1], cs[|cs| - 1];
      assert cs == init + [c];
      TidyInit(cs);
      IdealPairsTheFirstResult(s, init);
      var before := PairAll(s, None, [], init).0;
      if c.OrphanResult? {
        IdealHoldsWaiting(s, init, c.resultToolUseId);
      }
      if c.OrphanResult? && Get(before, c.resultToolUseId).Some? {
        var i :| Waits(init, i, c.resultToolUseId);
        WaitsInRange(init, c.resultToolUseId);
        CompletionIsPatched(s, init, c);
        CompletionIsShown(s.enc, init, c, i);
      } else {
        EmittedAsItIs(s, before, c);
        EmittedGoesLast(s, init, c);
        EmittedIsShown(s.enc, init, c);
      }
    }
  }

  lemma EmittedAsItIs(s: Setup, p: Pendings, c: RenderNode)
    requires s.taskAgentIds == map[] && (c.OrphanResult? ==> Get(p, c.resultToolUseId).None?)
    ensures PairOne(s, None, p, c).1 == Emitted(c)
  {
    hide Set, Get;
  }

  lemma CompletionIsPatched(s: Setup, cs: seq<RenderNode>, c: RenderNode)
    requires c.OrphanResult? && Get(PairAll(s, None, [], cs).0, c.resultToolUseId).Some?
    ensures var pending := Get(PairAll(s, None, [], cs).0, c.resultToolUseId).value;
      IdealView(s, cs + [c]) == PatchOne(IdealView(s, cs), ResultPatch(pending.row.id, Completed(s.enc, pending, c)))
  {
    hide Completed, Get, Delete, PatchOne;
    var (before, outcomes) := PairAll(s, None, [], cs);
    PairAllAppend(s, None, [], cs, c);
    var last := PairOne(s, None, before, c).1;
    OutcomesAppend(outcomes, last);
    var ps := PatchesOf(outcomes);
    assert (ps + [last.patch])[..|ps|] == ps;
    assert NodesOf(outcomes + [last]) == NodesOf(outcomes);
  }
}
