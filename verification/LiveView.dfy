/** A live stream of ticks against one snapshot of the same rows
    (viewer/adapters/poller.adapter.ts, viewer/client/src/rowStore.ts). */
module LiveView {
  import opened Collections
  import opened JsMap
  import opened Nodes
  import opened CompletedTool
  import opened Pairing
  import opened BoundedPairing

  const CAP := Some(PENDING_CAP)

  predicate UniqueIds(nodes: seq<RenderNode>) {
    forall i, j :: 0 <= i < j < |nodes| ==> nodes[i].row.id != nodes[j].row.id
  }

  predicate HasNode(nodes: seq<RenderNode>, id: string) {
    exists i :: 0 <= i < |nodes| && nodes[i].row.id == id
  }

  /** The nodes but those with the id. */
  function Without(nodes: seq<RenderNode>, id: string): (r: seq<RenderNode>) {
    if nodes == [] then [] else (if nodes[0].row.id == id then [] else [nodes[0]]) + Without(nodes[1..], id)
  }

  /** The nodes with the patch's id, replaced where they stand or taken out. */
  function PatchOne(nodes: seq<RenderNode>, p: Patch): (r: seq<RenderNode>)
    ensures p.ResultPatch? ==> |r| == |nodes|
  {
    if p.RemovePatch? then Without(nodes, p.id)
    else seq(|nodes|, i requires 0 <= i < |nodes| => if nodes[i].row.id == p.id then p.node else nodes[i])
  }

  function PatchAll(nodes: seq<RenderNode>, ps: seq<Patch>): (r: seq<RenderNode>) {
    if ps == [] then nodes else PatchOne(PatchAll(nodes, ps[..|ps| - 1]), ps[|ps| - 1])
  }

  /** A replacement has the id its patch names. */
  predicate KeepsId(p: Patch) {
    p.ResultPatch? ==> p.node.row.id == p.id
  }

  predicate Replaces(p: Patch) {
    p.ResultPatch? && KeepsId(p)
  }

  lemma {:induction false} WithoutSplits(a: seq<RenderNode>, b: seq<RenderNode>, id: string)
    ensures Without(a + b, id) == Without(a, id) + Without(b, id)
    decreases |a|
  {
    if a == [] {
      assert a + b == b;
    } else {
      assert (a + b)[1..] == a[1..] + b;
      WithoutSplits(a[1..], b, id);
    }
  }

  lemma {:induction false} WithoutForeign(nodes: seq<RenderNode>, id: string)
    requires !HasNode(nodes, id)
    ensures Without(nodes, id) == nodes
  {
    if nodes != [] {
      assert nodes[0].row.id != id;
      forall i | 0 <= i < |nodes[1..]| ensures nodes[1..][i].row.id != id {
        assert nodes[1..][i] == nodes[i + 1];
      }
      WithoutForeign(nodes[1..], id);
    }
  }

  lemma {:induction false} ReplacingKeepsIds(nodes: seq<RenderNode>, ps: seq<Patch>)
    requires forall p :: p in ps ==> Replaces(p)
    ensures |PatchAll(nodes, ps)| == |nodes|
    ensures forall i :: 0 <= i < |nodes| ==> PatchAll(nodes, ps)[i].row.id == nodes[i].row.id
  {
    if ps != [] {
      var last := ps[|ps| - 1];
      assert last in ps && forall p :: p in ps[..|ps| - 1] ==> p in ps;
      ReplacingKeepsIds(nodes, ps[..|ps| - 1]);
    }
  }

  lemma PatchOneSplits(a: seq<RenderNode>, b: seq<RenderNode>, p: Patch)
    ensures PatchOne(a + b, p) == PatchOne(a, p) + PatchOne(b, p)
  {
    WithoutSplits(a, b, p.id);
    hide Without;
  }

  lemma {:induction false} PatchAllSplitsNodes(a: seq<RenderNode>, b: seq<RenderNode>, ps: seq<Patch>)
    ensures PatchAll(a + b, ps) == PatchAll(a, ps) + PatchAll(b, ps)
  {
    if ps != [] {
      var init := ps[..|ps| - 1];
      PatchAllSplitsNodes(a, b, init);
      PatchOneSplits(PatchAll(a, init), PatchAll(b, init), ps[|ps| - 1]);
    }
  }

  lemma {:induction false} PatchAllSplitsPatches(nodes: seq<RenderNode>, ps: seq<Patch>, qs: seq<Patch>)
    ensures PatchAll(nodes, ps + qs) == PatchAll(PatchAll(nodes, ps), qs)
  {
    if qs == [] {
      assert ps + qs == ps;
    } else {
      assert (ps + qs)[..|ps + qs| - 1] == ps + qs[..|qs| - 1];
      PatchAllSplitsPatches(nodes, ps, qs[..|qs| - 1]);
    }
  }

  lemma ForeignPatchDoesNothing(nodes: seq<RenderNode>, p: Patch)
    requires !HasNode(nodes, p.id)
    ensures PatchOne(nodes, p) == nodes
  {
    if p.RemovePatch? {
      WithoutForeign(nodes, p.id);
    } else {
      forall i | 0 <= i < |nodes| ensures nodes[i].row.id != p.id {
        assert !HasNode(nodes, p.id);
      }
    }
  }

  lemma {:induction false} ForeignPatchesDoNothing(nodes: seq<RenderNode>, ps: seq<Patch>)
    requires forall p :: p in ps ==> !HasNode(nodes, p.id)
    ensures PatchAll(nodes, ps) == nodes
  {
    if ps != [] {
      var last := ps[|ps| - 1];
      assert last in ps && forall p :: p in ps[..|ps| - 1] ==> p in ps;
      ForeignPatchesDoNothing(nodes, ps[..|ps| - 1]);
      ForeignPatchDoesNothing(nodes, last);
    }
  }

  // ----- the two imperative merges

  /** The client's in-place application: the first node with the id is replaced or spliced out, and a
      patch whose id is not held does nothing. With unique ids that is every node with the id. */
  method ApplyPatches(store: seq<RenderNode>, ps: seq<Patch>) returns (nodes: seq<RenderNode>)
    ensures UniqueIds(store) && (forall p :: p in ps ==> KeepsId(p)) ==>
              nodes == PatchAll(store, ps) && UniqueIds(nodes)
  {
    nodes := store;
    ghost var wanted := UniqueIds(store) && forall p :: p in ps ==> KeepsId(p);
    hide PatchOne, UniqueIds;
    for i := 0 to |ps|
      invariant wanted ==> nodes == PatchAll(store, ps[..i]) && UniqueIds(nodes)
    {
      var idx := 0;
      while idx < |nodes| && nodes[idx].row.id != ps[i].id
        invariant 0 <= idx <= |nodes|
        invariant forall k :: 0 <= k < idx ==> nodes[k].row.id != ps[i].id
      {
        idx := idx + 1;
      }
      if wanted {
        PatchTheOnlyOne(nodes, ps[i], idx);
      }
      if idx < |nodes| {
        match ps[i] {
          case ResultPatch(_, node) => nodes := nodes[idx := node];
          case RemovePatch(_) => nodes := nodes[..idx] + nodes[idx + 1..];
        }
      }
      assert ps[..i + 1][..i] == ps[..i];
    }
    assert ps[..|ps|] == ps;
  }

  /** One patch changes the one node it names and keeps the ids unique. */
  lemma PatchTheOnlyOne(nodes: seq<RenderNode>, p: Patch, idx: nat)
    requires UniqueIds(nodes) && KeepsId(p) && idx <= |nodes|
    requires forall k :: 0 <= k < idx ==> nodes[k].row.id != p.id
    requires idx < |nodes| ==> nodes[idx].row.id == p.id
    ensures PatchOne(nodes, p) == if idx == |nodes| then nodes
                                else if p.ResultPatch? then nodes[idx := p.node]
                                else nodes[..idx] + nodes[idx + 1..]
    ensures UniqueIds(PatchOne(nodes, p))
  {
    if idx == |nodes| {
      ForeignPatchDoesNothing(nodes, p);
    } else if p.RemovePatch? {
      WithoutTheOnlyOne(nodes, idx);
      RemovingKeepsUniqueIds(nodes, idx);
    }
  }

  lemma {:induction false} WithoutTheOnlyOne(nodes: seq<RenderNode>, idx: nat)
    requires UniqueIds(nodes) && idx < |nodes|
    ensures Without(nodes, nodes[idx].row.id) == nodes[..idx] + nodes[idx + 1..]
  {
    var id, tail := nodes[idx].row.id, nodes[1..];
    if idx == 0 {
      assert !HasNode(tail, id);
      WithoutForeign(tail, id);
    } else {
      WithoutTheOnlyOne(tail, idx - 1);
      assert tail[idx - 1] == nodes[idx] && nodes[0].row.id != id;
      assert nodes[..idx] == [nodes[0]] + tail[..idx - 1];
      assert tail[idx..] == nodes[idx + 1..];
    }
  }

  lemma RemovingKeepsUniqueIds(nodes: seq<RenderNode>, idx: nat)
    requires UniqueIds(nodes) && idx < |nodes|
    ensures UniqueIds(nodes[..idx] + nodes[idx + 1..])
  {
  }

  /** The index holds a position of every id among the first `n` nodes, and nothing else. */
  ghost predicate IsIndexOf(indexById: map<string, nat>, nodes: seq<RenderNode>, n: nat)
    requires n <= |nodes|
  {
    && (forall id :: id in indexById ==> indexById[id] < n && nodes[indexById[id]].row.id == id)
    && (forall k :: 0 <= k < n ==> nodes[k].row.id in indexById)
  }

  class Poller {
    var pairState: PairState

    constructor ()
      ensures fresh(pairState) && pairState.pending == []
    {
      pairState := new PairState();
    }

    /** The window's display nodes: pair, then merge through an index built before the first patch. */
    method BuildWindowNodes(s: Setup, candidates: seq<RenderNode>) returns (merged: seq<RenderNode>)
      modifies pairState
      ensures pairState.pending == View(s, old(pairState.pending), candidates).0
      ensures UniqueIds(candidates) ==>
                merged == View(s, old(pairState.pending), candidates).1
    {
      hide PairAll, NodesOf, PatchesOf, UniqueIds, PatchOne, PairOne;
      ghost var p := pairState.pending;
      var nodes, patches := pairState.Pair(s, candidates);
      var indexById: map<string, nat> := map[];
      for i := 0 to |nodes|
        invariant IsIndexOf(indexById, nodes, i)
        invariant pairState.pending == View(s, p, candidates).0
      {
        indexById := indexById[nodes[i].row.id := i];
      }
      hide IsIndexOf;
      merged := nodes;
      ghost var wanted := UniqueIds(candidates);
      if wanted {
        NodesKeepUniqueIds(s, p, candidates);
        PatchesKeepIds(s, p, candidates);
      }
      for i := 0 to |patches|
        invariant |merged| == |nodes| && pairState.pending == View(s, p, candidates).0
        invariant wanted ==> merged == PatchAll(nodes, patches[..i])
      {
        ghost var before := merged;
        if patches[i].ResultPatch? && patches[i].id in indexById {
          merged := merged[indexById[patches[i].id] := patches[i].node];
        }
        assert patches[..i + 1][..i] == patches[..i];
        if wanted {
          assert forall q :: q in patches[..i] ==> q in patches;
          assert patches[i] in patches;
          ReplacingKeepsIds(nodes, patches[..i]);
          ReplaceThroughIndex(nodes, before, patches[i], indexById);
        }
      }
      assert patches[..|patches|] == patches;
    }
  }

  /** One tick as the client sees it: the rows are appended first, because a patch may target one of
      them, then the patches are applied in place. */
  method RunTick(pairState: PairState, s: Setup, newNodes: seq<RenderNode>, store: seq<RenderNode>)
    returns (next: seq<RenderNode>)
    modifies pairState
    ensures var (after, outcomes) := PairAll(s, CAP, old(pairState.pending), newNodes);
      && pairState.pending == after
      && (UniqueIds(store + NodesOf(outcomes)) ==>
            next == PatchAll(store + NodesOf(outcomes), PatchesOf(outcomes)))
  {
    ghost var p := pairState.pending;
    var nodes, patches := pairState.Pair(s, newNodes);
    PatchesKeepIds(s, p, newNodes);
    next := ApplyPatches(store + nodes, patches);
  }

  lemma ReplaceThroughIndex(nodes: seq<RenderNode>, merged: seq<RenderNode>, p: Patch, indexById: map<string, nat>)
    requires UniqueIds(nodes) && |merged| == |nodes|
    requires forall i :: 0 <= i < |nodes| ==> merged[i].row.id == nodes[i].row.id
    requires IsIndexOf(indexById, nodes, |nodes|) && p.ResultPatch?
    ensures PatchOne(merged, p) == if p.id in indexById then merged[indexById[p.id] := p.node] else merged
  {
  }

  // ----- ids of what pairing emits

  lemma {:induction false} EmittedNodesAreCandidates(s: Setup, p: Pendings, cs: seq<RenderNode>, i: nat)
    requires i < |NodesOf(PairAll(s, CAP, p, cs).1)|
    ensures HasNode(cs, NodesOf(PairAll(s, CAP, p, cs).1)[i].row.id)
    decreases |cs|
  {
    var n := |cs| - 1;
    var (before, outcomes) := PairAll(s, CAP, p, cs[..n]);
    OutcomesAppend(outcomes, PairOne(s, CAP, before, cs[n]).1);
    if i < |NodesOf(outcomes)| {
      EmittedNodesAreCandidates(s, p, cs[..n], i);
      var k :| 0 <= k < n && cs[..n][k].row.id == NodesOf(outcomes)[i].row.id;
      assert cs[k].row.id == NodesOf(outcomes)[i].row.id;
    } else {
      assert cs[n].row.id == NodesOf(PairAll(s, CAP, p, cs).1)[i].row.id;
    }
  }

  lemma {:induction false} NodesKeepUniqueIds(s: Setup, p: Pendings, cs: seq<RenderNode>)
    requires UniqueIds(cs)
    ensures UniqueIds(NodesOf(PairAll(s, CAP, p, cs).1))
    decreases |cs|
  {
    if cs != [] {
      var n := |cs| - 1;
      var (before, outcomes) := PairAll(s, CAP, p, cs[..n]);
      NodesKeepUniqueIds(s, p, cs[..n]);
      OutcomesAppend(outcomes, PairOne(s, CAP, before, cs[n]).1);
      forall i | 0 <= i < |NodesOf(outcomes)| ensures NodesOf(outcomes)[i].row.id != cs[n].row.id {
        EmittedNodesAreCandidates(s, p, cs[..n], i);
        var k :| 0 <= k < n && cs[..n][k].row.id == NodesOf(outcomes)[i].row.id;
        assert cs[k].row.id != cs[n].row.id;
      }
    }
  }

  lemma {:induction false} PatchesKeepIds(s: Setup, p: Pendings, cs: seq<RenderNode>)
    ensures forall q :: q in PatchesOf(PairAll(s, CAP, p, cs).1) ==> Replaces(q)
    decreases |cs|
  {
    if cs != [] {
      var n := |cs| - 1;
      var (before, outcomes) := PairAll(s, CAP, p, cs[..n]);
      PatchesKeepIds(s, p, cs[..n]);
      OutcomesAppend(outcomes, PairOne(s, CAP, before, cs[n]).1);
      if cs[n].OrphanResult? {
        var pending := Get(before, cs[n].resultToolUseId);
        if pending.Some? {
          FittingKeepsIdentity(s.enc, Combined(pending.value, cs[n]));
        }
      }
    }
  }

  /** The snapshot: pair everything, then merge every patch in place. */
  function View(s: Setup, p: Pendings, cs: seq<RenderNode>): (Pendings, seq<RenderNode>) {
    var (end, outcomes) := PairAll(s, CAP, p, cs);
    (end, PatchAll(NodesOf(outcomes), PatchesOf(outcomes)))
  }

  /** The live stream: each tick's rows are appended, then its patches are applied to the whole store. */
  function Live(s: Setup, p: Pendings, ticks: seq<seq<RenderNode>>): (Pendings, seq<RenderNode>) {
    if ticks == [] then (p, [])
    else
      var (before, store) := Live(s, p, ticks[..|ticks| - 1]);
      var (after, outcomes) := PairAll(s, CAP, before, ticks[|ticks| - 1]);
      (after, PatchAll(store + NodesOf(outcomes), PatchesOf(outcomes)))
  }

  predicate Anchors(p: Pendings, id: string) {
    exists i :: 0 <= i < |p| && p[i].value.row.id == id
  }

  lemma {:induction false} OutcomesConcat(a: seq<Outcome>, b: seq<Outcome>)
    ensures NodesOf(a + b) == NodesOf(a) + NodesOf(b)
    ensures PatchesOf(a + b) == PatchesOf(a) + PatchesOf(b)
    decreases |b|
  {
    if b == [] {
      assert a + b == a;
    } else {
      var init := b[..|b| - 1];
      assert a + b == (a + init) + [b[|b| - 1]] && b == init + [b[|b| - 1]];
      OutcomesConcat(a, init);
      OutcomesAppend(a + init, b[|b| - 1]);
      OutcomesAppend(init, b[|b| - 1]);
    }
  }

  /** A patch targets a call of the stream, or one pending when the stream began. */
  lemma {:induction false} PatchTargetsAreCalls(s: Setup, p: Pendings, cs: seq<RenderNode>, id: string)
    requires !Anchors(p, id) && !HasNode(cs, id)
    ensures !Anchors(PairAll(s, CAP, p, cs).0, id)
    ensures forall q :: q in PatchesOf(PairAll(s, CAP, p, cs).1) ==> q.id != id
    decreases |cs|
  {
    if cs != [] {
      var n := |cs| - 1;
      var (before, outcomes) := PairAll(s, CAP, p, cs[..n]);
      forall i | 0 <= i < n ensures cs[..n][i].row.id != id {
        assert cs[i].row.id != id;
      }
      PatchTargetsAreCalls(s, p, cs[..n], id);
      OutcomesAppend(outcomes, PairOne(s, CAP, before, cs[n]).1);
      assert cs[n].row.id != id;
      StepAnchors(s, before, cs[n], id);
    }
  }

  lemma StepAnchors(s: Setup, p: Pendings, c: RenderNode, id: string)
    requires !Anchors(p, id) && c.row.id != id
    ensures !Anchors(PairOne(s, CAP, p, c).0, id)
    ensures PairOne(s, CAP, p, c).1.Patched? ==> PairOne(s, CAP, p, c).1.patch.id != id
  {
    if c.Tool? && c.toolUseId.Some? {
      var node := WithAgentId(c, s.taskAgentIds);
      var grown := Set(p, c.toolUseId.value, PendingOf(node));
      if Has(p, c.toolUseId.value) {
        var i := SetOfPresentKeyReplaces(p, c.toolUseId.value, PendingOf(node));
      } else {
        SetOfAbsentKeyAppends(p, c.toolUseId.value, PendingOf(node));
      }
      assert !Anchors(grown, id);
      var kept := Bounded(grown, CAP);
      forall i | 0 <= i < |kept| ensures kept[i].value.row.id != id {
        assert kept[i] == grown[|grown| - |kept| + i];
      }
    } else if c.OrphanResult? && Has(p, c.resultToolUseId) {
      var i := DeleteRemovesOne(p, c.resultToolUseId);
    }
  }

  /** One more tick: appending its rows and patching the store in place is the snapshot of everything. */
  lemma TickIsSnapshot(s: Setup, p: Pendings, a: seq<RenderNode>, b: seq<RenderNode>)
    requires UniqueIds(a + b)
    requires forall j :: 0 <= j < |b| ==> !Anchors(p, b[j].row.id)
    ensures var (mid, store) := View(s, p, a);
      var (end, outcomes) := PairAll(s, CAP, mid, b);
      View(s, p, a + b) == (end, PatchAll(store + NodesOf(outcomes), PatchesOf(outcomes)))
  {
    var (mid, first) := PairAll(s, CAP, p, a);
    var (end, second) := PairAll(s, CAP, mid, b);
    PairAllConcat(s, CAP, p, a, b);
    OutcomesConcat(first, second);
    var na, nb := NodesOf(first), NodesOf(second);
    PatchAllSplitsPatches(na + nb, PatchesOf(first), PatchesOf(second));
    PatchAllSplitsNodes(na, nb, PatchesOf(first));
    forall q | q in PatchesOf(first) ensures !HasNode(nb, q.id) {
      forall i | 0 <= i < |nb| ensures nb[i].row.id != q.id {
        EmittedNodesAreCandidates(s, mid, b, i);
        var k :| 0 <= k < |b| && b[k].row.id == nb[i].row.id;
        forall m | 0 <= m < |a| ensures a[m].row.id != b[k].row.id {
          assert (a + b)[m].row.id != (a + b)[|a| + k].row.id;
        }
        PatchTargetsAreCalls(s, p, a, b[k].row.id);
      }
    }
    ForeignPatchesDoNothing(nb, PatchesOf(first));
  }

  /** Over any run of ticks with unique node ids, the live store equals the snapshot of all the rows. */
  lemma {:induction false} LiveEqualsSnapshot(s: Setup, p: Pendings, ticks: seq<seq<RenderNode>>)
    requires UniqueIds(Flatten(ticks))
    requires forall j :: 0 <= j < |Flatten(ticks)| ==> !Anchors(p, Flatten(ticks)[j].row.id)
    ensures Live(s, p, ticks) == View(s, p, Flatten(ticks))
    decreases |ticks|
  {
    if ticks != [] {
      hide PairAll, NodesOf, PatchesOf, PatchAll, Anchors;
      var init, last := ticks[..|ticks| - 1], ticks[|ticks| - 1];
      assert ticks == init + [last];
      FlattenAppend(init, last);
      var all := Flatten(ticks);
      assert forall i :: 0 <= i < |Flatten(init)| ==> all[i] == Flatten(init)[i];
      assert forall j :: 0 <= j < |last| ==> all[|Flatten(init)| + j] == last[j];
      LiveEqualsSnapshot(s, p, init);
      TickIsSnapshot(s, p, Flatten(init), last);
    }
  }

  /** Every result candidate ends as one orphan node or one patch, and the patch's target is a call the
      stream emitted before it. */
  lemma {:induction false} PatchFollowsItsCall(s: Setup, cs: seq<RenderNode>, j: nat)
    requires j < |cs| && PairAll(s, CAP, [], cs).1[j].Patched?
    ensures cs[j].OrphanResult?
    ensures exists i :: 0 <= i < j && Fulfils(PairAll(s, CAP, [], cs).1[j].patch, cs[i], cs[j])
    decreases |cs|
  {
    hide Fulfils, PairOne;
    var n := |cs| - 1;
    var (before, outcomes) := PairAll(s, CAP, [], cs[..n]);
    if j < n {
      PatchFollowsItsCall(s, cs[..n], j);
      var i :| 0 <= i < j && Fulfils(outcomes[j].patch, cs[..n][i], cs[..n][j]);
      assert cs[i] == cs[..n][i] && cs[j] == cs[..n][j];
    } else {
      var e := PatchedEntry(s, before, cs[n]);
      var i := PendingEntryIsACall(s, cs[..n], e);
      assert cs[i] == cs[..n][i];
      PatchFulfils(s, before, cs[n], e, cs[i]);
    }
  }

  lemma PatchedEntry(s: Setup, p: Pendings, c: RenderNode) returns (e: nat)
    requires PairOne(s, CAP, p, c).1.Patched?
    ensures c.OrphanResult? && e < |p| && p[e] == Entry(c.resultToolUseId, Get(p, c.resultToolUseId).value)
  {
    hide Completed;
    e :| 0 <= e < |p| && p[e] == Entry(c.resultToolUseId, Get(p, c.resultToolUseId).value);
  }

  lemma PatchFulfils(s: Setup, p: Pendings, c: RenderNode, e: nat, call: RenderNode)
    requires PairOne(s, CAP, p, c).1.Patched?
    requires c.OrphanResult? && e < |p| && p[e] == Entry(c.resultToolUseId, Get(p, c.resultToolUseId).value)
    requires Remembers(p[e].value, call) && call.toolUseId == Some(p[e].key)
    ensures Fulfils(PairOne(s, CAP, p, c).1.patch, call, c)
  {
    CompletionCarriesBothHalves(s.enc, p[e].value, c);
    hide Completed;
  }

  /** The patch targets `call`, and its node is that call finished with `result`. */
  predicate Fulfils(patch: Patch, call: RenderNode, result: RenderNode) {
    && call.Tool? && result.OrphanResult? && call.toolUseId == Some(result.resultToolUseId)
    && patch.ResultPatch? && patch.id == call.row.id && patch.node.Tool? && patch.node.row == call.row && patch.node.name == call.name
    && patch.node.call == call.call && patch.node.resultAnchor == Some(result.orphanAnchor)
    && patch.node.state == (if result.orphan.TextResult? && result.orphan.isError then Error else Ok)
  }

  lemma {:induction false} PendingEntryIsACall(s: Setup, cs: seq<RenderNode>, e: nat) returns (i: nat)
    requires e < |PairAll(s, CAP, [], cs).0|
    ensures i < |cs| && cs[i].Tool? && cs[i].toolUseId == Some(PairAll(s, CAP, [], cs).0[e].key)
    ensures Remembers(PairAll(s, CAP, [], cs).0[e].value, cs[i])
    decreases |cs|
  {
    var n := |cs| - 1;
    var before := PairAll(s, CAP, [], cs[..n]).0;
    var isNew, k := EntryAfterStep(s, before, cs[n], e);
    if isNew {
      i := n;
    } else {
      hide PairOne;
      i := PendingEntryIsACall(s, cs[..n], k);
    }
  }

  /** An entry pending after a candidate was pending before it, or is that candidate's own call. */
  lemma EntryAfterStep(s: Setup, p: Pendings, c: RenderNode, e: nat) returns (isNew: bool, k: nat)
    requires e < |PairOne(s, CAP, p, c).0|
    ensures if isNew then c.Tool? && c.toolUseId == Some(PairOne(s, CAP, p, c).0[e].key)
                          && Remembers(PairOne(s, CAP, p, c).0[e].value, c)
            else k < |p| && p[k] == PairOne(s, CAP, p, c).0[e]
  {
    hide Get, Completed, Set, Delete, PendingOf;
    var after := PairOne(s, CAP, p, c).0;
    if c.Tool? && c.toolUseId.Some? {
      var entry := CallEntry(s, c);
      var grown := Set(p, entry.key, entry.value);
      k := |grown| - |after| + e;
      assert after[e] == grown[k];
      if Has(p, entry.key) {
        var at := SetOfPresentKeyReplaces(p, entry.key, entry.value);
        isNew := k == at;
      } else {
        SetOfAbsentKeyAppends(p, entry.key, entry.value);
        isNew := k == |p|;
      }
    } else if c.OrphanResult? && Has(p, c.resultToolUseId) {
      var at := DeleteRemovesOne(p, c.resultToolUseId);
      isNew, k := false, if e < at then e else e + 1;
    } else {
      isNew, k := false, e;
    }
  }

  function CallEntry(s: Setup, c: RenderNode): (e: Entry<string, PendingCall>)
    requires c.Tool? && c.toolUseId.Some?
    ensures e.key == c.toolUseId.value && e.value == PendingOf(WithAgentId(c, s.taskAgentIds))
    ensures Remembers(e.value, c)
  {
    Entry(c.toolUseId.value, PendingOf(WithAgentId(c, s.taskAgentIds)))
  }

  lemma {:induction false} PendingStaysDistinct(s: Setup, cs: seq<RenderNode>)
    ensures Distinct(PairAll(s, CAP, [], cs).0)
    decreases |cs|
  {
    if cs != [] {
      hide Get, Completed, Set, Delete, PendingOf;
      var n := |cs| - 1;
      PendingStaysDistinct(s, cs[..n]);
      var before := PairAll(s, CAP, [], cs[..n]).0;
      if cs[n].Tool? && cs[n].toolUseId.Some? {
        var entry := CallEntry(s, cs[n]);
        SetKeepsDistinct(before, entry.key, entry.value);
        TailIsDistinct(Set(before, entry.key, entry.value), PairAll(s, CAP, [], cs).0);
      } else if cs[n].OrphanResult? {
        DeleteKeepsDistinct(before, cs[n].resultToolUseId);
      }
    }
  }

  lemma TailIsDistinct(p: Pendings, tail: Pendings)
    requires Distinct(p) && IsSuffix(tail, p)
    ensures Distinct(tail)
  {
    forall i, j | 0 <= i < j < |tail| ensures tail[i].key != tail[j].key {
      assert tail[i] == p[|p| - |tail| + i] && tail[j] == p[|p| - |tail| + j];
    }
  }

  /** Once its result has arrived a call is out of the map for good. */
  lemma {:induction false} PatchedCallIsGone(s: Setup, cs: seq<RenderNode>, j: nat)
    requires UniqueIds(cs) && j < |cs| && PairAll(s, CAP, [], cs).1[j].Patched?
    ensures !Anchors(PairAll(s, CAP, [], cs).0, PairAll(s, CAP, [], cs).1[j].patch.id)
    decreases |cs|
  {
    var n := |cs| - 1;
    var (before, outcomes) := PairAll(s, CAP, [], cs[..n]);
    if j < n {
      PatchedCallIsGone(s, cs[..n], j);
      PatchFollowsItsCall(s, cs, j);
      StepAnchors(s, before, cs[n], outcomes[j].patch.id);
    } else {
      CompletedCallLeaves(s, cs[..n], cs[n].resultToolUseId);
    }
  }

  lemma CompletedCallLeaves(s: Setup, cs: seq<RenderNode>, id: string)
    requires UniqueIds(cs) && Has(PairAll(s, CAP, [], cs).0, id)
    ensures var p := PairAll(s, CAP, [], cs).0;
      !Anchors(Delete(p, id), Get(p, id).value.row.id)
  {
    var p := PairAll(s, CAP, [], cs).0;
    PendingStaysDistinct(s, cs);
    var at := DeleteRemovesOne(p, id);
    GetIsTheEntry(p, at);
    hide PairAll, Get, Delete, Has, UniqueIds;
    var after := p[..at] + p[at + 1..];
    forall e | 0 <= e < |after| ensures after[e].value.row.id != p[at].value.row.id {
      var back := if e < at then e else e + 1;
      assert after[e] == p[back] && p[back].key != p[at].key;
      EntriesShowTheirOwnCalls(s, cs, at, back);
    }
  }

  lemma EntriesShowTheirOwnCalls(s: Setup, cs: seq<RenderNode>, a: nat, b: nat)
    requires var p := PairAll(s, CAP, [], cs).0;
      UniqueIds(cs) && a < |p| && b < |p| && p[a].key != p[b].key
    ensures PairAll(s, CAP, [], cs).0[a].value.row.id != PairAll(s, CAP, [], cs).0[b].value.row.id
  {
    hide PairAll;
    var i := PendingEntryIsACall(s, cs, a);
    var j := PendingEntryIsACall(s, cs, b);
  }

  /** No call is completed twice. */
  lemma EachCallIsCompletedOnce(s: Setup, cs: seq<RenderNode>, i: nat, j: nat)
    requires UniqueIds(cs) && i < j < |cs|
    requires PairAll(s, CAP, [], cs).1[i].Patched? && PairAll(s, CAP, [], cs).1[j].Patched?
    ensures PairAll(s, CAP, [], cs).1[i].patch.id != PairAll(s, CAP, [], cs).1[j].patch.id
  {
    var n := |cs| - 1;
    var (before, outcomes) := PairAll(s, CAP, [], cs[..n]);
    if j < n {
      EachCallIsCompletedOnce(s, cs[..n], i, j);
    } else {
      PatchedCallIsGone(s, cs[..n], i);
      PatchFollowsItsCall(s, cs, i);
      StepAnchors(s, before, cs[n], outcomes[i].patch.id);
    }
  }
}
