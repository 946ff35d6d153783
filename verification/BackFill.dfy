/** Loading earlier pages into the viewer: the orphans the client holds are completed from the page and
    removed (viewer/core/window.ts, viewer/client/src/rowStore.ts). */
module BackFill {
  import opened Collections
  import opened JsMap
  import opened Nodes
  import opened CompletedTool
  import opened Pairing
  import opened BoundedPairing
  import opened LiveView
  import opened PairingByPosition

  /** The client's bound on its window. */
  const WINDOW_CAP: nat := 2000

  /** The tool ids of the orphans among the nodes, in order. */
  function OrphansOf(nodes: seq<RenderNode>): (ids: seq<string>)
    ensures forall id :: id in ids <==> HoldsOrphan(nodes, id)
  {
    if nodes == [] then []
    else
      var n := |nodes| - 1;
      assert forall id :: HoldsOrphan(nodes, id) <==> HoldsOrphan(nodes[..n], id) || IsResult(nodes[n], id) by {
        HoldsOneMore(nodes);
      }
      OrphansOf(nodes[..n]) + if nodes[n].OrphanResult? then [nodes[n].resultToolUseId] else []
  }

  predicate HoldsOrphan(nodes: seq<RenderNode>, id: string) {
    exists k :: 0 <= k < |nodes| && IsResult(nodes[k], id)
  }

  lemma HoldsOneMore(nodes: seq<RenderNode>)
    requires nodes != []
    ensures var n := |nodes| - 1;
      forall id :: HoldsOrphan(nodes, id) <==> HoldsOrphan(nodes[..n], id) || IsResult(nodes[n], id)
  {
    hide IsResult;
    var n := |nodes| - 1;
    forall id | HoldsOrphan(nodes[..n], id) ensures HoldsOrphan(nodes, id) {
      var k :| 0 <= k < n && IsResult(nodes[..n][k], id);
      assert IsResult(nodes[k], id);
    }
    forall id | HoldsOrphan(nodes, id) && !IsResult(nodes[n], id) ensures HoldsOrphan(nodes[..n], id) {
      var k :| 0 <= k < |nodes| && IsResult(nodes[k], id);
      assert nodes[..n][k] == nodes[k];
    }
  }

  method OrphanToolUseIds(nodes: seq<RenderNode>) returns (ids: seq<string>)
    ensures ids == OrphansOf(nodes)
  {
    ids := [];
    for i := 0 to |nodes|
      invariant ids == OrphansOf(nodes[..i])
    {
      assert nodes[..i + 1][..i] == nodes[..i];
      if nodes[i].OrphanResult? {
        ids := ids + [nodes[i].resultToolUseId];
      }
    }
    assert nodes[..|nodes|] == nodes;
  }

  // ----- completing the page

  type Index = seq<Entry<string, int>>

  predicate IsWanted(n: RenderNode, orphans: seq<string>) {
    n.Tool? && n.state == Pending && n.toolUseId.Some? && n.toolUseId.value in orphans
  }

  /** Where the wanted calls stand in the window. */
  function PendingIndex(w: seq<RenderNode>, orphans: seq<string>): (idx: Index)
    ensures PointsInto(idx, w)
    ensures orphans == [] ==> idx == []
  {
    if w == [] then []
    else
      var n := |w| - 1;
      var before := PendingIndex(w[..n], orphans);
      if IsWanted(w[n], orphans) then
        PointsFurther(before, w, w[n].toolUseId.value);
        Set(before, w[n].toolUseId.value, n)
      else before
  }

  /** Every key stands once, with the position of a call of that id. */
  predicate PointsInto(idx: Index, w: seq<RenderNode>) {
    Distinct(idx) && forall e :: e in idx ==> 0 <= e.value < |w| && IsCall(w[e.value], e.key)
  }

  lemma PointsFurther(idx: Index, w: seq<RenderNode>, id: string)
    requires w != [] && PointsInto(idx, w[..|w| - 1]) && IsCall(w[|w| - 1], id)
    ensures PointsInto(Set(idx, id, |w| - 1), w)
  {
    hide IsCall;
    SetKeepsDistinct(idx, id, |w| - 1);
    if Has(idx, id) {
      var i := SetOfPresentKeyReplaces(idx, id, |w| - 1);
    } else {
      SetOfAbsentKeyAppends(idx, id, |w| - 1);
    }
  }

  /** The call with the result the tail has for it, or as it is. */
  function Finished(enc: Encoder, n: RenderNode, tail: seq<RenderNode>): (r: RenderNode)
    requires n.Tool? && n.toolUseId.Some?
  {
    match FirstResult(tail, n.toolUseId.value, 0)
    case Some(j) => Completed(enc, PendingOf(n), tail[j])
    case None => n
  }

  function FinishAll(enc: Encoder, w: seq<RenderNode>, idx: Index, tail: seq<RenderNode>): (r: seq<RenderNode>)
    requires PointsInto(idx, w)
    ensures |r| == |w|
  {
    if idx == [] then w
    else
      var m := |idx| - 1;
      FinishAll(enc, w, idx[..m], tail)[idx[m].value := Finished(enc, w[idx[m].value], tail)]
  }

  function Removals(idx: Index, tail: seq<RenderNode>): (ps: seq<Patch>) {
    if idx == [] then []
    else
      var m := |idx| - 1;
      Removals(idx[..m], tail) +
      match FirstResult(tail, idx[m].key, 0)
      case Some(j) => [RemovePatch(tail[j].row.id)]
      case None => []
  }

  lemma {:induction false} FinishAllAt(enc: Encoder, w: seq<RenderNode>, idx: Index, tail: seq<RenderNode>, k: nat)
    requires PointsInto(idx, w) && k < |w|
    ensures FinishAll(enc, w, idx, tail)[k] ==
            if w[k].Tool? && w[k].toolUseId.Some? && Entry(w[k].toolUseId.value, k) in idx then Finished(enc, w[k], tail)
            else w[k]
    decreases |idx|
  {
    hide Finished;
    if idx != [] {
      var m := |idx| - 1;
      assert idx == idx[..m] + [idx[m]];
      FinishAllAt(enc, w, idx[..m], tail, k);
      assert idx[m] in idx;
    }
  }

  /** Each wanted call is completed by the pairing the live path uses, and its orphan is to be removed: the
      two always go together. */
  method CompleteBackfillOrphans(enc: Encoder, tail: seq<RenderNode>, windowNodes: seq<RenderNode>, orphans: seq<string>)
    returns (nodes: seq<RenderNode>, patches: seq<Patch>)
    ensures nodes == FinishAll(enc, windowNodes, PendingIndex(windowNodes, orphans), tail)
    ensures patches == Removals(PendingIndex(windowNodes, orphans), tail)
  {
    nodes, patches := windowNodes, [];
    if orphans == [] {
      return;
    }
    var pendingIndex := IndexPending(windowNodes, orphans);
    if pendingIndex == [] {
      return;
    }
    var found := ScanTail(tail, pendingIndex);
    hide Completed, PendingIndex, PairAll, PatchesOf, NodesOf, PointsInto, FinishAll, Removals, FirstResult, PendingOf;
    NothingFinished(enc, windowNodes, tail);
    assert pendingIndex[..0] == [];
    for m := 0 to |pendingIndex|
      invariant PointsInto(pendingIndex[..m], windowNodes)
      invariant nodes == FinishAll(enc, windowNodes, pendingIndex[..m], tail)
      invariant patches == Removals(pendingIndex[..m], tail)
    {
      IndexPrefix(pendingIndex, windowNodes, m);
      var e := pendingIndex[m];
      OneMoreFinished(enc, windowNodes, pendingIndex, tail, m);
      if e.key in found {
        var j := FirstResult(tail, e.key, 0).value;
        var orphan := found[e.key];
        PairOfTwo(Setup(enc, map[]), nodes[e.value], orphan);
        var pairState := new PairState();
        var _, completions := pairState.Pair(Setup(enc, map[]), [nodes[e.value], orphan]);
        nodes := nodes[e.value := completions[0].node];
        patches := patches + [RemovePatch(orphan.row.id)];
      }
    }
    assert pendingIndex[..|pendingIndex|] == pendingIndex;
  }

  lemma IndexPrefix(idx: Index, w: seq<RenderNode>, m: nat)
    requires PointsInto(idx, w) && m < |idx|
    ensures PointsInto(idx[..m], w) && PointsInto(idx[..m + 1], w)
    ensures 0 <= idx[m].value < |w| && IsCall(w[idx[m].value], idx[m].key)
  {
    assert idx[m] in idx;
    hide IsCall;
  }

  lemma NothingFinished(enc: Encoder, w: seq<RenderNode>, tail: seq<RenderNode>)
    ensures PointsInto([], w) && FinishAll(enc, w, [], tail) == w && Removals([], tail) == []
  {
  }

  lemma OneMoreFinished(enc: Encoder, w: seq<RenderNode>, idx: Index, tail: seq<RenderNode>, m: nat)
    requires PointsInto(idx, w) && m < |idx| && PointsInto(idx[..m], w) && PointsInto(idx[..m + 1], w)
    requires 0 <= idx[m].value < |w| && IsCall(w[idx[m].value], idx[m].key)
    ensures var before, first := FinishAll(enc, w, idx[..m], tail), FirstResult(tail, idx[m].key, 0);
      var call := w[idx[m].value];
      && before[idx[m].value] == call
      && FinishAll(enc, w, idx[..m + 1], tail) ==
           (if first.Some? then before[idx[m].value := Completed(enc, PendingOf(call), tail[first.value])] else before)
      && Removals(idx[..m + 1], tail) ==
           Removals(idx[..m], tail) + (if first.Some? then [RemovePatch(tail[first.value].row.id)] else [])
  {
    hide Completed, FirstResult;
    NotYetFinished(enc, w, idx, tail, m);
    assert idx[..m + 1][..m] == idx[..m];
  }

  lemma NotYetFinished(enc: Encoder, w: seq<RenderNode>, idx: Index, tail: seq<RenderNode>, m: nat)
    requires PointsInto(idx, w) && m < |idx| && PointsInto(idx[..m], w)
    ensures 0 <= idx[m].value < |w| && FinishAll(enc, w, idx[..m], tail)[idx[m].value] == w[idx[m].value]
  {
    hide Finished, FinishAll;
    assert idx[m] in idx;
    FinishAllAt(enc, w, idx[..m], tail, idx[m].value);
    forall e | e in idx[..m] ensures e.key != idx[m].key {
      var i :| 0 <= i < m && idx[..m][i] == e;
    }
  }

  /** Pairing a call with its result alone gives the one completion patch. */
  lemma PairOfTwo(s: Setup, call: RenderNode, result: RenderNode)
    requires call.Tool? && call.toolUseId.Some? && IsResult(result, call.toolUseId.value) && s.taskAgentIds == map[]
    ensures PatchesOf(PairAll(s, CAP, [], [call, result]).1) ==
            [ResultPatch(call.row.id, Completed(s.enc, PendingOf(call), result))]
  {
    var patch := ResultPatch(call.row.id, Completed(s.enc, PendingOf(call), result));
    var outcomes := [Emitted(call), Patched(patch)];
    CallThenResult(s, call, result);
    hide *;
    PairAllAppend(s, CAP, [], [], call);
    PairAllAppend(s, CAP, [], [call], result);
    assert [] + [call] == [call] && [call] + [result] == [call, result];
    assert PairAll(s, CAP, [], []) == ([], []) by { NothingPairs(s); }
    assert [] + [Emitted(call)] == [Emitted(call)] && [Emitted(call)] + [Patched(patch)] == outcomes;
    OnePatch(Emitted(call), Patched(patch));
  }

  lemma CallThenResult(s: Setup, call: RenderNode, result: RenderNode)
    requires call.Tool? && call.toolUseId.Some? && IsResult(result, call.toolUseId.value) && s.taskAgentIds == map[]
    ensures var entry := Entry(call.toolUseId.value, PendingOf(call));
      && PairOne(s, CAP, [], call) == ([entry], Emitted(call))
      && PairOne(s, CAP, [entry], result).1 ==
           Patched(ResultPatch(call.row.id, Completed(s.enc, PendingOf(call), result)))
  {
    var entry := Entry(call.toolUseId.value, PendingOf(call));
    CallAlone(s, call);
    hide Completed, PendingOf;
    assert Get([entry], entry.key) == Some(entry.value);
    hide Set, Get, Delete;
  }

  lemma CallAlone(s: Setup, call: RenderNode)
    requires call.Tool? && call.toolUseId.Some? && s.taskAgentIds == map[]
    ensures PairOne(s, CAP, [], call) == ([Entry(call.toolUseId.value, PendingOf(call))], Emitted(call))
  {
    hide Completed, PendingOf, Get, Delete, Set;
    FirstEntry(call.toolUseId.value, PendingOf(call));
    assert WithAgentId(call, s.taskAgentIds) == call;
    hide WithAgentId;
    OneEntryFits([Entry(call.toolUseId.value, PendingOf(call))]);
    hide Bounded;
  }

  lemma FirstEntry<V>(key: string, value: V)
    ensures Set([], key, value) == [Entry(key, value)]
  {
  }

  lemma OneEntryFits(p: Pendings)
    requires |p| == 1
    ensures Bounded(p, CAP) == p
  {
  }

  lemma NothingPairs(s: Setup)
    ensures PairAll(s, CAP, [], []) == ([], [])
  {
  }

  lemma OnePatch(first: Outcome, second: Outcome)
    requires first.Emitted? && second.Patched?
    ensures PatchesOf([first, second]) == [second.patch]
  {
    assert [] + [first] == [first] && [first] + [second] == [first, second];
    OutcomesAppend([], first);
    OutcomesAppend([first], second);
  }

  method IndexPending(windowNodes: seq<RenderNode>, orphans: seq<string>) returns (idx: Index)
    ensures idx == PendingIndex(windowNodes, orphans)
  {
    idx := [];
    for i := 0 to |windowNodes|
      invariant idx == PendingIndex(windowNodes[..i], orphans)
    {
      assert windowNodes[..i + 1][..i] == windowNodes[..i];
      if IsWanted(windowNodes[i], orphans) {
        idx := Set(idx, windowNodes[i].toolUseId.value, i);
      }
    }
    assert windowNodes[..|windowNodes|] == windowNodes;
  }

  /** The first result in the tail for each indexed call. */
  method ScanTail(tail: seq<RenderNode>, idx: Index) returns (found: map<string, RenderNode>)
    ensures forall id :: id in found <==> Has(idx, id) && FirstResult(tail, id, 0).Some?
    ensures forall id :: id in found ==> found[id] == tail[FirstResult(tail, id, 0).value]
  {
    found := map[];
    for i := 0 to |tail|
      invariant forall id :: id in found <==> Has(idx, id) && FirstResult(tail[..i], id, 0).Some?
      invariant forall id :: id in found ==> found[id] == tail[..i][FirstResult(tail[..i], id, 0).value]
    {
      assert tail[..i + 1] == tail[..i] + [tail[i]];
      forall id ensures FirstResult(tail[..i + 1], id, 0) ==
            if FirstResult(tail[..i], id, 0).Some? then FirstResult(tail[..i], id, 0)
            else if IsResult(tail[i], id) then Some(i) else None
      {
        FirstResultAppend(tail[..i], tail[i], id, 0);
      }
      hide FirstResult;
      if tail[i].OrphanResult? && Has(idx, tail[i].resultToolUseId) && tail[i].resultToolUseId !in found {
        found := found[tail[i].resultToolUseId := tail[i]];
      }
    }
    assert tail[..|tail|] == tail;
  }

  // ----- prepending the page

  /** The window keeps its oldest nodes, the ones just asked for. */
  function Oldest(nodes: seq<RenderNode>): (r: seq<RenderNode>)
    ensures r <= nodes && |r| <= WINDOW_CAP && (r != nodes ==> |r| == WINDOW_CAP)
  {
    if |nodes| > WINDOW_CAP then nodes[..WINDOW_CAP] else nodes
  }

  method PrependPage(held: seq<RenderNode>, page: seq<RenderNode>, patches: seq<Patch>)
    returns (nodes: seq<RenderNode>, following: bool)
    ensures UniqueIds(page + held) && (forall p :: p in patches ==> KeepsId(p)) ==>
              && nodes == Oldest(PatchAll(page + held, patches))
              && (following <==> |PatchAll(page + held, patches)| <= WINDOW_CAP)
  {
    ghost var wanted := UniqueIds(page + held);
    var unheld: seq<RenderNode> := [];
    for i := 0 to |page|
      invariant wanted ==> unheld == page[..i]
    {
      if wanted {
        PageIsNew(page, held, i);
      }
      if !HasNode(held, page[i].row.id) {
        unheld := unheld + [page[i]];
      }
      assert page[..i + 1] == page[..i] + [page[i]];
    }
    assert page[..|page|] == page;
    nodes := ApplyPatches(unheld + held, patches);
    following := |nodes| <= WINDOW_CAP;
    nodes := Oldest(nodes);
  }

  lemma PageIsNew(page: seq<RenderNode>, held: seq<RenderNode>, i: nat)
    requires UniqueIds(page + held) && i < |page|
    ensures !HasNode(held, page[i].row.id)
  {
    forall k | 0 <= k < |held| ensures held[k].row.id != page[i].row.id {
      assert (page + held)[i] == page[i] && (page + held)[|page| + k] == held[k];
    }
  }

  // ----- what is displayed

  lemma {:induction false} InFlatten<T>(parts: seq<seq<T>>, x: T) returns (k: nat)
    requires x in Flatten(parts)
    ensures k < |parts| && x in parts[k]
  {
    if x in parts[0] {
      k := 0;
    } else {
      k := InFlatten(parts[1..], x);
      k := k + 1;
    }
  }

  lemma {:induction false} PartIsInFlatten<T>(parts: seq<seq<T>>, k: nat, x: T)
    requires k < |parts| && x in parts[k]
    ensures x in Flatten(parts)
  {
    if k > 0 {
      PartIsInFlatten(parts[1..], k - 1, x);
    }
  }

  lemma DisplayedFrom(enc: Encoder, cs: seq<RenderNode>, n: RenderNode) returns (k: nat)
    requires n in Displayed(enc, cs)
    ensures k < |cs| && Shown(enc, cs, k) == [n] && n.row.id == cs[k].row.id
  {
    hide Shown, Flatten;
    k := InFlatten(Pieces(enc, cs), n);
    PiecesKeepIds(enc, cs, k);
  }

  /** What is displayed has unique ids too. */
  lemma {:induction false} DisplayedPrefixIsUnique(enc: Encoder, cs: seq<RenderNode>, n: nat)
    requires UniqueIds(cs) && n <= |cs|
    ensures UniqueIds(Flatten(Pieces(enc, cs)[..n]))
    ensures forall k :: n <= k < |cs| ==> !HasNode(Flatten(Pieces(enc, cs)[..n]), cs[k].row.id)
    decreases n
  {
    if n > 0 {
      hide Shown, UniqueIds, HasNode;
      var before, piece := Pieces(enc, cs)[..n - 1], Shown(enc, cs, n - 1);
      DisplayedPrefixIsUnique(enc, cs, n - 1);
      assert Pieces(enc, cs)[..n] == before + [piece];
      FlattenAppend(before, piece);
      PiecesKeepIds(enc, cs, n - 1);
      hide Pieces, Flatten;
      OneMorePiece(cs, Flatten(before), piece, n - 1);
    }
  }

  lemma OneMorePiece(cs: seq<RenderNode>, nodes: seq<RenderNode>, piece: seq<RenderNode>, n: nat)
    requires UniqueIds(cs) && UniqueIds(nodes) && n < |cs| && |piece| <= 1
    requires forall x :: x in piece ==> x.row.id == cs[n].row.id
    requires forall k :: n <= k < |cs| ==> !HasNode(nodes, cs[k].row.id)
    ensures UniqueIds(nodes + piece)
    ensures forall k :: n < k < |cs| ==> !HasNode(nodes + piece, cs[k].row.id)
  {
    if piece == [] {
      assert nodes + piece == nodes;
    } else {
      assert piece[0] in piece && nodes + piece == nodes + [piece[0]];
      assert forall i :: 0 <= i < |nodes| ==> nodes[i].row.id != cs[n].row.id;
    }
  }

  lemma DisplayedIsUnique(enc: Encoder, cs: seq<RenderNode>)
    requires UniqueIds(cs)
    ensures UniqueIds(Displayed(enc, cs))
  {
    hide Shown, UniqueIds;
    DisplayedPrefixIsUnique(enc, cs, |cs|);
    assert Pieces(enc, cs)[..|cs|] == Pieces(enc, cs);
  }

  /** A shown node keeps its candidate's call. */
  lemma PieceKeepsCall(enc: Encoder, cs: seq<RenderNode>, k: nat, n: RenderNode)
    requires k < |cs| && Shown(enc, cs, k) == [n]
    ensures n.Tool? <==> cs[k].Tool?
    ensures n.Tool? ==> n.toolUseId == cs[k].toolUseId
    ensures !n.Tool? || n.state == Pending ==> n == cs[k]
  {
    hide Fitted, Claimed;
    if cs[k].Tool? && cs[k].toolUseId.Some? {
      var j := FirstResult(cs, cs[k].toolUseId.value, k + 1);
      if j.Some? {
        FittingKeepsIdentity(enc, Combined(PendingOf(cs[k]), cs[j.value]));
      }
    }
  }

  lemma DisplayedCallsAreDistinct(enc: Encoder, cs: seq<RenderNode>)
    requires IsTidy(cs)
    ensures DistinctCalls(Displayed(enc, cs))
  {
    hide Displayed, Shown;
    var w := Displayed(enc, cs);
    DisplayedIsUnique(enc, cs);
    forall i, j | 0 <= i < j < |w| && w[i].Tool? && w[i].toolUseId.Some?
      ensures !IsCall(w[j], w[i].toolUseId.value)
    {
      var k := DisplayedFrom(enc, cs, w[i]);
      var m := DisplayedFrom(enc, cs, w[j]);
      PieceKeepsCall(enc, cs, k, w[i]);
      PieceKeepsCall(enc, cs, m, w[j]);
      assert k != m;
      assert IsCall(cs[k], w[i].toolUseId.value);
    }
  }

  // ----- the page completed

  function FinishNode(enc: Encoder, orphans: seq<string>, tail: seq<RenderNode>, n: RenderNode): RenderNode {
    if IsWanted(n, orphans) then Finished(enc, n, tail) else n
  }

  function FinishNodes(enc: Encoder, orphans: seq<string>, tail: seq<RenderNode>, w: seq<RenderNode>): (r: seq<RenderNode>)
    ensures |r| == |w|
  {
    seq(|w|, i requires 0 <= i < |w| => FinishNode(enc, orphans, tail, w[i]))
  }

  function EachFinished(enc: Encoder, orphans: seq<string>, tail: seq<RenderNode>, ps: seq<seq<RenderNode>>)
    : (r: seq<seq<RenderNode>>)
    ensures |r| == |ps|
  {
    seq(|ps|, i requires 0 <= i < |ps| => FinishNodes(enc, orphans, tail, ps[i]))
  }

  lemma {:induction false} FinishFlatten(enc: Encoder, orphans: seq<string>, tail: seq<RenderNode>, ps: seq<seq<RenderNode>>)
    ensures FinishNodes(enc, orphans, tail, Flatten(ps)) == Flatten(EachFinished(enc, orphans, tail, ps))
  {
    hide FinishNode;
    if ps != [] {
      FinishFlatten(enc, orphans, tail, ps[1..]);
      assert EachFinished(enc, orphans, tail, ps)[1..] == EachFinished(enc, orphans, tail, ps[1..]);
      assert FinishNodes(enc, orphans, tail, ps[0] + Flatten(ps[1..])) ==
             FinishNodes(enc, orphans, tail, ps[0]) + FinishNodes(enc, orphans, tail, Flatten(ps[1..]));
    }
  }

  predicate IndexesWanted(idx: Index, w: seq<RenderNode>, orphans: seq<string>) {
    forall e :: e in idx ==> 0 <= e.value < |w| && IsWanted(w[e.value], orphans) && IsCall(w[e.value], e.key)
  }

  lemma {:induction false} IndexedAreWanted(w: seq<RenderNode>, orphans: seq<string>)
    ensures IndexesWanted(PendingIndex(w, orphans), w, orphans)
    decreases |w|
  {
    if w != [] {
      hide IsWanted, IndexesWanted;
      var n := |w| - 1;
      IndexedAreWanted(w[..n], orphans);
      var before := PendingIndex(w[..n], orphans);
      if IsWanted(w[n], orphans) {
        var id := CalledId(w[n], orphans);
        NewestIsWanted(before, w, orphans, id);
      } else {
        EarlierAreWanted(before, w, orphans);
      }
    }
  }

  lemma EarlierAreWanted(idx: Index, w: seq<RenderNode>, orphans: seq<string>)
    requires w != [] && IndexesWanted(idx, w[..|w| - 1], orphans)
    ensures IndexesWanted(idx, w, orphans)
  {
    hide IsWanted, IsCall;
  }

  lemma NewestIsWanted(idx: Index, w: seq<RenderNode>, orphans: seq<string>, id: string)
    requires w != [] && IndexesWanted(idx, w[..|w| - 1], orphans)
    requires IsWanted(w[|w| - 1], orphans) && IsCall(w[|w| - 1], id)
    ensures IndexesWanted(Set(idx, id, |w| - 1), w, orphans)
  {
    EarlierAreWanted(idx, w, orphans);
    hide IsWanted, IsCall;
    if Has(idx, id) {
      var i := SetOfPresentKeyReplaces(idx, id, |w| - 1);
    } else {
      SetOfAbsentKeyAppends(idx, id, |w| - 1);
    }
  }

  lemma CalledId(n: RenderNode, orphans: seq<string>) returns (id: string)
    requires IsWanted(n, orphans)
    ensures n.Tool? && n.toolUseId == Some(id) && IsCall(n, id) && id in orphans
  {
    id := n.toolUseId.value;
  }

  /** Of several wanted calls of one id the last is the one indexed. */
  lemma {:induction false} LastWantedIsIndexed(w: seq<RenderNode>, orphans: seq<string>, k: nat)
    requires k < |w| && IsWanted(w[k], orphans)
    requires forall j :: k < j < |w| && IsWanted(w[j], orphans) ==> w[j].toolUseId != w[k].toolUseId
    ensures Entry(w[k].toolUseId.value, k) in PendingIndex(w, orphans)
    decreases |w|
  {
    hide IsWanted;
    var n := |w| - 1;
    if k < n {
      LastWantedIsIndexed(w[..n], orphans, k);
    }
    if IsWanted(w[n], orphans) {
      var id := CalledId(w[n], orphans);
      SetIsOneEntry(PendingIndex(w[..n], orphans), id, n);
    }
  }

  lemma WantedAreIndexed(w: seq<RenderNode>, orphans: seq<string>, k: nat)
    requires DistinctCalls(w) && k < |w| && IsWanted(w[k], orphans)
    ensures Entry(w[k].toolUseId.value, k) in PendingIndex(w, orphans)
  {
    LastWantedIsIndexed(w, orphans, k);
  }

  /** With each id called once, the index finishes exactly the wanted calls. */
  lemma FinishAllFinishesTheWanted(enc: Encoder, w: seq<RenderNode>, orphans: seq<string>, tail: seq<RenderNode>)
    requires DistinctCalls(w)
    ensures FinishAll(enc, w, PendingIndex(w, orphans), tail) == FinishNodes(enc, orphans, tail, w)
  {
    hide Finished, FinishAll, PendingIndex, DistinctCalls, IsWanted;
    var idx := PendingIndex(w, orphans);
    IndexedAreWanted(w, orphans);
    forall k | 0 <= k < |w| ensures FinishAll(enc, w, idx, tail)[k] == FinishNode(enc, orphans, tail, w[k]) {
      FinishAllAt(enc, w, idx, tail, k);
      if IsWanted(w[k], orphans) {
        var id := CalledId(w[k], orphans);
        WantedAreIndexed(w, orphans, k);
      }
    }
  }

  /** Calls arrive pending, as row normalization makes them. */
  predicate AllPending(cs: seq<RenderNode>) {
    forall k :: 0 <= k < |cs| && cs[k].Tool? ==> cs[k].state == Pending
  }

  // ----- positions in two stretches

  lemma {:induction false} FirstResultConcat(a: seq<RenderNode>, b: seq<RenderNode>, id: string, from: nat)
    requires from <= |a|
    ensures FirstResult(a + b, id, from) ==
            if FirstResult(a, id, from).Some? then FirstResult(a, id, from)
            else match FirstResult(b, id, 0)
              case Some(j) => Some(|a| + j)
              case None => None
    decreases |a| - from
  {
    hide IsResult;
    if from == |a| {
      FirstResultShift(a, b, id, 0);
    } else {
      assert (a + b)[from] == a[from];
      FirstResultConcat(a, b, id, from + 1);
    }
  }

  lemma FirstResultShift(a: seq<RenderNode>, b: seq<RenderNode>, id: string, from: nat)
    requires from <= |b|
    ensures FirstResult(a + b, id, |a| + from) ==
            match FirstResult(b, id, from)
            case Some(j) => Some(|a| + j)
            case None => None
  {
    hide FirstResult, IsResult;
    var whole := a + b;
    assert forall k :: 0 <= k < |b| ==> whole[|a| + k] == b[k];
    var first, inB := FirstResult(whole, id, |a| + from), FirstResult(b, id, from);
    if first.Some? {
      assert whole[first.value] == b[first.value - |a|];
    }
  }

  lemma CallsAreApart(a: seq<RenderNode>, b: seq<RenderNode>, k: nat, id: string)
    requires IsTidy(a + b) && k < |a| && IsCall(a[k], id)
    ensures forall i :: 0 <= i < |b| ==> !IsCall(b[i], id)
  {
    forall i | 0 <= i < |b| ensures !IsCall(b[i], id) {
      assert (a + b)[k] == a[k] && (a + b)[|a| + i] == b[i];
    }
  }

  lemma PartsAreTidy(a: seq<RenderNode>, b: seq<RenderNode>)
    requires IsTidy(a + b)
    ensures IsTidy(a) && IsTidy(b)
    ensures forall i, j :: 0 <= i < |a| && 0 <= j < |b| ==> a[i].row.id != b[j].row.id
  {
    var whole := a + b;
    assert forall k :: 0 <= k < |a| ==> whole[k] == a[k];
    assert forall k :: 0 <= k < |b| ==> whole[|a| + k] == b[k];
    hide IsCall;
  }

  /** The result a call of the page waits for is among the orphans the client holds. */
  lemma AwaitedOrphanIsHeld(enc: Encoder, a: seq<RenderNode>, b: seq<RenderNode>, k: nat, id: string)
    requires IsTidy(a + b) && k < |a| && IsCall(a[k], id) && FirstResult(b, id, 0).Some?
    ensures id in OrphansOf(Displayed(enc, b))
  {
    var j := FirstResult(b, id, 0).value;
    CallsAreApart(a, b, k, id);
    assert !Claimed(b, j);
    assert Shown(enc, b, j) == [b[j]];
    hide Shown, OrphansOf, Flatten, FirstResult, IsTidy;
    var h := Displayed(enc, b);
    assert b[j] in Pieces(enc, b)[j];
    PartIsInFlatten(Pieces(enc, b), j, b[j]);
    var x :| 0 <= x < |h| && h[x] == b[j];
    assert HoldsOrphan(h, id);
  }

  /** A call of the page is shown in the whole as the completed page shows it. */
  lemma ShownInPage(enc: Encoder, a: seq<RenderNode>, b: seq<RenderNode>, k: nat)
    requires IsTidy(a + b) && AllPending(a) && k < |a|
    ensures Shown(enc, a + b, k) == FinishNodes(enc, OrphansOf(Displayed(enc, b)), b, Shown(enc, a, k))
  {
    hide Displayed, OrphansOf, IsTidy;
    assert (a + b)[k] == a[k];
    if a[k].Tool? && a[k].toolUseId.Some? {
      CallInPage(enc, a, b, k, a[k].toolUseId.value);
    } else {
      ClaimedInPage(a, b, k);
      hide FirstResult, Finished;
    }
  }

  lemma ClaimedInPage(a: seq<RenderNode>, b: seq<RenderNode>, k: nat)
    requires k < |a|
    ensures Claimed(a + b, k) <==> Claimed(a, k)
  {
    assert (a + b)[k] == a[k];
    if a[k].OrphanResult? {
      forall i | 0 <= i < k ensures Claims(a + b, i, k) <==> Claims(a, i, k) {
        assert (a + b)[i] == a[i];
        FirstResultConcat(a, b, a[k].resultToolUseId, i + 1);
      }
    }
  }

  lemma CallInPage(enc: Encoder, a: seq<RenderNode>, b: seq<RenderNode>, k: nat, id: string)
    requires IsTidy(a + b) && AllPending(a) && k < |a| && IsCall(a[k], id)
    ensures Shown(enc, a + b, k) == FinishNodes(enc, OrphansOf(Displayed(enc, b)), b, Shown(enc, a, k))
  {
    hide Displayed, OrphansOf, IsTidy, FirstResult, Fitted;
    var orphans := OrphansOf(Displayed(enc, b));
    assert (a + b)[k] == a[k];
    FirstResultConcat(a, b, id, k + 1);
    var j := FirstResult(a, id, k + 1);
    if j.Some? {
      assert (a + b)[j.value] == a[j.value];
      var done := Completed(enc, PendingOf(a[k]), a[j.value]);
      FittingKeepsIdentity(enc, Combined(PendingOf(a[k]), a[j.value]));
      assert FinishNode(enc, orphans, b, done) == done;
    } else {
      var m := FirstResult(b, id, 0);
      if m.Some? {
        assert (a + b)[|a| + m.value] == b[m.value];
        AwaitedOrphanIsHeld(enc, a, b, k, id);
      }
      hide Completed;
    }
  }

  // ----- the held window relieved of its orphans

  /** The `j`-th candidate of the tail is the first result in it for a call the page leaves waiting. */
  ghost predicate Relieved(a: seq<RenderNode>, b: seq<RenderNode>, j: nat)
    requires j < |b|
  {
    && b[j].OrphanResult? && FirstResult(b, b[j].resultToolUseId, 0) == Some(j)
    && exists k :: Waits(a, k, b[j].resultToolUseId)
  }

  lemma {:induction false} RemovalsAre(idx: Index, tail: seq<RenderNode>, q: Patch)
    ensures q in Removals(idx, tail) <==>
            exists e :: e in idx && FirstResult(tail, e.key, 0).Some?
                        && q == RemovePatch(tail[FirstResult(tail, e.key, 0).value].row.id)
    decreases |idx|
  {
    if idx != [] {
      hide FirstResult;
      var m := |idx| - 1;
      assert idx == idx[..m] + [idx[m]];
      RemovalsAre(idx[..m], tail, q);
    }
  }

  /** A call that is pending in the completed page's window waits in the page. */
  lemma PendingWaits(enc: Encoder, a: seq<RenderNode>, n: RenderNode, id: string) returns (k: nat)
    requires n in Displayed(enc, a) && IsCall(n, id) && n.state == Pending
    ensures Waits(a, k, id)
  {
    hide Displayed, FirstResult, Fitted;
    k := DisplayedFrom(enc, a, n);
    PieceKeepsCall(enc, a, k, n);
    var j := FirstResult(a, id, k + 1);
    if j.Some? {
      FittingKeepsIdentity(enc, Combined(PendingOf(a[k]), a[j.value]));
    }
  }

  lemma WaitingIsPending(enc: Encoder, a: seq<RenderNode>, k: nat, id: string)
    requires Waits(a, k, id) && AllPending(a)
    ensures a[k] in Displayed(enc, a) && IsCall(a[k], id) && a[k].state == Pending
  {
    hide FirstResult, Completed;
    assert Shown(enc, a, k) == [a[k]];
    hide Shown, Flatten;
    assert a[k] in Pieces(enc, a)[k];
    PartIsInFlatten(Pieces(enc, a), k, a[k]);
  }

  /** Exactly the relieved orphans are removed. */
  lemma RemovedExactlyTheRelieved(enc: Encoder, a: seq<RenderNode>, b: seq<RenderNode>, j: nat)
    requires IsTidy(a + b) && AllPending(a) && j < |b|
    ensures var idx := PendingIndex(Displayed(enc, a), OrphansOf(Displayed(enc, b)));
      RemovePatch(b[j].row.id) in Removals(idx, b) <==> Relieved(a, b, j)
  {
    hide Displayed, OrphansOf, FirstResult, PendingIndex, Removals, Waits;
    var w, orphans := Displayed(enc, a), OrphansOf(Displayed(enc, b));
    var idx := PendingIndex(w, orphans);
    RemovalsAre(idx, b, RemovePatch(b[j].row.id));
    PartsAreTidy(a, b);
    CallsOfTidy(b);
    hide IsTidy;
    IndexedAreWanted(w, orphans);
    if e :| e in idx && FirstResult(b, e.key, 0).Some?
            && RemovePatch(b[j].row.id) == RemovePatch(b[FirstResult(b, e.key, 0).value].row.id) {
      var first := FirstResult(b, e.key, 0).value;
      assert first == j;
      assert IsResult(b[j], e.key);
      var k := PendingWaits(enc, a, w[e.value], e.key);
    }
    if Relieved(a, b, j) {
      RelievedIsRemoved(enc, a, b, j);
    }
  }

  lemma RelievedIsRemoved(enc: Encoder, a: seq<RenderNode>, b: seq<RenderNode>, j: nat)
    requires IsTidy(a + b) && IsTidy(a) && AllPending(a) && j < |b| && Relieved(a, b, j)
    ensures var idx := PendingIndex(Displayed(enc, a), OrphansOf(Displayed(enc, b)));
      exists e :: e in idx && FirstResult(b, e.key, 0).Some?
                  && RemovePatch(b[j].row.id) == RemovePatch(b[FirstResult(b, e.key, 0).value].row.id)
  {
    hide Displayed, OrphansOf, FirstResult, PendingIndex, IsTidy, DistinctCalls, AllPending;
    var id := b[j].resultToolUseId;
    var w, orphans := Displayed(enc, a), OrphansOf(Displayed(enc, b));
    var k :| Waits(a, k, id);
    WaiterIsACall(a, k, id);
    WaitingIsPending(enc, a, k, id);
    AwaitedOrphanIsHeld(enc, a, b, k, id);
    var x :| 0 <= x < |w| && w[x] == a[k];
    DisplayedCallsAreDistinct(enc, a);
    WantedAreIndexed(w, orphans, x);
    assert Entry(id, x) in PendingIndex(w, orphans);
  }

  /** A candidate of the tail is shown in the whole as the relieved window shows it. */
  lemma ShownInTail(enc: Encoder, a: seq<RenderNode>, b: seq<RenderNode>, j: nat)
    requires j < |b|
    ensures Shown(enc, a + b, |a| + j) == if Relieved(a, b, j) then [] else Shown(enc, b, j)
  {
    hide Completed;
    assert (a + b)[|a| + j] == b[j];
    if b[j].Tool? && b[j].toolUseId.Some? {
      FirstResultShift(a, b, b[j].toolUseId.value, j + 1);
      var m := FirstResult(b, b[j].toolUseId.value, j + 1);
      if m.Some? {
        assert (a + b)[|a| + m.value] == b[m.value];
      }
    } else if b[j].OrphanResult? {
      ClaimedInTail(a, b, j);
    }
  }

  lemma ClaimedInTail(a: seq<RenderNode>, b: seq<RenderNode>, j: nat)
    requires j < |b| && b[j].OrphanResult?
    ensures Claimed(a + b, |a| + j) <==> Claimed(b, j) || Relieved(a, b, j)
  {
    hide Claims, Waits, FirstResult;
    var whole, at, id := a + b, |a| + j, b[j].resultToolUseId;
    assert whole[at] == b[j];
    if Claimed(whole, at) {
      var i :| 0 <= i < at && Claims(whole, i, at);
      if i < |a| {
        ClaimFromPage(a, b, i, j);
      } else {
        ClaimFromTail(a, b, i - |a|, j);
        assert Claims(b, i - |a|, j);
      }
    }
    if Claimed(b, j) {
      var i :| 0 <= i < j && Claims(b, i, j);
      ClaimFromTail(a, b, i, j);
    }
    if Relieved(a, b, j) {
      var k :| Waits(a, k, id);
      WaitsInRange(a, id);
      ClaimFromPage(a, b, k, j);
    }
  }

  lemma ClaimFromPage(a: seq<RenderNode>, b: seq<RenderNode>, i: nat, j: nat)
    requires i < |a| && j < |b| && b[j].OrphanResult? && (a + b)[|a| + j] == b[j]
    ensures Claims(a + b, i, |a| + j) <==>
            Waits(a, i, b[j].resultToolUseId) && FirstResult(b, b[j].resultToolUseId, 0) == Some(j)
  {
    assert (a + b)[i] == a[i];
    FirstResultConcat(a, b, b[j].resultToolUseId, i + 1);
  }

  lemma ClaimFromTail(a: seq<RenderNode>, b: seq<RenderNode>, i: nat, j: nat)
    requires i < j < |b| && b[j].OrphanResult? && (a + b)[|a| + j] == b[j]
    ensures Claims(a + b, |a| + i, |a| + j) <==> Claims(b, i, j)
  {
    assert (a + b)[|a| + i] == b[i];
    FirstResultShift(a, b, b[j].resultToolUseId, i + 1);
  }

  // ----- the two together

  function EachPatchedByAll(pieces: seq<seq<RenderNode>>, ps: seq<Patch>): (r: seq<seq<RenderNode>>)
    ensures |r| == |pieces|
  {
    seq(|pieces|, k requires 0 <= k < |pieces| => PatchAll(pieces[k], ps))
  }

  lemma {:induction false} PatchAllFlatten(pieces: seq<seq<RenderNode>>, ps: seq<Patch>)
    ensures PatchAll(Flatten(pieces), ps) == Flatten(EachPatchedByAll(pieces, ps))
  {
    if pieces == [] {
      NothingToPatch(ps);
    } else {
      PatchAllFlatten(pieces[1..], ps);
      PatchAllSplitsNodes(pieces[0], Flatten(pieces[1..]), ps);
      assert EachPatchedByAll(pieces, ps)[1..] == EachPatchedByAll(pieces[1..], ps);
    }
  }

  lemma {:induction false} NothingToPatch(ps: seq<Patch>)
    ensures PatchAll([], ps) == []
    decreases |ps|
  {
    if ps != [] {
      NothingToPatch(ps[..|ps| - 1]);
      NothingPatched(ps[|ps| - 1]);
    }
  }

  /** Removals take a piece out exactly when they name it. */
  lemma {:induction false} RemovalsOnAPiece(piece: seq<RenderNode>, id: string, ps: seq<Patch>)
    requires |piece| <= 1 && (forall n :: n in piece ==> n.row.id == id) && forall p :: p in ps ==> p.RemovePatch?
    ensures PatchAll(piece, ps) == if RemovePatch(id) in ps then [] else piece
    decreases |ps|
  {
    if ps != [] {
      var m := |ps| - 1;
      var init := ps[..m];
      assert ps == init + [ps[m]];
      RemovalsOnAPiece(piece, id, init);
      NothingPatched(ps[m]);
      hide PatchOne;
      if piece != [] {
        assert piece == [piece[0]] && piece[0] in piece;
        RemovalOfOne(piece[0], ps[m]);
      }
    }
  }

  lemma RemovalOfOne(n: RenderNode, p: Patch)
    requires p.RemovePatch?
    ensures PatchOne([n], p) == if p.id == n.row.id then [] else [n]
  {
    assert Without([n][1..], p.id) == [] && [n][0] == n;
  }

  lemma {:induction false} RemovalsRemove(idx: Index, tail: seq<RenderNode>)
    ensures forall p :: p in Removals(idx, tail) ==>
              p.RemovePatch? && exists j :: 0 <= j < |tail| && tail[j].OrphanResult? && tail[j].row.id == p.id
    decreases |idx|
  {
    if idx != [] {
      hide FirstResult;
      var m := |idx| - 1;
      RemovalsRemove(idx[..m], tail);
    }
  }

  lemma HeldIsRelieved(enc: Encoder, a: seq<RenderNode>, b: seq<RenderNode>)
    requires IsTidy(a + b) && AllPending(a)
    ensures var idx := PendingIndex(Displayed(enc, a), OrphansOf(Displayed(enc, b)));
      PatchAll(Displayed(enc, b), Removals(idx, b)) == Flatten(Pieces(enc, a + b)[|a|..])
  {
    hide Shown, OrphansOf, PendingIndex, Removals, PatchAll, Relieved, IsTidy, AllPending, Flatten;
    var idx := PendingIndex(Displayed(enc, a), OrphansOf(Displayed(enc, b)));
    var rem := Removals(idx, b);
    RemovalsRemove(idx, b);
    forall j | 0 <= j < |b| ensures PatchAll(Shown(enc, b, j), rem) == Shown(enc, a + b, |a| + j) {
      PiecesKeepIds(enc, b, j);
      RemovalsOnAPiece(Shown(enc, b, j), b[j].row.id, rem);
      RemovedExactlyTheRelieved(enc, a, b, j);
      ShownInTail(enc, a, b, j);
    }
    PatchAllFlatten(Pieces(enc, b), rem);
    assert EachPatchedByAll(Pieces(enc, b), rem) == Pieces(enc, a + b)[|a|..];
  }

  lemma PageIsFinished(enc: Encoder, a: seq<RenderNode>, b: seq<RenderNode>)
    requires IsTidy(a + b) && AllPending(a)
    ensures FinishNodes(enc, OrphansOf(Displayed(enc, b)), b, Displayed(enc, a)) == Flatten(Pieces(enc, a + b)[..|a|])
  {
    hide Shown, OrphansOf, IsTidy, AllPending, Flatten, FinishNode;
    var orphans := OrphansOf(Displayed(enc, b));
    forall k | 0 <= k < |a| ensures FinishNodes(enc, orphans, b, Shown(enc, a, k)) == Shown(enc, a + b, k) {
      ShownInPage(enc, a, b, k);
    }
    FinishFlatten(enc, orphans, b, Pieces(enc, a));
    assert EachFinished(enc, orphans, b, Pieces(enc, a)) == Pieces(enc, a + b)[..|a|];
  }

  // ----- the main results

  /** Loading one page on what is held. */
  function BackFilled(enc: Encoder, page: seq<RenderNode>, tail: seq<RenderNode>, held: seq<RenderNode>): seq<RenderNode> {
    var idx := PendingIndex(page, OrphansOf(held));
    PatchAll(FinishAll(enc, page, idx, tail) + held, Removals(idx, tail))
  }

  /** Back-fill is a snapshot: a page displayed alone, finished with the orphans of what is held and put in
      front of it relieved of them, is the display of both together. */
  lemma BackFillIsTheWhole(enc: Encoder, a: seq<RenderNode>, b: seq<RenderNode>)
    requires IsTidy(a + b) && AllPending(a)
    ensures BackFilled(enc, Displayed(enc, a), b, Displayed(enc, b)) == Displayed(enc, a + b)
  {
    hide Displayed, OrphansOf, PendingIndex, Removals, PatchAll, IsTidy, AllPending, Flatten, FinishAll, DistinctCalls;
    var w, held := Displayed(enc, a), Displayed(enc, b);
    var idx := PendingIndex(w, OrphansOf(held));
    PartsAreTidy(a, b);
    DisplayedCallsAreDistinct(enc, a);
    FinishAllFinishesTheWanted(enc, w, OrphansOf(held), b);
    PageIsFinished(enc, a, b);
    HeldIsRelieved(enc, a, b);
    var page := FinishAll(enc, w, idx, b);
    PatchAllSplitsNodes(page, held, Removals(idx, b));
    RemovalsMissThePage(enc, a, b, page, Removals(idx, b));
    WholeInTwo(enc, a, b);
  }

  // ----- a scan that ends early

  /** Every result a call of the page waits for stands in the part of the tail that was scanned. */
  ghost predicate ResultsAreScanned(a: seq<RenderNode>, scanned: seq<RenderNode>, b: seq<RenderNode>) {
    forall k, id :: Waits(a, k, id) && FirstResult(b, id, 0).Some? ==> FirstResult(b, id, 0).value < |scanned|
  }

  lemma FirstResultInPrefix(scanned: seq<RenderNode>, b: seq<RenderNode>, id: string)
    requires scanned <= b
    ensures FirstResult(scanned, id, 0) ==
            if FirstResult(b, id, 0).Some? && FirstResult(b, id, 0).value < |scanned| then FirstResult(b, id, 0) else None
  {
    assert b == scanned + b[|scanned|..];
    FirstResultConcat(scanned, b[|scanned|..], id, 0);
  }

  /** Where the two scans find the same results, they do the same. */
  lemma {:induction false} SameScan(enc: Encoder, w: seq<RenderNode>, idx: Index, scanned: seq<RenderNode>, b: seq<RenderNode>)
    requires PointsInto(idx, w) && scanned <= b
    requires forall e :: e in idx ==> FirstResult(scanned, e.key, 0) == FirstResult(b, e.key, 0)
    ensures FinishAll(enc, w, idx, scanned) == FinishAll(enc, w, idx, b)
    ensures Removals(idx, scanned) == Removals(idx, b)
    decreases |idx|
  {
    hide FirstResult, Completed;
    if idx != [] {
      var m := |idx| - 1;
      assert idx == idx[..m] + [idx[m]];
      SameScan(enc, w, idx[..m], scanned, b);
      assert idx[m] in idx && IsCall(w[idx[m].value], idx[m].key);
    }
  }

  lemma ScannedIsEnough(enc: Encoder, a: seq<RenderNode>, scanned: seq<RenderNode>, b: seq<RenderNode>)
    requires IsTidy(a + b) && AllPending(a) && scanned <= b && ResultsAreScanned(a, scanned, b)
    ensures BackFilled(enc, Displayed(enc, a), scanned, Displayed(enc, b)) ==
            BackFilled(enc, Displayed(enc, a), b, Displayed(enc, b))
  {
    hide Displayed, OrphansOf, PendingIndex, Removals, PatchAll, IsTidy, AllPending, FinishAll, FirstResult, Waits;
    var w, orphans := Displayed(enc, a), OrphansOf(Displayed(enc, b));
    var idx := PendingIndex(w, orphans);
    IndexedAreWanted(w, orphans);
    forall e | e in idx ensures FirstResult(scanned, e.key, 0) == FirstResult(b, e.key, 0) {
      var k := PendingWaits(enc, a, w[e.value], e.key);
      FirstResultInPrefix(scanned, b, e.key);
    }
    SameScan(enc, w, idx, scanned, b);
  }

  lemma {:induction false} WithoutKeepsOthers(nodes: seq<RenderNode>, id: string, n: RenderNode)
    requires n in nodes && n.row.id != id
    ensures n in Without(nodes, id)
  {
    if n != nodes[0] {
      WithoutKeepsOthers(nodes[1..], id, n);
    }
  }

  lemma {:induction false} SurvivesRemovals(nodes: seq<RenderNode>, ps: seq<Patch>, n: RenderNode)
    requires n in nodes && forall p :: p in ps ==> p.RemovePatch? && p.id != n.row.id
    ensures n in PatchAll(nodes, ps)
    decreases |ps|
  {
    if ps != [] {
      var m := |ps| - 1;
      assert ps == ps[..m] + [ps[m]];
      SurvivesRemovals(nodes, ps[..m], n);
      WithoutKeepsOthers(PatchAll(nodes, ps[..m]), ps[m].id, n);
    }
  }

  /** A call whose result the scan did not reach is still pending afterwards. */
  lemma UnscannedStaysPending(enc: Encoder, a: seq<RenderNode>, scanned: seq<RenderNode>, b: seq<RenderNode>, k: nat, id: string)
    requires IsTidy(a + b) && AllPending(a) && scanned <= b && Waits(a, k, id) && FirstResult(scanned, id, 0).None?
    ensures a[k] in BackFilled(enc, Displayed(enc, a), scanned, Displayed(enc, b))
  {
    hide Displayed, OrphansOf, PendingIndex, Removals, PatchAll, IsTidy, AllPending, FinishAll, FirstResult, Waits;
    var w, held := Displayed(enc, a), Displayed(enc, b);
    var idx := PendingIndex(w, OrphansOf(held));
    WaitsInRange(a, id);
    WaitingIsPending(enc, a, k, id);
    var x :| 0 <= x < |w| && w[x] == a[k];
    FinishAllAt(enc, w, idx, scanned, x);
    var page := FinishAll(enc, w, idx, scanned);
    assert page[x] == a[k];
    assert (page + held)[x] == a[k];
    RemovalsRemove(idx, scanned);
    PartsAreTidy(a, b);
    forall p | p in Removals(idx, scanned) ensures p.id != a[k].row.id {
      var j :| 0 <= j < |scanned| && scanned[j].row.id == p.id;
      assert scanned[j] == b[j];
    }
    SurvivesRemovals(page + held, Removals(idx, scanned), a[k]);
  }

  lemma CompletedIsNotPending(enc: Encoder, a: seq<RenderNode>, b: seq<RenderNode>, k: nat, id: string)
    requires IsTidy(a + b) && AllPending(a) && Waits(a, k, id) && FirstResult(b, id, 0).Some?
    ensures a[k] !in Displayed(enc, a + b)
  {
    hide Displayed, FirstResult, Fitted;
    assert (a + b)[k] == a[k];
    FirstResultConcat(a, b, id, k + 1);
    var j := FirstResult(a + b, id, k + 1);
    FittingKeepsIdentity(enc, Combined(PendingOf(a[k]), (a + b)[j.value]));
    CallsOfTidy(a + b);
    assert forall m :: 0 <= m < |a + b| && (a + b)[m].row.id == a[k].row.id ==> m == k;
    if a[k] in Displayed(enc, a + b) {
      var m := DisplayedFrom(enc, a + b, a[k]);
    }
  }

  /** A scan that ends early is enough exactly when it reaches every result a call of the page waits for. */
  lemma BackFillIsTheWholeExactlyWhenScanned(enc: Encoder, a: seq<RenderNode>, scanned: seq<RenderNode>, b: seq<RenderNode>)
    requires IsTidy(a + b) && AllPending(a) && scanned <= b
    ensures BackFilled(enc, Displayed(enc, a), scanned, Displayed(enc, b)) == Displayed(enc, a + b) <==>
            ResultsAreScanned(a, scanned, b)
  {
    hide Displayed, BackFilled, FirstResult, Waits, IsTidy, AllPending;
    if ResultsAreScanned(a, scanned, b) {
      ScannedIsEnough(enc, a, scanned, b);
      BackFillIsTheWhole(enc, a, b);
    } else {
      var k, id :| Waits(a, k, id) && FirstResult(b, id, 0).Some? && FirstResult(b, id, 0).value >= |scanned|;
      WaitsInRange(a, id);
      FirstResultInPrefix(scanned, b, id);
      UnscannedStaysPending(enc, a, scanned, b, k, id);
      CompletedIsNotPending(enc, a, b, k, id);
    }
  }

  /** What one request leaves pending no later one completes: the call is no longer in the page, and only the
      page's calls are finished. */
  lemma HeldCallStaysAsItIs(enc: Encoder, page: seq<RenderNode>, scanned: seq<RenderNode>, held: seq<RenderNode>, call: RenderNode)
    requires call in held && forall j :: 0 <= j < |scanned| && scanned[j].OrphanResult? ==> scanned[j].row.id != call.row.id
    ensures call in BackFilled(enc, page, scanned, held)
  {
    hide PendingIndex, OrphansOf, FinishAll, Removals, PatchAll, FirstResult;
    var idx := PendingIndex(page, OrphansOf(held));
    RemovalsRemove(idx, scanned);
    SurvivesRemovals(FinishAll(enc, page, idx, scanned) + held, Removals(idx, scanned), call);
  }

  lemma WholeInTwo(enc: Encoder, a: seq<RenderNode>, b: seq<RenderNode>)
    ensures Flatten(Pieces(enc, a + b)[..|a|]) + Flatten(Pieces(enc, a + b)[|a|..]) == Displayed(enc, a + b)
  {
    hide Shown, Flatten;
    var pieces := Pieces(enc, a + b);
    FlattenConcat(pieces[..|a|], pieces[|a|..]);
    assert pieces == pieces[..|a|] + pieces[|a|..];
  }

  lemma RemovalsMissThePage(enc: Encoder, a: seq<RenderNode>, b: seq<RenderNode>, page: seq<RenderNode>, rem: seq<Patch>)
    requires IsTidy(a + b) && page == Flatten(Pieces(enc, a + b)[..|a|])
    requires exists idx :: rem == Removals(idx, b)
    ensures PatchAll(page, rem) == page
  {
    hide Shown, Removals, PatchAll, IsTidy, Flatten;
    var idx :| rem == Removals(idx, b);
    RemovalsRemove(idx, b);
    PartsAreTidy(a, b);
    forall p | p in rem ensures !HasNode(page, p.id) {
      var j :| 0 <= j < |b| && b[j].row.id == p.id;
      forall i | 0 <= i < |page| ensures page[i].row.id != p.id {
        assert page[i] in page;
        var k := InFlatten(Pieces(enc, a + b)[..|a|], page[i]);
        PiecesKeepIds(enc, a + b, k);
        assert (a + b)[k] == a[k];
      }
    }
    ForeignPatchesDoNothing(page, rem);
  }

  /** At no point of the stream are more calls outstanding than the map can hold. */
  ghost predicate WithinCap(s: Setup, cs: seq<RenderNode>) {
    forall n :: 0 <= n <= |cs| ==> |PairAll(s, None, [], cs[..n]).0| <= PENDING_CAP
  }

  lemma WithinCapIsIdeal(s: Setup, cs: seq<RenderNode>)
    requires WithinCap(s, cs)
    ensures View(s, [], cs).1 == IdealView(s, cs)
  {
    NothingEvictedWhileWithinCap(s, PENDING_CAP, [], cs);
    hide PairAll, PatchAll, NodesOf, PatchesOf;
  }

  /** One request of the client: the page is paired alone, the orphans held are completed in it from what is
      scanned of the tail, and the page is prepended. On top of a tail shown as the unbounded machine shows it,
      the result is the oldest 2000 nodes of what that machine shows of both, provided the scan reached the
      results awaited. */
  method LoadEarlier(s: Setup, page: seq<RenderNode>, scanned: seq<RenderNode>, held: seq<RenderNode>, ghost tail: seq<RenderNode>)
    returns (nodes: seq<RenderNode>, following: bool)
    ensures IsRequest(s, page, scanned, held, tail) ==>
              nodes == Oldest(IdealView(s, page + tail)) && (following <==> |IdealView(s, page + tail)| <= WINDOW_CAP)
  {
    hide PairAll, IdealView, IsTidy, AllPending, WithinCap, View, PatchAll, Displayed, PendingIndex, FinishAll, Removals,
      OrphansOf, UniqueIds, ResultsAreScanned;
    var poller := new Poller();
    var window := poller.BuildWindowNodes(s, page);
    var orphans := OrphanToolUseIds(held);
    var patches;
    nodes, patches := CompleteBackfillOrphans(s.enc, scanned, window, orphans);
    if IsRequest(s, page, scanned, held, tail) {
      PartsAreTidy(page, tail);
      CallsOfTidy(page);
      WithinCapIsIdeal(s, page);
      LoadedPage(s, page, scanned, tail);
    }
    nodes, following := PrependPage(held, nodes, patches);
  }

  /** A page before what is held, a scan of the rows from there on, and rows that use their ids once. */
  ghost predicate IsRequest(s: Setup, page: seq<RenderNode>, scanned: seq<RenderNode>, held: seq<RenderNode>,
                            tail: seq<RenderNode>)
  {
    && s.taskAgentIds == map[] && IsTidy(page + tail) && AllPending(page) && WithinCap(s, page)
    && held == IdealView(s, tail) && scanned <= tail && ResultsAreScanned(page, scanned, tail)
  }

  /** What `LoadEarlier` puts together: unique ids, and by the theorem the whole. */
  lemma LoadedPage(s: Setup, a: seq<RenderNode>, scanned: seq<RenderNode>, b: seq<RenderNode>)
    requires s.taskAgentIds == map[] && IsTidy(a + b) && AllPending(a) && scanned <= b && ResultsAreScanned(a, scanned, b)
    ensures var idx := PendingIndex(IdealView(s, a), OrphansOf(IdealView(s, b)));
      && UniqueIds(FinishAll(s.enc, IdealView(s, a), idx, scanned) + IdealView(s, b))
      && (forall p :: p in Removals(idx, scanned) ==> KeepsId(p))
      && BackFilled(s.enc, IdealView(s, a), scanned, IdealView(s, b)) == IdealView(s, a + b)
  {
    hide IdealView, IsTidy, AllPending, PatchAll, Displayed, PendingIndex, FinishAll, Removals, OrphansOf, UniqueIds,
      DistinctCalls, ResultsAreScanned;
    PartsAreTidy(a, b);
    IdealPairsTheFirstResult(s, a);
    IdealPairsTheFirstResult(s, b);
    IdealPairsTheFirstResult(s, a + b);
    BackFillIsTheWholeExactlyWhenScanned(s.enc, a, scanned, b);
    var w, held := Displayed(s.enc, a), Displayed(s.enc, b);
    RemovalsRemove(PendingIndex(w, OrphansOf(held)), scanned);
    FinishedPageIsUnique(s.enc, a, scanned, b);
  }

  /** Finishing calls changes no id. */
  lemma {:induction false} FinishingKeepsIds(enc: Encoder, w: seq<RenderNode>, idx: Index, tail: seq<RenderNode>, k: nat)
    requires PointsInto(idx, w) && k < |w|
    ensures FinishAll(enc, w, idx, tail)[k].row.id == w[k].row.id
  {
    hide FinishAll, Fitted;
    FinishAllAt(enc, w, idx, tail, k);
    if w[k].Tool? && w[k].toolUseId.Some? {
      var j := FirstResult(tail, w[k].toolUseId.value, 0);
      if j.Some? {
        FittingKeepsIdentity(enc, Combined(PendingOf(w[k]), tail[j.value]));
      }
    }
  }

  lemma FinishedPageIsUnique(enc: Encoder, a: seq<RenderNode>, scanned: seq<RenderNode>, b: seq<RenderNode>)
    requires IsTidy(a + b)
    ensures var w, held := Displayed(enc, a), Displayed(enc, b);
      UniqueIds(FinishAll(enc, w, PendingIndex(w, OrphansOf(held)), scanned) + held)
  {
    hide Shown, IsTidy, Displayed, FinishAll, PendingIndex, OrphansOf;
    var w, held := Displayed(enc, a), Displayed(enc, b);
    var idx := PendingIndex(w, OrphansOf(held));
    var page := FinishAll(enc, w, idx, scanned);
    PartsAreTidy(a, b);
    CallsOfTidy(a);
    CallsOfTidy(b);
    DisplayedIsUnique(enc, a);
    DisplayedIsUnique(enc, b);
    hide PointsInto;
    forall i | 0 <= i < |page| ensures page[i].row.id == w[i].row.id {
      FinishingKeepsIds(enc, w, idx, scanned, i);
    }
    forall i, j | 0 <= i < |page| && 0 <= j < |held| ensures page[i].row.id != held[j].row.id {
      var k := DisplayedFrom(enc, a, w[i]);
      var m := DisplayedFrom(enc, b, held[j]);
    }
    UniqueTogether(page, held);
  }

  lemma UniqueTogether(a: seq<RenderNode>, b: seq<RenderNode>)
    requires UniqueIds(a) && UniqueIds(b)
    requires forall i, j :: 0 <= i < |a| && 0 <= j < |b| ==> a[i].row.id != b[j].row.id
    ensures UniqueIds(a + b)
  {
  }

  /** The client's history after loading pages, the nearest first, onto the first window. */
  function Loaded(s: Setup, pages: seq<seq<RenderNode>>, tail: seq<RenderNode>): seq<RenderNode> {
    if pages == [] then View(s, [], tail).1
    else BackFilled(s.enc, View(s, [], pages[0]).1, Flatten(pages[1..]) + tail, Loaded(s, pages[1..], tail))
  }

  lemma AllIsScanned(a: seq<RenderNode>, b: seq<RenderNode>)
    ensures ResultsAreScanned(a, b, b)
  {
  }

  /** However many pages are loaded, the history is the snapshot of an unbounded machine over all the rows,
      though each request pairs its page alone and more calls than the cap may span the pages. */
  lemma {:induction false} LoadedHistoryIsTheSnapshot(s: Setup, pages: seq<seq<RenderNode>>, tail: seq<RenderNode>)
    requires s.taskAgentIds == map[] && IsTidy(Flatten(pages) + tail) && AllPending(Flatten(pages))
    requires WithinCap(s, tail) && forall i :: 0 <= i < |pages| ==> WithinCap(s, pages[i])
    ensures Loaded(s, pages, tail) == IdealView(s, Flatten(pages) + tail)
  {
    hide IdealView, IsTidy, WithinCap, View, BackFilled, ResultsAreScanned;
    if pages == [] {
      assert Flatten(pages) + tail == tail;
      WithinCapIsIdeal(s, tail);
    } else {
      var page, rest := pages[0], Flatten(pages[1..]) + tail;
      AppendIsAssociative(page, Flatten(pages[1..]), tail);
      PartsAreTidy(page, rest);
      assert forall k :: 0 <= k < |page| ==> Flatten(pages)[k] == page[k];
      assert forall k :: 0 <= k < |Flatten(pages[1..])| ==> Flatten(pages)[|page| + k] == Flatten(pages[1..])[k];
      LoadedHistoryIsTheSnapshot(s, pages[1..], tail);
      WithinCapIsIdeal(s, page);
      assert ResultsAreScanned(page, rest, rest) by { AllIsScanned(page, rest); }
      LoadedPage(s, page, rest, rest);
    }
  }
}
