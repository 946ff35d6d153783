/** Tool pairing over a bounded pending map (viewer/core/pair.ts). */
module Nodes {
  import opened Collections
  import opened Utf16

  datatype MdToken =
    | TextToken(v: Text)
    | CodeToken(v: Text)
    | InlineCode(v: Text)
    | Break
    | Group(kind: string, c: seq<MdToken>)

  datatype ToolResult =
    | TextResult(body: seq<MdToken>, isError: bool, elided: bool)
    | OtherResult(summary: string)

  datatype Anchor = Anchor(at: nat, i: nat)
  datatype ToolState = Pending | Ok | Error

  /** The fields every node has. `id` is the node's identity. */
  datatype Row = Row(id: string, anchor: Anchor, uuid: Option<string>, ts: Option<string>)

  datatype RenderNode =
    | Tool(row: Row, elided: bool, expandable: bool, name: string, input: Option<string>, state: ToolState,
           result: Option<ToolResult>, toolUseId: Option<string>, agentId: Option<string>, call: Anchor,
           resultAnchor: Option<Anchor>)
    | OrphanResult(row: Row, elided: bool, expandable: bool, resultToolUseId: string, orphan: ToolResult, orphanAnchor: Anchor)
    | OtherNode(row: Row, elided: bool, expandable: bool, content: string)

  /** What is sent about a node already shown: its replacement, or that it goes. */
  datatype Patch =
    | ResultPatch(id: string, node: RenderNode)
    | RemovePatch(id: string)

  /** The encoder the pipeline is given: the JSON byte length of a node, and the markdown tokenizer. */
  datatype Encoder = Encoder(nodeBytes: RenderNode -> nat, tokenize: Text -> seq<MdToken>)
}

module CompletedTool {
  import opened Collections
  import opened Utf16
  import opened Elision
  import opened Nodes

  const NEWLINE: CodeUnit := 10

  function TokenText(token: MdToken): Text {
    match token
    case TextToken(v) => v
    case CodeToken(v) => v
    case InlineCode(v) => v
    case Break => [NEWLINE]
    case Group(_, c) => TokensToText(c)
  }

  /** The plain text of a tokenized body. */
  function TokensToText(tokens: seq<MdToken>): Text {
    if tokens == [] then [] else TokenText(tokens[0]) + TokensToText(tokens[1..])
  }

  /** What the token tree shows, leaf by leaf, from left to right. */
  function Leaves(tokens: seq<MdToken>): (texts: seq<Text>) {
    if tokens == [] then []
    else
      (match tokens[0]
       case TextToken(v) => [v]
       case CodeToken(v) => [v]
       case InlineCode(v) => [v]
       case Break => [[NEWLINE]]
       case Group(_, c) => Leaves(c)) + Leaves(tokens[1..])
  }

  /** No leaf's text is lost, doubled or moved: the plain text is the leaves' texts in order. */
  lemma {:induction false} TextIsItsLeaves(tokens: seq<MdToken>)
    ensures TokensToText(tokens) == Flatten(Leaves(tokens))
  {
    if tokens != [] {
      var first, rest := tokens[0], tokens[1..];
      TextIsItsLeaves(rest);
      if first.Group? {
        TextIsItsLeaves(first.c);
        FlattenConcat(Leaves(first.c), Leaves(rest));
      } else {
        var v := TokenText(first);
        assert Leaves(tokens) == [v] + Leaves(rest);
        assert ([v] + Leaves(rest))[1..] == Leaves(rest);
      }
    }
  }

  datatype PendingCall = PendingCall(
    row: Row, name: string, input: Option<string>, toolUseId: string, agentId: Option<string>, call: Anchor, elided: bool)

  function PendingOf(node: RenderNode): PendingCall
    requires node.Tool? && node.toolUseId.Some?
  {
    PendingCall(node.row, node.name, node.input, node.toolUseId.value, node.agentId, node.call, node.elided)
  }

  /** The entry remembers everything of its call that the completed node needs. */
  predicate Remembers(p: PendingCall, call: RenderNode) {
    && call.Tool? && call.toolUseId == Some(p.toolUseId)
    && p.row == call.row && p.name == call.name && p.input == call.input
    && p.call == call.call && p.elided == call.elided
  }

  /** The completed node before it is measured. */
  function Combined(p: PendingCall, r: RenderNode): RenderNode
    requires r.OrphanResult?
  {
    var resultElided := r.orphan.TextResult? && r.orphan.elided;
    var isError := r.orphan.TextResult? && r.orphan.isError;
    var elided := p.elided || resultElided;
    Tool(p.row, elided, elided, p.name, p.input, if isError then Error else Ok, Some(r.orphan),
         Some(p.toolUseId), p.agentId, p.call, Some(r.orphanAnchor))
  }

  function WithoutInput(node: RenderNode): RenderNode
    requires node.Tool?
  {
    node.(input := None, elided := true, expandable := true)
  }

  function WithBody(enc: Encoder, base: RenderNode): (Text, bool) -> RenderNode
    requires base.Tool? && base.result.Some? && base.result.value.TextResult?
  {
    var r := base.result.value;
    (t: Text, elided: bool) =>
      base.(result := Some(TextResult(enc.tokenize(t), r.isError, elided || r.elided)))
  }

  function Fitted(enc: Encoder, node: RenderNode): RenderNode
    requires node.Tool?
  {
    if enc.nodeBytes(node) <= NODE_CAP then node
    else
      var bare := WithoutInput(node);
      if enc.nodeBytes(bare) <= NODE_CAP || bare.result.None? || !bare.result.value.TextResult? then bare
      else Elided(TokensToText(bare.result.value.body), WithBody(enc, bare), enc.nodeBytes, NODE_CAP)
  }

  method FitCompletedTool(enc: Encoder, node: RenderNode) returns (fitted: RenderNode)
    requires node.Tool?
    ensures fitted == Fitted(enc, node)
  {
    if enc.nodeBytes(node) <= NODE_CAP {
      return node;
    }
    fitted := node.(input := None, elided := true, expandable := true);
    if enc.nodeBytes(fitted) <= NODE_CAP {
      return;
    }
    if fitted.result.Some? && fitted.result.value.TextResult? {
      var sourceText := TokensToText(fitted.result.value.body);
      fitted := ElideToFit(sourceText, WithBody(enc, fitted), enc.nodeBytes, NODE_CAP);
    }
  }

  /** Shrinking never loses a node's identity or outcome, marks everything it changes, and stays within
      the cap whenever the smallest node it can build does. */
  lemma FittingKeepsIdentity(enc: Encoder, node: RenderNode)
    requires node.Tool?
    ensures var f := Fitted(enc, node);
      && f.Tool? && f.row == node.row && f.name == node.name && f.state == node.state
      && f.toolUseId == node.toolUseId && f.agentId == node.agentId
      && f.call == node.call && f.resultAnchor == node.resultAnchor
      && (f == node || (f.elided && f.expandable && f.input.None?))
    ensures var f := Fitted(enc, node);
      var bare := WithoutInput(node);
      node.result.Some? && node.result.value.TextResult? ==>
        var text := TokensToText(node.result.value.body);
        enc.nodeBytes(WithBody(enc, bare)(Truncated(text, 1), true)) <= NODE_CAP ==> enc.nodeBytes(f) <= NODE_CAP
  {
    var bare := WithoutInput(node);
    if bare.result.Some? && bare.result.value.TextResult? {
      ElisionFits(TokensToText(bare.result.value.body), WithBody(enc, bare), enc.nodeBytes, NODE_CAP);
    }
  }

  /** The node with the text of its result cut to the `n`-th halving of the cap. */
  function CutBody(enc: Encoder, bare: RenderNode, text: Text, n: nat): RenderNode
    requires bare.Tool? && bare.result.Some? && bare.result.value.TextResult?
  {
    bare.(result := Some(TextResult(enc.tokenize(Truncated(text, Halved(NODE_CAP, n))), bare.result.value.isError, true)))
  }

  /** Nothing is taken that need not be: a node within the cap stays as it is; one over it loses its input; and only
      if that is not enough is the text of its result tokenized anew, whole if that fits, else cut to the first halving
      of the cap that fits. */
  lemma FittingTakesTheLeast(enc: Encoder, node: RenderNode)
    requires node.Tool?
    ensures enc.nodeBytes(node) <= NODE_CAP ==> Fitted(enc, node) == node
    ensures var bare := node.(input := None, elided := true, expandable := true);
      enc.nodeBytes(node) > NODE_CAP ==>
        if enc.nodeBytes(bare) <= NODE_CAP || node.result.None? || node.result.value.OtherResult? then Fitted(enc, node) == bare
        else
          var r := node.result.value;
          var text := TokensToText(r.body);
          var retold := bare.(result := Some(TextResult(enc.tokenize(text), r.isError, r.elided)));
          if Utf8Bytes(text) <= NODE_CAP && enc.nodeBytes(retold) <= NODE_CAP then Fitted(enc, node) == retold
          else exists n: nat :: Fitted(enc, node) == CutBody(enc, bare, text, n)
                 && (enc.nodeBytes(CutBody(enc, bare, text, n)) <= NODE_CAP || Halved(NODE_CAP, n) <= 1)
                 && forall m :: 0 <= m < n ==> enc.nodeBytes(CutBody(enc, bare, text, m)) > NODE_CAP
  {
    var bare := WithoutInput(node);
    if bare.result.Some? && bare.result.value.TextResult? {
      var text := TokensToText(bare.result.value.body);
      hide TokensToText, Truncated, Utf8Bytes, Halved;
      var build := WithBody(enc, bare);
      assert build(text, false) == bare.(result := Some(TextResult(enc.tokenize(text), node.result.value.isError, node.result.value.elided)));
      assert forall n: nat :: CutTo(text, build, NODE_CAP, n) == CutBody(enc, bare, text, n);
      ElisionKeepsTheMost(text, build, enc.nodeBytes, NODE_CAP);
    }
  }

  function Completed(enc: Encoder, p: PendingCall, r: RenderNode): RenderNode
    requires r.OrphanResult?
  {
    Fitted(enc, Combined(p, r))
  }

  /** A completed node is the call's, finished with the result's outcome; what either half lost is marked. */
  predicate Completes(done: RenderNode, p: PendingCall, r: RenderNode)
    requires r.OrphanResult?
  {
    && done.Tool? && done.row == p.row && done.name == p.name && done.toolUseId == Some(p.toolUseId)
    && done.agentId == p.agentId && done.call == p.call && done.resultAnchor == Some(r.orphanAnchor)
    && done.state == (if r.orphan.TextResult? && r.orphan.isError then Error else Ok)
    && done.result.Some? && (r.orphan.TextResult? <==> done.result.value.TextResult?)
    && (r.orphan.OtherResult? ==> done.result.value == r.orphan)
    && (r.orphan.TextResult? ==> done.result.value.isError == r.orphan.isError)
    && done.expandable == done.elided
    && (p.elided || (r.orphan.TextResult? && r.orphan.elided) ==> done.elided)
    && (!done.elided ==> done.input == p.input && done.result.value == r.orphan)
  }

  lemma CompletionCarriesBothHalves(enc: Encoder, p: PendingCall, r: RenderNode)
    requires r.OrphanResult?
    ensures Completes(Completed(enc, p, r), p, r)
  {
    hide TokensToText, Truncated;
    var bare := WithoutInput(Combined(p, r));
    if r.orphan.TextResult? {
      ElisionFits(TokensToText(r.orphan.body), WithBody(enc, bare), enc.nodeBytes, NODE_CAP);
    }
  }

  /** A completed node is marked elided exactly when one of its halves was, or the two together are over the cap; and
      when they are not, it is the two halves, whole. */
  lemma CompletionIsMarkedExactlyWhenCut(enc: Encoder, p: PendingCall, r: RenderNode)
    requires r.OrphanResult?
    ensures var half := p.elided || (r.orphan.TextResult? && r.orphan.elided);
      var state := if r.orphan.TextResult? && r.orphan.isError then Error else Ok;
      var whole := Tool(p.row, half, half, p.name, p.input, state, Some(r.orphan), Some(p.toolUseId), p.agentId, p.call,
                        Some(r.orphanAnchor));
      && (Completed(enc, p, r).elided <==> half || enc.nodeBytes(whole) > NODE_CAP)
      && (enc.nodeBytes(whole) <= NODE_CAP ==> Completed(enc, p, r) == whole)
  {
    FittingTakesTheLeast(enc, Combined(p, r));
    hide TokensToText, Truncated, Utf8Bytes, Halved;
  }

  method BuildCompletedTool(enc: Encoder, p: PendingCall, r: RenderNode) returns (node: RenderNode)
    requires r.OrphanResult?
    ensures node == Completed(enc, p, r)
  {
    node := FitCompletedTool(enc, Combined(p, r));
  }
}

module Pairing {
  import opened Collections
  import opened JsMap
  import opened Nodes
  import opened CompletedTool

  const PENDING_CAP: nat := 512

  type Pendings = seq<Entry<string, PendingCall>>

  /** The pending map keeps its newest entries. */
  function Bounded(p: Pendings, cap: Option<nat>): (r: Pendings)
    ensures IsSuffix(r, p)
    ensures cap.Some? ==> |r| <= cap.value
  {
    if cap.Some? && |p| > cap.value then p[|p| - cap.value..] else p
  }

  function WithAgentId(node: RenderNode, taskAgentIds: map<string, string>): (r: RenderNode)
    requires node.Tool?
    ensures r.Tool? && r == node.(agentId := r.agentId)
    ensures r != node ==> node.name == "Task" && node.toolUseId.Some? && node.toolUseId.value in taskAgentIds
    ensures node.name == "Task" && node.toolUseId.Some? && node.toolUseId.value in taskAgentIds ==>
              r.agentId == Some(taskAgentIds[node.toolUseId.value])
  {
    if node.name != "Task" || node.toolUseId.None? || node.toolUseId.value !in taskAgentIds then node
    else node.(agentId := Some(taskAgentIds[node.toolUseId.value]))
  }

  /** What the stream carries across candidates besides the map: the encoder and the sidecar ids. */
  datatype Setup = Setup(enc: Encoder, taskAgentIds: map<string, string>)

  /** Each candidate yields exactly one of these. */
  datatype Outcome = Emitted(node: RenderNode) | Patched(patch: Patch)

  /** One candidate against the pending map; `cap` None is the ideal, unbounded map. */
  function PairOne(s: Setup, cap: Option<nat>, p: Pendings, c: RenderNode): (Pendings, Outcome) {
    match c
    case Tool(_, _, _, _, _, _, _, _, _, _, _) =>
      var node := WithAgentId(c, s.taskAgentIds);
      (if node.toolUseId.Some? then Bounded(Set(p, node.toolUseId.value, PendingOf(node)), cap) else p, Emitted(node))
    case OrphanResult(_, _, _, id, _, _) =>
      var pending := Get(p, id);
      if pending.None? then (p, Emitted(c))
      else (Delete(p, id), Patched(ResultPatch(pending.value.row.id, Completed(s.enc, pending.value, c))))
    case OtherNode(_, _, _, _) =>
      (p, Emitted(c))
  }

  function PairAll(s: Setup, cap: Option<nat>, p: Pendings, cs: seq<RenderNode>): (r: (Pendings, seq<Outcome>))
    ensures |r.1| == |cs|
  {
    if cs == [] then (p, [])
    else
      var (before, outcomes) := PairAll(s, cap, p, cs[..|cs| - 1]);
      var (after, last) := PairOne(s, cap, before, cs[|cs| - 1]);
      (after, outcomes + [last])
  }

  lemma PairAllAppend(s: Setup, cap: Option<nat>, p: Pendings, cs: seq<RenderNode>, c: RenderNode)
    ensures PairAll(s, cap, p, cs + [c]) ==
            var (before, outcomes) := PairAll(s, cap, p, cs);
            var (after, last) := PairOne(s, cap, before, c);
            (after, outcomes + [last])
  {
    assert (cs + [c])[..|cs|] == cs;
  }

  lemma {:induction false} PairAllConcat(s: Setup, cap: Option<nat>, p: Pendings, a: seq<RenderNode>, b: seq<RenderNode>)
    ensures PairAll(s, cap, p, a + b) ==
            var (mid, first) := PairAll(s, cap, p, a);
            var (end, second) := PairAll(s, cap, mid, b);
            (end, first + second)
    decreases |b|
  {
    if b == [] {
      var first := PairAll(s, cap, p, a).1;
      assert a + b == a && first + [] == first;
    } else {
      var init := b[..|b| - 1];
      assert (a + b)[..|a + b| - 1] == a + init;
      PairAllConcat(s, cap, p, a, init);
      var (mid, first) := PairAll(s, cap, p, a);
      var (end, second) := PairAll(s, cap, mid, init);
      AppendIsAssociative(first, second, [PairOne(s, cap, end, b[|b| - 1]).1]);
    }
  }

  function NodesOf(outcomes: seq<Outcome>): (r: seq<RenderNode>) {
    if outcomes == [] then []
    else
      var last := outcomes[|outcomes| - 1];
      NodesOf(outcomes[..|outcomes| - 1]) + if last.Emitted? then [last.node] else []
  }

  function PatchesOf(outcomes: seq<Outcome>): (r: seq<Patch>) {
    if outcomes == [] then []
    else
      var last := outcomes[|outcomes| - 1];
      PatchesOf(outcomes[..|outcomes| - 1]) + if last.Patched? then [last.patch] else []
  }

  lemma OutcomesAppend(outcomes: seq<Outcome>, last: Outcome)
    ensures NodesOf(outcomes + [last]) == NodesOf(outcomes) + if last.Emitted? then [last.node] else []
    ensures PatchesOf(outcomes + [last]) == PatchesOf(outcomes) + if last.Patched? then [last.patch] else []
  {
    assert (outcomes + [last])[..|outcomes|] == outcomes;
  }

  class PairState {
    var pending: Pendings

    constructor ()
      ensures pending == []
    {
      pending := [];
    }

    method EvictOldest()
      modifies this
      ensures pending == Bounded(old(pending), Some(PENDING_CAP))
    {
      while |pending| > PENDING_CAP
        invariant |pending| <= |old(pending)| && IsSuffix(pending, old(pending))
        invariant |old(pending)| > PENDING_CAP ==> |pending| >= PENDING_CAP
        invariant |old(pending)| <= PENDING_CAP ==> pending == old(pending)
      {
        pending := pending[1..];
      }
    }

    /** Runs the candidates through the pending map. The nodes and patches are those of the per-candidate
        account, in order. */
    method Pair(s: Setup, candidates: seq<RenderNode>) returns (nodes: seq<RenderNode>, patches: seq<Patch>)
      modifies this
      ensures pending == PairAll(s, Some(PENDING_CAP), old(pending), candidates).0
      ensures nodes == NodesOf(PairAll(s, Some(PENDING_CAP), old(pending), candidates).1)
      ensures patches == PatchesOf(PairAll(s, Some(PENDING_CAP), old(pending), candidates).1)
    {
      nodes, patches := [], [];
      ghost var outcomes: seq<Outcome> := [];
      assert candidates[..0] == [];
      assert (pending, outcomes) == PairAll(s, Some(PENDING_CAP), old(pending), candidates[..0]);
      assert nodes == NodesOf(outcomes) && patches == PatchesOf(outcomes);
      hide PairAll, NodesOf, PatchesOf, Set, Delete, Get, Bounded, Completed;
      for i := 0 to |candidates|
        invariant (pending, outcomes) == PairAll(s, Some(PENDING_CAP), old(pending), candidates[..i])
        invariant nodes == NodesOf(outcomes) && patches == PatchesOf(outcomes)
      {
        var candidate := candidates[i];
        ghost var before := pending;
        ghost var outcome;
        match candidate {
          case Tool(_, _, _, _, _, _, _, _, _, _, _) =>
            var node := WithAgentId(candidate, s.taskAgentIds);
            nodes := nodes + [node];
            outcome := Emitted(node);
            if node.toolUseId.Some? {
              pending := Set(pending, node.toolUseId.value, PendingOf(node));
              EvictOldest();
            }
          case OrphanResult(_, _, _, id, _, _) =>
            var found := Get(pending, id);
            if found.None? {
              nodes := nodes + [candidate];
              outcome := Emitted(candidate);
            } else {
              pending := Delete(pending, id);
              var completed := BuildCompletedTool(s.enc, found.value, candidate);
              var patch := ResultPatch(found.value.row.id, completed);
              patches := patches + [patch];
              outcome := Patched(patch);
            }
          case OtherNode(_, _, _, _) =>
            nodes := nodes + [candidate];
            outcome := Emitted(candidate);
        }
        assert PairOne(s, Some(PENDING_CAP), before, candidate) == (pending, outcome);
        assert candidates[..i + 1] == candidates[..i] + [candidate];
        PairAllAppend(s, Some(PENDING_CAP), old(pending), candidates[..i], candidate);
        OutcomesAppend(outcomes, outcome);
        outcomes := outcomes + [outcome];
      }
      assert candidates[..|candidates|] == candidates;
    }
  }
}
