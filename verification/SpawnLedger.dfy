/** The campaign's session tree, read off one message stream (runner/core/ledger.ts). */
module SpawnLedger {
  import opened Collections

  datatype Block = Block(blockType: Option<string>, name: Option<string>, id: Option<string>) | NotARecord

  /** One SDK message, with what `stringOrNull` and the shape checks leave of it. */
  datatype Message =
    | Assistant(content: Option<seq<Block>>, parentToolUseId: Option<string>)
    | TaskStarted(taskType: Option<string>, taskId: Option<string>, toolUseId: Option<string>,
                  spawnDepth: Option<int>, subagentType: Option<string>)
    | OtherMessage

  datatype SpawnRow = SpawnRow(
    at: string, sessionId: string, parentSessionId: Option<string>, parentUnresolved: bool,
    rootSessionId: string, agentType: Option<string>, cardId: Option<string>)

  /** `callerOf` maps an Agent call to the call that started its issuer, None for the main thread. */
  datatype SpawnTracker = SpawnTracker(
    rootSessionId: string, cardId: Option<string>, callerOf: map<string, Option<string>>, agentOf: map<string, string>)

  function EmptySpawnTracker(root: string, cardId: Option<string>): SpawnTracker {
    SpawnTracker(root, cardId, map[], map[])
  }

  predicate IsAgentCall(b: Block) {
    b.Block? && b.blockType == Some("tool_use") && b.name in {Some("Agent"), Some("Task")} && b.id.Some?
  }

  /** The message records a call `id` of an agent tool. */
  predicate Calls(m: Message, id: string) {
    m.Assistant? && m.content.Some? &&
    exists b :: b in m.content.value && b.Block? && b.blockType == Some("tool_use")
                && (b.name == Some("Agent") || b.name == Some("Task")) && b.id == Some(id)
  }

  /** The message starts an agent session for the call `id`. */
  predicate Starts(m: Message, id: string) {
    m.TaskStarted? && m.taskType == Some("local_agent") && m.toolUseId == Some(id) && m.taskId.Some?
  }

  function AgentCalls(m: Message): (calls: map<string, Option<string>>)
    ensures forall id :: id in calls <==> Calls(m, id)
    ensures m.Assistant? ==> forall id :: id in calls ==> calls[id] == m.parentToolUseId
  {
    if m.Assistant? && m.content.Some? then
      map b | b in m.content.value && IsAgentCall(b) :: b.id.value := m.parentToolUseId
    else map[]
  }

  method AgentCallsIn(m: Message) returns (calls: map<string, Option<string>>)
    ensures calls == AgentCalls(m)
  {
    calls := map[];
    if !m.Assistant? || m.content.None? {
      return;
    }
    var content := m.content.value;
    for i := 0 to |content|
      invariant forall id :: id in calls <==> exists b :: b in content[..i] && IsAgentCall(b) && b.id.value == id
      invariant forall id :: id in calls ==> calls[id] == m.parentToolUseId
    {
      assert content[..i + 1] == content[..i] + [content[i]];
      if IsAgentCall(content[i]) {
        calls := calls[content[i].id.value := m.parentToolUseId];
      }
    }
    assert content[..|content|] == content;
  }

  /** One message into the next tracker and at most one row. The row is judged on the tracker as it was
      before the message. */
  function ObserveSpawns(t: SpawnTracker, m: Message, at: string): (r: (SpawnTracker, seq<SpawnRow>)) {
    match m
    case Assistant(_, _) =>
      (t.(callerOf := t.callerOf + AgentCalls(m)), [])
    case OtherMessage => (t, [])
    case TaskStarted(taskType, taskId, toolUseId, depth, subagentType) =>
      if taskType != Some("local_agent") || taskId.None? || toolUseId.None? then (t, [])
      else
        var id := toolUseId.value;
        var seen := id in t.callerOf;
        var caller := if seen then t.callerOf[id] else None;
        var spawning := if caller.Some? && caller.value in t.agentOf then Some(t.agentOf[caller.value]) else None;
        var parent :=
          if seen && caller.None? then Some(t.rootSessionId)
          else if spawning.Some? then spawning
          else if depth == Some(1) then Some(t.rootSessionId)
          else None;
        (t.(agentOf := t.agentOf[id := taskId.value]),
         [SpawnRow(at, taskId.value, parent, parent.None?, t.rootSessionId, subagentType, t.cardId)])
  }

  datatype Stamped = Stamped(message: Message, at: string)

  function Replay(t: SpawnTracker, stream: seq<Stamped>): (r: (SpawnTracker, seq<SpawnRow>)) {
    if stream == [] then (t, [])
    else
      var (before, rows) := Replay(t, stream[..|stream| - 1]);
      var last := stream[|stream| - 1];
      var (after, row) := ObserveSpawns(before, last.message, last.at);
      (after, rows + row)
  }

  // ----- what is written

  predicate StartsASession(m: Message) {
    m.TaskStarted? && m.taskType == Some("local_agent") && m.taskId.Some? && m.toolUseId.Some?
  }

  /** The messages that start an agent session, in stream order. */
  function SessionStarts(stream: seq<Stamped>): seq<Stamped> {
    if stream == [] then []
    else
      var n := |stream| - 1;
      SessionStarts(stream[..n]) + if StartsASession(stream[n].message) then [stream[n]] else []
  }

  predicate IsRowOf(row: SpawnRow, start: Stamped, root: string, cardId: Option<string>) {
    && start.message.TaskStarted? && start.message.taskId == Some(row.sessionId) && row.at == start.at
    && row.rootSessionId == root && row.agentType == start.message.subagentType && row.cardId == cardId
  }

  /** Every started session gets exactly one row, in the order of the stream, and nothing else does. */
  lemma {:induction false} RowsAreTheSessionStarts(root: string, cardId: Option<string>, stream: seq<Stamped>)
    ensures var (t, rows) := Replay(EmptySpawnTracker(root, cardId), stream);
      && t.rootSessionId == root && t.cardId == cardId
      && |rows| == |SessionStarts(stream)|
      && forall i :: 0 <= i < |rows| ==> IsRowOf(rows[i], SessionStarts(stream)[i], root, cardId)
    decreases |stream|
  {
    if stream != [] {
      RowsAreTheSessionStarts(root, cardId, stream[..|stream| - 1]);
    }
  }

  // ----- what the tracker remembers

  /** The `i`-th message is the latest one to call `id`. */
  ghost predicate LatestCall(stream: seq<Stamped>, id: string, i: int) {
    && 0 <= i < |stream| && Calls(stream[i].message, id)
    && forall k :: i < k < |stream| ==> !Calls(stream[k].message, id)
  }

  /** The `j`-th message is the latest one to start a session for `id`. */
  ghost predicate LatestStart(stream: seq<Stamped>, id: string, j: int) {
    && 0 <= j < |stream| && Starts(stream[j].message, id)
    && forall k :: j < k < |stream| ==> !Starts(stream[k].message, id)
  }

  ghost predicate KnowsCall(t: SpawnTracker, stream: seq<Stamped>, id: string) {
    if id in t.callerOf then
      exists i :: LatestCall(stream, id, i) && stream[i].message.parentToolUseId == t.callerOf[id]
    else forall i :: 0 <= i < |stream| ==> !Calls(stream[i].message, id)
  }

  ghost predicate KnowsStart(t: SpawnTracker, stream: seq<Stamped>, id: string) {
    if id in t.agentOf then
      exists j :: LatestStart(stream, id, j) && stream[j].message.taskId == Some(t.agentOf[id])
    else forall j :: 0 <= j < |stream| ==> !Starts(stream[j].message, id)
  }

  /** The two dictionaries hold exactly the calls and starts of the stream so far, the latest under each id. */
  ghost predicate Reflects(t: SpawnTracker, stream: seq<Stamped>) {
    forall id :: KnowsCall(t, stream, id) && KnowsStart(t, stream, id)
  }

  lemma {:induction false} TrackerReflectsStream(root: string, cardId: Option<string>, stream: seq<Stamped>)
    ensures Reflects(Replay(EmptySpawnTracker(root, cardId), stream).0, stream)
    ensures Replay(EmptySpawnTracker(root, cardId), stream).0.rootSessionId == root
    decreases |stream|
  {
    if stream != [] {
      hide KnowsCall, KnowsStart;
      var n := |stream| - 1;
      var t := Replay(EmptySpawnTracker(root, cardId), stream[..n]).0;
      TrackerReflectsStream(root, cardId, stream[..n]);
      forall id ensures var after := ObserveSpawns(t, stream[n].message, stream[n].at).0;
        KnowsCall(after, stream, id) && KnowsStart(after, stream, id)
      {
        assert KnowsCall(t, stream[..n], id) && KnowsStart(t, stream[..n], id);
        OneMoreCallIsKnown(t, stream, id);
        OneMoreStartIsKnown(t, stream, id);
      }
    }
  }

  lemma OneMoreCallIsKnown(t: SpawnTracker, stream: seq<Stamped>, id: string)
    requires stream != [] && KnowsCall(t, stream[..|stream| - 1], id)
    ensures KnowsCall(ObserveSpawns(t, stream[|stream| - 1].message, stream[|stream| - 1].at).0, stream, id)
  {
    hide IsAgentCall;
    var n := |stream| - 1;
    var after := ObserveSpawns(t, stream[n].message, stream[n].at).0;
    hide AgentCalls;
    if Calls(stream[n].message, id) {
      assert LatestCall(stream, id, n);
    } else if id in t.callerOf {
      var i :| LatestCall(stream[..n], id, i) && stream[..n][i].message.parentToolUseId == t.callerOf[id];
      assert LatestCall(stream, id, i);
    } else {
      assert forall i :: 0 <= i < n ==> stream[..n][i] == stream[i];
    }
  }

  lemma OneMoreStartIsKnown(t: SpawnTracker, stream: seq<Stamped>, id: string)
    requires stream != [] && KnowsStart(t, stream[..|stream| - 1], id)
    ensures KnowsStart(ObserveSpawns(t, stream[|stream| - 1].message, stream[|stream| - 1].at).0, stream, id)
  {
    hide AgentCalls;
    var n := |stream| - 1;
    var after := ObserveSpawns(t, stream[n].message, stream[n].at).0;
    if Starts(stream[n].message, id) {
      assert LatestStart(stream, id, n);
    } else if id in t.agentOf {
      var j :| LatestStart(stream[..n], id, j) && stream[..n][j].message.taskId == Some(t.agentOf[id]);
      assert LatestStart(stream, id, j);
    } else {
      assert forall i :: 0 <= i < n ==> stream[..n][i] == stream[i];
    }
  }

  // ----- the tree

  /** The session that issued the message: the main thread, or the one started last for the message's own
      parent call. */
  ghost predicate Issued(root: string, stream: seq<Stamped>, call: Message, session: string) {
    call.Assistant? &&
    if call.parentToolUseId.None? then session == root
    else exists j :: LatestStart(stream, call.parentToolUseId.value, j) && stream[j].message.taskId == Some(session)
  }

  /** The stream's own relation: the latest call for the start `m` was issued by `parent`. */
  ghost predicate SpawnedBy(root: string, stream: seq<Stamped>, m: Message, parent: string) {
    && m.TaskStarted? && m.toolUseId.Some?
    && exists i :: LatestCall(stream, m.toolUseId.value, i) && Issued(root, stream, stream[i].message, parent)
  }

  ghost predicate HasSpawner(root: string, stream: seq<Stamped>, m: Message) {
    exists p :: SpawnedBy(root, stream, m, p)
  }

  /** A start has at most one spawner. */
  lemma OneSpawner(root: string, stream: seq<Stamped>, m: Message, p: string, q: string)
    requires SpawnedBy(root, stream, m, p) && SpawnedBy(root, stream, m, q)
    ensures p == q
  {
    var id := m.toolUseId.value;
    var i :| LatestCall(stream, id, i) && Issued(root, stream, stream[i].message, p);
    var k :| LatestCall(stream, id, k) && Issued(root, stream, stream[k].message, q);
    assert !(i < k) && !(k < i);
    if stream[i].message.parentToolUseId.Some? {
      var caller := stream[i].message.parentToolUseId.value;
      var j :| LatestStart(stream, caller, j) && stream[j].message.taskId == Some(p);
      var l :| LatestStart(stream, caller, l) && stream[l].message.taskId == Some(q);
      assert !(j < l) && !(l < j);
    }
  }

  function Spawning(t: SpawnTracker, id: string): Option<string> {
    if id !in t.callerOf then None
    else if t.callerOf[id].None? then Some(t.rootSessionId)
    else if t.callerOf[id].value in t.agentOf then Some(t.agentOf[t.callerOf[id].value])
    else None
  }

  /** What the dictionaries say of a start's spawner is what the stream says. */
  lemma SpawningIsTheSpawner(t: SpawnTracker, stream: seq<Stamped>, m: Message, id: string)
    requires Reflects(t, stream) && Starts(m, id)
    ensures match Spawning(t, id)
      case Some(p) => SpawnedBy(t.rootSessionId, stream, m, p)
      case None => !HasSpawner(t.rootSessionId, stream, m)
  {
    var root := t.rootSessionId;
    assert KnowsCall(t, stream, id);
    if id in t.callerOf {
      var i :| LatestCall(stream, id, i) && stream[i].message.parentToolUseId == t.callerOf[id];
      var call := stream[i].message;
      if call.parentToolUseId.None? {
        assert Issued(root, stream, call, root);
      } else {
        IssuerIsKnown(t, stream, call);
        forall p | SpawnedBy(root, stream, m, p) ensures Issued(root, stream, call, p) {
          var k :| LatestCall(stream, id, k) && Issued(root, stream, stream[k].message, p);
          assert !(i < k) && !(k < i);
        }
      }
    }
  }

  lemma IssuerIsKnown(t: SpawnTracker, stream: seq<Stamped>, call: Message)
    requires Reflects(t, stream) && call.Assistant? && call.parentToolUseId.Some?
    ensures var caller := call.parentToolUseId.value;
      if caller in t.agentOf then Issued(t.rootSessionId, stream, call, t.agentOf[caller])
      else forall p :: !Issued(t.rootSessionId, stream, call, p)
  {
    assert KnowsStart(t, stream, call.parentToolUseId.value);
  }

  /** Over any stream the row of a start has the one spawner the stream shows; without one, the root when the
      depth is 1, and otherwise no parent, marked unresolved. */
  lemma ParentIsTheSpawner(root: string, cardId: Option<string>, stream: seq<Stamped>, next: Stamped, id: string)
    requires Starts(next.message, id)
    ensures var r := ObserveSpawns(Replay(EmptySpawnTracker(root, cardId), stream).0, next.message, next.at).1;
      && |r| == 1
      && (r[0].parentUnresolved <==> !HasSpawner(root, stream, next.message) && next.message.spawnDepth != Some(1))
      && forall p :: r[0].parentSessionId == Some(p) <==>
           || SpawnedBy(root, stream, next.message, p)
           || (!HasSpawner(root, stream, next.message) && next.message.spawnDepth == Some(1) && p == root)
  {
    TrackerReflectsStream(root, cardId, stream);
    hide Reflects, SpawnedBy;
    var t := Replay(EmptySpawnTracker(root, cardId), stream).0;
    hide Replay;
    SpawningIsTheSpawner(t, stream, next.message, id);
    if Spawning(t, id).Some? {
      forall p | SpawnedBy(root, stream, next.message, p) ensures p == Spawning(t, id).value {
        OneSpawner(root, stream, next.message, p, Spawning(t, id).value);
      }
    }
  }

  ghost predicate EarlierRow(rows: seq<SpawnRow>, k: nat, session: string)
    requires k <= |rows|
  {
    exists j :: 0 <= j < k && rows[j].sessionId == session
  }

  /** Every row's parent is the root, the session of a strictly earlier row, or absent and marked. */
  ghost predicate WellFounded(root: string, rows: seq<SpawnRow>) {
    forall k :: 0 <= k < |rows| ==>
      && rows[k].rootSessionId == root
      && (rows[k].parentUnresolved <==> rows[k].parentSessionId.None?)
      && (rows[k].parentSessionId.Some? ==>
            rows[k].parentSessionId.value == root || EarlierRow(rows, k, rows[k].parentSessionId.value))
  }

  ghost predicate HaveRows(t: SpawnTracker, rows: seq<SpawnRow>) {
    forall id :: id in t.agentOf ==> EarlierRow(rows, |rows|, t.agentOf[id])
  }

  lemma {:induction false} StartedSessionsHaveRows(root: string, cardId: Option<string>, stream: seq<Stamped>)
    ensures var r := Replay(EmptySpawnTracker(root, cardId), stream);
      HaveRows(r.0, r.1)
    decreases |stream|
  {
    if stream != [] {
      var n := |stream| - 1;
      StartedSessionsHaveRows(root, cardId, stream[..n]);
      var before := Replay(EmptySpawnTracker(root, cardId), stream[..n]);
      var t, rows := before.0, before.1;
      assert HaveRows(t, rows);
      var (after, more) := ObserveSpawns(t, stream[n].message, stream[n].at);
      forall id | id in after.agentOf ensures EarlierRow(rows + more, |rows + more|, after.agentOf[id]) {
        if id in t.agentOf && after.agentOf[id] == t.agentOf[id] {
          assert EarlierRow(rows, |rows|, t.agentOf[id]);
          var j :| 0 <= j < |rows| && rows[j].sessionId == t.agentOf[id];
          assert (rows + more)[j] == rows[j];
        } else {
          assert (rows + more)[|rows|] == more[0];
        }
      }
    }
  }

  lemma {:induction false} SessionTreeIsWellFounded(root: string, cardId: Option<string>, stream: seq<Stamped>)
    ensures WellFounded(root, Replay(EmptySpawnTracker(root, cardId), stream).1)
    decreases |stream|
  {
    if stream != [] {
      var n := |stream| - 1;
      SessionTreeIsWellFounded(root, cardId, stream[..n]);
      StartedSessionsHaveRows(root, cardId, stream[..n]);
      TrackerReflectsStream(root, cardId, stream[..n]);
      var (t, rows) := Replay(EmptySpawnTracker(root, cardId), stream[..n]);
      var more := ObserveSpawns(t, stream[n].message, stream[n].at).1;
      AddRow(root, rows, more, t);
    }
  }

  lemma AddRow(root: string, rows: seq<SpawnRow>, more: seq<SpawnRow>, t: SpawnTracker)
    requires WellFounded(root, rows) && |more| <= 1
    requires HaveRows(t, rows)
    requires more != [] ==> more[0].rootSessionId == root && (more[0].parentUnresolved <==> more[0].parentSessionId.None?)
    requires more != [] && more[0].parentSessionId.Some? ==>
      more[0].parentSessionId.value == root || exists id :: id in t.agentOf && t.agentOf[id] == more[0].parentSessionId.value
    ensures WellFounded(root, rows + more)
  {
    var all := rows + more;
    forall k, s | 0 <= k <= |rows| && EarlierRow(rows, k, s) ensures EarlierRow(all, k, s) {
      var j :| 0 <= j < k && rows[j].sessionId == s;
      assert all[j] == rows[j];
    }
    forall k | 0 <= k < |all|
      ensures all[k].parentSessionId.Some? ==>
        all[k].parentSessionId.value == root || EarlierRow(all, k, all[k].parentSessionId.value)
    {
      assert k < |rows| ==> all[k] == rows[k];
    }
  }

  // ----- streams that use each tool id once

  /** Each tool id is called once and started once. */
  ghost predicate UniqueToolIds(stream: seq<Stamped>) {
    && (forall i, j, id :: 0 <= i < j < |stream| && Calls(stream[i].message, id) ==> !Calls(stream[j].message, id))
    && (forall i, j, id :: 0 <= i < j < |stream| && Starts(stream[i].message, id) ==> !Starts(stream[j].message, id))
  }

  /** The `i`-th message calls for the start `m`, and `parent` issued it. */
  ghost predicate SpawnsFrom(root: string, stream: seq<Stamped>, m: Message, i: int, parent: string) {
    && m.TaskStarted? && m.toolUseId.Some? && 0 <= i < |stream| && Calls(stream[i].message, m.toolUseId.value)
    && if stream[i].message.parentToolUseId.None? then parent == root
       else exists j :: 0 <= j < |stream| && Starts(stream[j].message, stream[i].message.parentToolUseId.value)
                        && stream[j].message.taskId == Some(parent)
  }

  /** With such ids the spawner is whoever issued a call for the start, wherever in the stream it stands. */
  lemma AnyCallIsTheLatest(root: string, stream: seq<Stamped>, m: Message, parent: string)
    requires UniqueToolIds(stream)
    ensures SpawnedBy(root, stream, m, parent) <==> exists i :: SpawnsFrom(root, stream, m, i, parent)
  {
    if i :| SpawnsFrom(root, stream, m, i, parent) {
      assert LatestCall(stream, m.toolUseId.value, i);
      if stream[i].message.parentToolUseId.Some? {
        var caller := stream[i].message.parentToolUseId.value;
        var j :| 0 <= j < |stream| && Starts(stream[j].message, caller) && stream[j].message.taskId == Some(parent);
        assert LatestStart(stream, caller, j);
      }
      assert Issued(root, stream, stream[i].message, parent);
    }
    if SpawnedBy(root, stream, m, parent) {
      var i :| LatestCall(stream, m.toolUseId.value, i) && Issued(root, stream, stream[i].message, parent);
      assert SpawnsFrom(root, stream, m, i, parent);
    }
  }
}
