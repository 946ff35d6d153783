/** The subagent tree built from untrusted parent links (viewer/core/subagents.ts). */
module ParentLinks {
  import opened Collections
  import opened Deadlock

  /** The id reached from `id` by `n` parent links. */
  function Ancestor(parentOf: map<string, string>, id: string, n: nat): Option<string> {
    if n == 0 then Some(id)
    else
      var below := Ancestor(parentOf, id, n - 1);
      if below.Some? && below.value in parentOf then Some(parentOf[below.value]) else None
  }

  /** Following the links comes to an id without one. */
  ghost predicate ReachesRoot(parentOf: map<string, string>, id: string) {
    exists n :: Ancestor(parentOf, id, n).None?
  }

  /** Following the links comes back to an id already passed. */
  ghost predicate RunsIntoCycle(parentOf: map<string, string>, id: string) {
    exists i, j :: i < j && Ancestor(parentOf, id, i).Some? && Ancestor(parentOf, id, i) == Ancestor(parentOf, id, j)
  }

  lemma {:induction false} AncestorOfAncestor(parentOf: map<string, string>, id: string, a: nat, b: nat)
    requires Ancestor(parentOf, id, a).Some?
    ensures Ancestor(parentOf, id, a + b) == Ancestor(parentOf, Ancestor(parentOf, id, a).value, b)
  {
    if b > 0 {
      AncestorOfAncestor(parentOf, id, a, b - 1);
    }
  }

  lemma {:induction false} LowerAncestorsExist(parentOf: map<string, string>, id: string, low: nat, high: nat)
    requires low <= high && Ancestor(parentOf, id, high).Some?
    ensures Ancestor(parentOf, id, low).Some?
    decreases high
  {
    if low < high {
      LowerAncestorsExist(parentOf, id, low, high - 1);
    }
  }

  lemma {:induction false} CycleNeverEnds(parentOf: map<string, string>, id: string, i: nat, j: nat, n: nat)
    requires i < j && Ancestor(parentOf, id, i).Some? && Ancestor(parentOf, id, i) == Ancestor(parentOf, id, j)
    ensures Ancestor(parentOf, id, n).Some?
  {
    if n <= j {
      LowerAncestorsExist(parentOf, id, n, j);
    } else {
      var back := n - (j - i);
      CycleNeverEnds(parentOf, id, i, j, back);
      AncestorOfAncestor(parentOf, id, j, n - j);
      AncestorOfAncestor(parentOf, id, i, n - j);
    }
  }

  /** A chain of at least `n` links between ids of a set of `n` ids repeats one. */
  lemma LongChainRepeats(parentOf: map<string, string>, ids: set<string>, id: string)
    requires id in ids && forall k :: k in parentOf ==> parentOf[k] in ids
    requires Ancestor(parentOf, id, |ids|).Some?
    ensures RunsIntoCycle(parentOf, id)
  {
    var n := |ids|;
    var chain := seq(n + 1, i requires 0 <= i <= n => Ancestor(parentOf, id, i));
    forall i | 0 <= i <= n ensures chain[i].Some? && chain[i].value in ids {
      LowerAncestorsExist(parentOf, id, i, n);
    }
    var path := seq(n + 1, i requires 0 <= i <= n => chain[i].value);
    if NoDuplicates(path) {
      DuplicateFreeFits(path, ids);
    }
    var i, j :| 0 <= i < j < |path| && path[i] == path[j];
    assert Ancestor(parentOf, id, i) == chain[i] && Ancestor(parentOf, id, j) == chain[j];
  }

  /** From an id of a closed set exactly one of the two happens, and the root is near. */
  lemma RootOrCycle(parentOf: map<string, string>, ids: set<string>, id: string)
    requires id in ids && forall k :: k in parentOf ==> parentOf[k] in ids
    ensures ReachesRoot(parentOf, id) <==> !RunsIntoCycle(parentOf, id)
    ensures ReachesRoot(parentOf, id) ==> Ancestor(parentOf, id, |ids|).None?
  {
    if RunsIntoCycle(parentOf, id) {
      var i, j :| i < j && Ancestor(parentOf, id, i).Some? && Ancestor(parentOf, id, i) == Ancestor(parentOf, id, j);
      forall n: nat ensures Ancestor(parentOf, id, n).Some? {
        CycleNeverEnds(parentOf, id, i, j, n);
      }
    } else if Ancestor(parentOf, id, |ids|).Some? {
      LongChainRepeats(parentOf, ids, id);
    }
  }

  /** The walk with its `visited` set; it ends because the ids it can visit are finite. */
  method ComputeReachesRoot(parentOf: map<string, string>, agentId: string) returns (reaches: bool)
    ensures reaches <==> ReachesRoot(parentOf, agentId)
  {
    var visited := {agentId};
    var current := if agentId in parentOf then Some(parentOf[agentId]) else None;
    ghost var chain := [agentId];
    ghost var all := {agentId} + parentOf.Values;
    assert Ancestor(parentOf, agentId, 0) == Some(agentId);
    while current.Some?
      invariant current == Ancestor(parentOf, agentId, |chain|)
      invariant forall i :: 0 <= i < |chain| ==> Ancestor(parentOf, agentId, i) == Some(chain[i])
      invariant forall v :: v in visited ==> v in chain
      invariant visited <= all && (current.Some? ==> current.value in all)
      decreases all - visited, current.Some?
    {
      if current.value in visited {
        NeverEndsAfter(parentOf, agentId, chain, current.value);
        return false;
      }
      visited := visited + {current.value};
      chain := chain + [current.value];
      current := if current.value in parentOf then Some(parentOf[current.value]) else None;
    }
    return true;
  }

  lemma NeverEndsAfter(parentOf: map<string, string>, id: string, chain: seq<string>, again: string)
    requires forall i :: 0 <= i < |chain| ==> Ancestor(parentOf, id, i) == Some(chain[i])
    requires Ancestor(parentOf, id, |chain|) == Some(again) && again in chain
    ensures !ReachesRoot(parentOf, id)
  {
    var i :| 0 <= i < |chain| && chain[i] == again;
    forall n: nat ensures Ancestor(parentOf, id, n).Some? {
      CycleNeverEnds(parentOf, id, i, |chain|, n);
    }
  }
}

module Subagents {
  import opened Collections
  import opened ParentLinks

  datatype Meta = Meta(agentType: Option<string>, description: Option<string>, toolUseId: Option<string>,
                       parentAgentId: Option<string>, spawnDepth: Option<int>, model: Option<string>)
  datatype SubagentEntry = SubagentEntry(agentId: string, meta: Option<Meta>, sizeBytes: nat, mtimeIso: Option<string>,
                                         birthtimeIso: Option<string>, previousSizeBytes: Option<nat>)
  datatype Agent = Agent(id: string, parentId: Option<string>, depth: int, agentType: Option<string>, title: string,
                         toolUseId: Option<string>, model: Option<string>, sizeBytes: nat, mtimeIso: Option<string>,
                         birthtimeIso: Option<string>, live: bool)

  /** The moment of the scan, and what a timestamp says in milliseconds, if it says anything. */
  datatype Clock = Clock(nowIso: string, parse: string -> Option<int>)

  /** What a missing sidecar file says. */
  const NO_META := Meta(None, None, None, None, None, None)

  // ----- the order of the rendered list

  predicate LexLess(a: string, b: string) {
    if b == "" then false
    else if a == "" then true
    else a[0] < b[0] || (a[0] == b[0] && LexLess(a[1..], b[1..]))
  }

  function BirthKey(e: SubagentEntry): string {
    if e.birthtimeIso.Some? then e.birthtimeIso.value else ""
  }

  function CompareEntries(a: SubagentEntry, b: SubagentEntry): int {
    if BirthKey(a) != BirthKey(b) then (if LexLess(BirthKey(a), BirthKey(b)) then -1 else 1)
    else if LexLess(a.agentId, b.agentId) then -1
    else if LexLess(b.agentId, a.agentId) then 1
    else 0
  }

  lemma {:induction false} LexTotal(a: string, b: string)
    ensures LexLess(a, b) || a == b || LexLess(b, a)
    ensures !(LexLess(a, b) && LexLess(b, a)) && !LexLess(a, a)
    decreases |a| + |b|
  {
    if a != "" && b != "" {
      LexTotal(a[1..], b[1..]);
      assert a == [a[0]] + a[1..] && b == [b[0]] + b[1..];
    }
    if a != "" {
      LexIrreflexive(a);
    }
  }

  lemma {:induction false} LexIrreflexive(a: string)
    ensures !LexLess(a, a)
  {
    if a != "" {
      LexIrreflexive(a[1..]);
    }
  }

  lemma {:induction false} LexTransitive(a: string, b: string, c: string)
    requires LexLess(a, b) && LexLess(b, c)
    ensures LexLess(a, c)
    decreases |b|
  {
    if a != "" && a[0] == b[0] == c[0] {
      LexTransitive(a[1..], b[1..], c[1..]);
    }
  }

  lemma CompareIsTotal(a: SubagentEntry, b: SubagentEntry)
    ensures CompareEntries(a, b) <= 0 || CompareEntries(b, a) <= 0
    ensures CompareEntries(a, b) <= 0 && CompareEntries(b, a) <= 0 ==> a.agentId == b.agentId
  {
    LexTotal(BirthKey(a), BirthKey(b));
    LexTotal(a.agentId, b.agentId);
  }

  lemma CompareIsTransitive(a: SubagentEntry, b: SubagentEntry, c: SubagentEntry)
    requires CompareEntries(a, b) <= 0 && CompareEntries(b, c) <= 0
    ensures CompareEntries(a, c) <= 0
  {
    LexTotal(BirthKey(a), BirthKey(b));
    LexTotal(BirthKey(b), BirthKey(c));
    LexTotal(BirthKey(a), BirthKey(c));
    LexTotal(a.agentId, b.agentId);
    LexTotal(b.agentId, c.agentId);
    LexTotal(a.agentId, c.agentId);
    if LexLess(BirthKey(a), BirthKey(b)) && LexLess(BirthKey(b), BirthKey(c)) {
      LexTransitive(BirthKey(a), BirthKey(b), BirthKey(c));
    }
    if LexLess(a.agentId, b.agentId) && LexLess(b.agentId, c.agentId) {
      LexTransitive(a.agentId, b.agentId, c.agentId);
    }
  }

  predicate Sorted(s: seq<SubagentEntry>) {
    forall i, j :: 0 <= i < j < |s| ==> CompareEntries(s[i], s[j]) <= 0
  }

  function Insert(e: SubagentEntry, s: seq<SubagentEntry>): (r: seq<SubagentEntry>)
    ensures multiset(r) == multiset{e} + multiset(s)
  {
    if s == [] then [e]
    else if CompareEntries(e, s[0]) <= 0 then [e] + s
    else
      assert s == [s[0]] + s[1..];
      [s[0]] + Insert(e, s[1..])
  }

  /** `Array.prototype.sort` with this comparator. */
  function Sort(s: seq<SubagentEntry>): (r: seq<SubagentEntry>)
    ensures multiset(r) == multiset(s)
  {
    if s == [] then []
    else
      assert s == [s[0]] + s[1..];
      Insert(s[0], Sort(s[1..]))
  }

  lemma {:induction false} InsertKeepsSorted(e: SubagentEntry, s: seq<SubagentEntry>)
    requires Sorted(s)
    ensures Sorted(Insert(e, s))
  {
    hide CompareEntries;
    if s != [] {
      CompareIsTotal(e, s[0]);
      if CompareEntries(e, s[0]) <= 0 {
        forall j | 0 <= j < |s| ensures CompareEntries(e, s[j]) <= 0 {
          if j > 0 {
            CompareIsTransitive(e, s[0], s[j]);
          }
        }
      } else {
        InsertKeepsSorted(e, s[1..]);
        var r := Insert(e, s[1..]);
        forall j | 0 <= j < |r| ensures CompareEntries(s[0], r[j]) <= 0 {
          assert r[j] in multiset(r);
          assert r[j] == e || r[j] in s[1..];
        }
      }
    }
  }

  lemma {:induction false} SortIsSorted(s: seq<SubagentEntry>)
    ensures Sorted(Sort(s))
  {
    if s != [] {
      SortIsSorted(s[1..]);
      InsertKeepsSorted(s[0], Sort(s[1..]));
    }
  }

  predicate DistinctIds(s: seq<SubagentEntry>) {
    forall i, j :: 0 <= i < j < |s| ==> s[i].agentId != s[j].agentId
  }

  /** With distinct ids there is one sorted order. */
  lemma {:induction false} SortedOrderIsUnique(a: seq<SubagentEntry>, b: seq<SubagentEntry>)
    requires Sorted(a) && Sorted(b) && DistinctIds(a) && multiset(a) == multiset(b)
    ensures a == b
  {
    if a == [] {
      assert |multiset(b)| == 0;
    } else {
      hide Sorted, DistinctIds;
      SameHead(a, b);
      TailOfSorted(a);
      TailOfSorted(b);
      TailOfDistinct(a);
      SortedOrderIsUnique(a[1..], b[1..]);
      assert a == [a[0]] + a[1..] && b == [b[0]] + b[1..];
    }
  }

  lemma TailOfSorted(s: seq<SubagentEntry>)
    requires Sorted(s) && s != []
    ensures Sorted(s[1..]) && multiset(s[1..]) == multiset(s) - multiset{s[0]}
  {
    assert s == [s[0]] + s[1..];
  }

  lemma TailOfDistinct(s: seq<SubagentEntry>)
    requires DistinctIds(s) && s != []
    ensures DistinctIds(s[1..])
  {
  }

  lemma SameHead(a: seq<SubagentEntry>, b: seq<SubagentEntry>)
    requires Sorted(a) && Sorted(b) && DistinctIds(a) && multiset(a) == multiset(b) && a != []
    ensures b != [] && a[0] == b[0]
  {
    assert |multiset(a)| == |a| && |multiset(b)| == |b|;
    assert a[0] in multiset(b) && b[0] in multiset(a);
    var i :| 0 <= i < |a| && a[i] == b[0];
    var j :| 0 <= j < |b| && b[j] == a[0];
    CompareIsTotal(a[0], b[0]);
    CompareIsTotal(a[0], a[0]);
    assert CompareEntries(a[0], a[i]) <= 0 && CompareEntries(b[0], b[j]) <= 0;
    assert a[0].agentId == a[i].agentId;
  }

  // ----- liveness (viewer/core/liveness.ts)

  const LIVE_WINDOW_MS := 10 * 60 * 1000

  predicate Grew(e: SubagentEntry) {
    e.previousSizeBytes.Some? && e.sizeBytes > e.previousSizeBytes.value
  }

  /** A timestamp that does not parse is within no window. */
  predicate WithinWindow(clock: Clock, mtimeIso: string) {
    var now, mtime := clock.parse(clock.nowIso), clock.parse(mtimeIso);
    now.Some? && mtime.Some? && now.value - mtime.value <= LIVE_WINDOW_MS
  }

  predicate IsLive(clock: Clock, e: SubagentEntry) {
    e.mtimeIso.Some? && (Grew(e) || WithinWindow(clock, e.mtimeIso.value))
  }

  /** The same file at a later scan that found it as it was. */
  predicate SeenUnchanged(clock: Clock, e: SubagentEntry, laterIso: string, again: SubagentEntry) {
    var before, after := clock.parse(clock.nowIso), clock.parse(laterIso);
    && again == e.(previousSizeBytes := Some(e.sizeBytes))
    && before.Some? && after.Some? && before.value <= after.value
  }

  /** Between scans that find a file unchanged, liveness only fades, and it lasts exactly as long as the window. */
  lemma LivenessFades(clock: Clock, e: SubagentEntry, laterIso: string, again: SubagentEntry)
    requires SeenUnchanged(clock, e, laterIso, again)
    ensures var later := clock.(nowIso := laterIso);
      && (IsLive(later, again) ==> IsLive(clock, e))
      && (IsLive(later, again) <==> e.mtimeIso.Some? && WithinWindow(later, e.mtimeIso.value))
  {
  }

  // ----- deriving the agents

  function KnownIds(entries: seq<SubagentEntry>): set<string> {
    set e | e in entries :: e.agentId
  }

  function NamedParent(e: SubagentEntry, known: set<string>): Option<string> {
    if e.meta.Some? && e.meta.value.parentAgentId.Some? && e.meta.value.parentAgentId.value != ""
       && e.meta.value.parentAgentId.value in known
    then e.meta.value.parentAgentId else None
  }

  function NamedParents(entries: seq<SubagentEntry>, known: set<string>): map<string, string> {
    if entries == [] then map[]
    else
      var last := entries[|entries| - 1];
      var before := NamedParents(entries[..|entries| - 1], known);
      var named := NamedParent(last, known);
      if named.Some? then before[last.agentId := named.value] else before
  }

  /** The parent an agent is rendered under. */
  ghost function KeptParent(parentOf: map<string, string>, id: string): Option<string> {
    if id in parentOf && ReachesRoot(parentOf, id) then Some(parentOf[id]) else None
  }

  /** An agent as listed: an absent depth is 1, an absent description names the agent by its id. */
  function AgentUnder(clock: Clock, parentId: Option<string>, e: SubagentEntry): Agent {
    var meta := if e.meta.Some? then e.meta.value else NO_META;
    Agent(e.agentId, parentId, if meta.spawnDepth.Some? then meta.spawnDepth.value else 1, meta.agentType,
          if meta.description.Some? then meta.description.value else "agent " + e.agentId,
          meta.toolUseId, meta.model, e.sizeBytes, e.mtimeIso, e.birthtimeIso, IsLive(clock, e))
  }

  ghost function AgentOf(clock: Clock, parentOf: map<string, string>, e: SubagentEntry): Agent {
    AgentUnder(clock, KeptParent(parentOf, e.agentId), e)
  }

  ghost function DerivedAgents(clock: Clock, entries: seq<SubagentEntry>): (r: seq<Agent>) {
    var parentOf := NamedParents(entries, KnownIds(entries));
    var sorted := Sort(entries);
    seq(|sorted|, i requires 0 <= i < |sorted| => AgentOf(clock, parentOf, sorted[i]))
  }

  method DeriveAgents(clock: Clock, entries: seq<SubagentEntry>) returns (agents: seq<Agent>)
    ensures agents == DerivedAgents(clock, entries)
  {
    var known := set e | e in entries :: e.agentId;
    var parentOf: map<string, string> := map[];
    for i := 0 to |entries|
      invariant parentOf == NamedParents(entries[..i], known)
    {
      assert entries[..i + 1][..i] == entries[..i];
      var named := NamedParent(entries[i], known);
      if named.Some? {
        parentOf := parentOf[entries[i].agentId := named.value];
      }
    }
    assert entries[..|entries|] == entries;
    var sorted := Sort(entries);
    agents := [];
    for i := 0 to |sorted|
      invariant |agents| == i
      invariant forall k :: 0 <= k < i ==> agents[k] == AgentOf(clock, parentOf, sorted[k])
    {
      var e := sorted[i];
      var parentId := None;
      if e.agentId in parentOf {
        var reaches := ComputeReachesRoot(parentOf, e.agentId);
        parentId := if reaches then Some(parentOf[e.agentId]) else None;
      }
      agents := agents + [AgentUnder(clock, parentId, e)];
    }
  }

  lemma {:induction false} NamedParentsAreKnown(entries: seq<SubagentEntry>, known: set<string>)
    requires forall e :: e in entries ==> e.agentId in known
    ensures var m := NamedParents(entries, known);
      forall k :: k in m ==> k in known && m[k] in known
  {
    if entries != [] {
      NamedParentsAreKnown(entries[..|entries| - 1], known);
    }
  }

  /** The rendered links form a forest: from any id following kept parents ends within the batch size. */
  ghost function KeptAncestor(parentOf: map<string, string>, id: string, n: nat): Option<string> {
    if n == 0 then Some(id)
    else
      var below := KeptAncestor(parentOf, id, n - 1);
      if below.Some? then KeptParent(parentOf, below.value) else None
  }

  lemma {:induction false} KeptChainIsNamedChain(parentOf: map<string, string>, id: string, n: nat)
    ensures KeptAncestor(parentOf, id, n).Some? ==> KeptAncestor(parentOf, id, n) == Ancestor(parentOf, id, n)
    ensures n >= 1 && KeptAncestor(parentOf, id, n).Some? ==> ReachesRoot(parentOf, id)
  {
    if n > 0 {
      KeptChainIsNamedChain(parentOf, id, n - 1);
    }
  }

  lemma KeptParentsFormAForest(entries: seq<SubagentEntry>, id: string)
    requires id in KnownIds(entries)
    ensures KeptAncestor(NamedParents(entries, KnownIds(entries)), id, |KnownIds(entries)|).None?
  {
    var ids := KnownIds(entries);
    var parentOf := NamedParents(entries, ids);
    NamedParentsAreKnown(entries, ids);
    KeptChainIsNamedChain(parentOf, id, |ids|);
    RootOrCycle(parentOf, ids, id);
    assert |ids| == |ids - {id}| + 1;
  }

  /** A named in-batch parent is kept exactly when its chain does not run into a cycle. */
  lemma ParentIsKeptExactlyOffCycles(entries: seq<SubagentEntry>, id: string)
    requires id in KnownIds(entries)
    ensures var parentOf := NamedParents(entries, KnownIds(entries));
      KeptParent(parentOf, id) == if id in parentOf && !RunsIntoCycle(parentOf, id) then Some(parentOf[id]) else None
  {
    NamedParentsAreKnown(entries, KnownIds(entries));
    RootOrCycle(NamedParents(entries, KnownIds(entries)), KnownIds(entries), id);
  }

  /** With distinct ids each entry speaks for itself, so the enumeration order does not matter. */
  lemma {:induction false} NamedParentsOfDistinct(entries: seq<SubagentEntry>, known: set<string>, id: string)
    requires DistinctIds(entries)
    ensures var m := NamedParents(entries, known);
      && (id in m <==> exists e :: e in entries && e.agentId == id && NamedParent(e, known).Some?)
      && (id in m ==> exists e :: e in entries && e.agentId == id && NamedParent(e, known) == Some(m[id]))
  {
    if entries != [] {
      var n := |entries| - 1;
      var last := entries[n];
      NamedParentsOfDistinct(entries[..n], known, id);
      assert entries == entries[..n] + [last];
      assert forall e :: e in entries <==> e in entries[..n] || e == last;
      assert last in entries;
    }
  }

  lemma ListingOrderIsIrrelevant(clock: Clock, a: seq<SubagentEntry>, b: seq<SubagentEntry>)
    requires DistinctIds(a) && DistinctIds(b) && multiset(a) == multiset(b)
    ensures DerivedAgents(clock, a) == DerivedAgents(clock, b)
    ensures multiset(Sort(a)) == multiset(a) && Sorted(Sort(a))
  {
    forall e ensures e in a <==> e in b {
      assert e in multiset(a) <==> e in multiset(b);
    }
    assert KnownIds(a) == KnownIds(b);
    var known := KnownIds(a);
    var ma, mb := NamedParents(a, known), NamedParents(b, known);
    forall id ensures id in ma <==> id in mb
      ensures id in ma ==> ma[id] == mb[id]
    {
      NamedParentsOfDistinct(a, known, id);
      NamedParentsOfDistinct(b, known, id);
      if id in ma && id in mb {
        var x :| x in a && x.agentId == id && NamedParent(x, known) == Some(ma[id]);
        var y :| y in b && y.agentId == id && NamedParent(y, known) == Some(mb[id]);
        SameIdSameEntry(a, x, y);
      }
    }
    assert ma == mb;
    SortIsSorted(a);
    SortIsSorted(b);
    SortKeepsDistinctIds(a);
    SortedOrderIsUnique(Sort(a), Sort(b));
  }

  lemma SameIdSameEntry(s: seq<SubagentEntry>, x: SubagentEntry, y: SubagentEntry)
    requires DistinctIds(s) && x in s && y in s && x.agentId == y.agentId
    ensures x == y
  {
    var i :| 0 <= i < |s| && s[i] == x;
    var j :| 0 <= j < |s| && s[j] == y;
    if i < j {
      assert s[i].agentId != s[j].agentId;
    }
  }

  lemma {:induction false} SortKeepsDistinctIds(s: seq<SubagentEntry>)
    requires DistinctIds(s)
    ensures DistinctIds(Sort(s))
  {
    if s != [] {
      SortKeepsDistinctIds(s[1..]);
      forall e | e in Sort(s[1..]) ensures e.agentId != s[0].agentId {
        assert e in multiset(Sort(s[1..]));
        assert e in s[1..];
      }
      InsertKeepsDistinctIds(s[0], Sort(s[1..]));
    }
  }

  lemma {:induction false} InsertKeepsDistinctIds(e: SubagentEntry, s: seq<SubagentEntry>)
    requires DistinctIds(s) && forall x :: x in s ==> x.agentId != e.agentId
    ensures DistinctIds(Insert(e, s))
  {
    if s != [] && CompareEntries(e, s[0]) > 0 {
      InsertKeepsDistinctIds(e, s[1..]);
      var r := Insert(e, s[1..]);
      forall x | x in r ensures x.agentId != s[0].agentId {
        assert x in multiset(r);
        assert x == e || x in s[1..];
      }
    }
  }

  /** Who an agent says started it, if that is a sidecar of the same batch. */
  ghost predicate Names(entries: seq<SubagentEntry>, e: SubagentEntry, parent: string) {
    && e.meta.Some? && e.meta.value.parentAgentId == Some(parent) && parent != ""
    && exists p :: p in entries && p.agentId == parent
  }

  /** From `id`, the named parents run in a circle. */
  ghost predicate RunsInACircle(entries: seq<SubagentEntry>, id: string) {
    exists chain: seq<string>, i, j :: IsChain(entries, chain) && chain[0] == id && 0 <= i < j < |chain| && chain[i] == chain[j]
  }

  ghost predicate IsChain(entries: seq<SubagentEntry>, chain: seq<string>) {
    && chain != []
    && forall k :: 0 <= k < |chain| - 1 ==> IsLink(entries, chain[k], chain[k + 1])
  }

  lemma NamesIs(entries: seq<SubagentEntry>, e: SubagentEntry, parent: string)
    ensures NamedParent(e, KnownIds(entries)) == Some(parent) <==> Names(entries, e, parent)
  {
    if Names(entries, e, parent) {
      var p :| p in entries && p.agentId == parent;
      assert p.agentId in KnownIds(entries);
    }
  }

  /** With distinct ids the map holds what each entry itself names. */
  lemma NamedByItself(entries: seq<SubagentEntry>, e: SubagentEntry)
    requires DistinctIds(entries) && e in entries
    ensures var m := NamedParents(entries, KnownIds(entries));
      NamedParent(e, KnownIds(entries)) == if e.agentId in m then Some(m[e.agentId]) else None
  {
    hide NamedParent, NamedParents;
    var known := KnownIds(entries);
    NamedParentsOfDistinct(entries, known, e.agentId);
    forall x | x in entries && x.agentId == e.agentId ensures x == e {
      SameIdSameEntry(entries, x, e);
    }
  }

  /** A link of a chain, and the map's. */
  ghost predicate IsLink(entries: seq<SubagentEntry>, id: string, parent: string) {
    exists e :: e in entries && e.agentId == id && Names(entries, e, parent)
  }

  lemma LinkIs(entries: seq<SubagentEntry>, id: string, parent: string)
    requires DistinctIds(entries)
    ensures var m := NamedParents(entries, KnownIds(entries));
      IsLink(entries, id, parent) <==> id in m && m[id] == parent
  {
    hide Names, NamedParents, NamedParent;
    var m := NamedParents(entries, KnownIds(entries));
    if IsLink(entries, id, parent) {
      var e :| e in entries && e.agentId == id && Names(entries, e, parent);
      NamedByItself(entries, e);
      NamesIs(entries, e, parent);
    }
    if id in m && m[id] == parent {
      NamedParentsOfDistinct(entries, KnownIds(entries), id);
      var e :| e in entries && e.agentId == id && NamedParent(e, KnownIds(entries)) == Some(parent);
      NamesIs(entries, e, parent);
    }
  }

  lemma {:induction false} ChainIsAncestry(entries: seq<SubagentEntry>, chain: seq<string>, k: nat)
    requires DistinctIds(entries) && IsChain(entries, chain) && k < |chain|
    ensures Ancestor(NamedParents(entries, KnownIds(entries)), chain[0], k) == Some(chain[k])
  {
    if k > 0 {
      hide IsLink, NamedParents, DistinctIds;
      ChainIsAncestry(entries, chain, k - 1);
      assert IsLink(entries, chain[k - 1], chain[k - 1 + 1]);
      LinkIs(entries, chain[k - 1], chain[k]);
    }
  }

  lemma {:induction false} AncestryIsAChain(entries: seq<SubagentEntry>, id: string, n: nat) returns (chain: seq<string>)
    requires DistinctIds(entries) && Ancestor(NamedParents(entries, KnownIds(entries)), id, n).Some?
    ensures IsChain(entries, chain) && |chain| == n + 1 && chain[0] == id
    ensures forall k :: 0 <= k <= n ==> Ancestor(NamedParents(entries, KnownIds(entries)), id, k) == Some(chain[k])
  {
    hide IsLink, NamedParents, DistinctIds;
    var m := NamedParents(entries, KnownIds(entries));
    if n == 0 {
      chain := [id];
    } else {
      var before := AncestryIsAChain(entries, id, n - 1);
      var last := m[before[n - 1]];
      LinkIs(entries, before[n - 1], last);
      ChainGrows(entries, before, last);
      chain := before + [last];
    }
  }

  lemma ChainGrows(entries: seq<SubagentEntry>, chain: seq<string>, last: string)
    requires IsChain(entries, chain) && IsLink(entries, chain[|chain| - 1], last)
    ensures IsChain(entries, chain + [last])
  {
    hide IsLink;
    var longer := chain + [last];
    forall k | 0 <= k < |longer| - 1 ensures IsLink(entries, longer[k], longer[k + 1]) {
      assert k < |chain| - 1 ==> IsLink(entries, chain[k], chain[k + 1]);
    }
  }

  lemma CirclesAreCycles(entries: seq<SubagentEntry>, id: string)
    requires DistinctIds(entries)
    ensures RunsInACircle(entries, id) <==> RunsIntoCycle(NamedParents(entries, KnownIds(entries)), id)
  {
    hide IsLink, NamedParents;
    var m := NamedParents(entries, KnownIds(entries));
    if RunsInACircle(entries, id) {
      var chain, i, j :| IsChain(entries, chain) && chain[0] == id && 0 <= i < j < |chain| && chain[i] == chain[j];
      ChainIsAncestry(entries, chain, i);
      ChainIsAncestry(entries, chain, j);
    }
    if RunsIntoCycle(m, id) {
      var i: nat, j: nat :| i < j && Ancestor(m, id, i).Some? && Ancestor(m, id, i) == Ancestor(m, id, j);
      var chain := AncestryIsAChain(entries, id, j);
      assert chain[i] == chain[j];
    }
  }

  /** What is listed for an entry: the entry's own facts; the parent it names, when that is of the batch and naming does
      not run in a circle from here; depth 1 and a title made of the id where the sidecar says nothing. */
  ghost predicate IsListedAs(clock: Clock, entries: seq<SubagentEntry>, e: SubagentEntry, a: Agent) {
    && a.id == e.agentId && a.sizeBytes == e.sizeBytes && a.mtimeIso == e.mtimeIso && a.birthtimeIso == e.birthtimeIso
    && (a.live <==> e.mtimeIso.Some? && (Grew(e) || WithinWindow(clock, e.mtimeIso.value)))
    && (forall p :: a.parentId == Some(p) <==> Names(entries, e, p) && !RunsInACircle(entries, e.agentId))
    && (match e.meta
        case None => a.depth == 1 && a.agentType == None && a.title == "agent " + e.agentId && a.toolUseId == None && a.model == None
        case Some(m) =>
          && a.depth == (if m.spawnDepth.Some? then m.spawnDepth.value else 1)
          && a.title == (if m.description.Some? then m.description.value else "agent " + e.agentId)
          && a.agentType == m.agentType && a.toolUseId == m.toolUseId && a.model == m.model)
  }

  /** Earlier born, or born at the same time with the smaller id; an unknown time counts as earliest. */
  predicate ComesBefore(a: Agent, b: Agent) {
    var x := if a.birthtimeIso.Some? then a.birthtimeIso.value else "";
    var y := if b.birthtimeIso.Some? then b.birthtimeIso.value else "";
    LexLess(x, y) || (x == y && LexLess(a.id, b.id))
  }

  /** Every entry is listed once as it should be, and the list is in birth order. */
  lemma EveryEntryIsListed(clock: Clock, entries: seq<SubagentEntry>)
    requires DistinctIds(entries)
    ensures var agents := DerivedAgents(clock, entries);
      && |agents| == |entries|
      && (forall e :: e in entries ==> exists i :: 0 <= i < |agents| && IsListedAs(clock, entries, e, agents[i]))
      && (forall i, j :: 0 <= i < j < |agents| ==> ComesBefore(agents[i], agents[j]))
  {
    hide IsListedAs, AgentOf, ComesBefore, Sorted;
    var sorted, agents := Sort(entries), DerivedAgents(clock, entries);
    assert |multiset(sorted)| == |sorted| && |multiset(entries)| == |entries|;
    forall e | e in entries ensures exists i :: 0 <= i < |agents| && IsListedAs(clock, entries, e, agents[i]) {
      assert e in multiset(sorted);
      var i :| 0 <= i < |sorted| && sorted[i] == e;
      ListedAsItShould(clock, entries, e);
      assert agents[i] == AgentOf(clock, NamedParents(entries, KnownIds(entries)), e);
    }
    SortIsSorted(entries);
    SortKeepsDistinctIds(entries);
    forall i, j | 0 <= i < j < |agents| ensures ComesBefore(agents[i], agents[j]) {
      SortedComesBefore(clock, NamedParents(entries, KnownIds(entries)), sorted, i, j);
    }
  }

  lemma SortedComesBefore(clock: Clock, parentOf: map<string, string>, s: seq<SubagentEntry>, i: nat, j: nat)
    requires Sorted(s) && DistinctIds(s) && i < j < |s|
    ensures ComesBefore(AgentOf(clock, parentOf, s[i]), AgentOf(clock, parentOf, s[j]))
  {
    LexTotal(BirthKey(s[i]), BirthKey(s[j]));
    LexTotal(s[i].agentId, s[j].agentId);
    assert CompareEntries(s[i], s[j]) <= 0 && s[i].agentId != s[j].agentId;
    hide LexLess;
  }

  lemma ListedAsItShould(clock: Clock, entries: seq<SubagentEntry>, e: SubagentEntry)
    requires DistinctIds(entries) && e in entries
    ensures IsListedAs(clock, entries, e, AgentOf(clock, NamedParents(entries, KnownIds(entries)), e))
  {
    hide NamedParents, NamedParent, Names, RunsInACircle, RunsIntoCycle, ReachesRoot;
    var m := NamedParents(entries, KnownIds(entries));
    NamedByItself(entries, e);
    CirclesAreCycles(entries, e.agentId);
    assert e.agentId in KnownIds(entries);
    ParentIsKeptExactlyOffCycles(entries, e.agentId);
    forall p ensures NamedParent(e, KnownIds(entries)) == Some(p) <==> Names(entries, e, p) {
      NamesIs(entries, e, p);
    }
    hide KeptParent;
  }
}
