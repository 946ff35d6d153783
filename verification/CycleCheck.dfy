/** The load-time refusal of a cyclic `dependsOn` graph (runner/core/state.ts). */
module DependencyGraph {

  /** Card id to its declared `dependsOn` list; an absent list is the empty one. */
  type Graph = map<string, seq<string>>

  function DependsOn(g: Graph, id: string): seq<string> {
    if id in g then g[id] else []
  }

  predicate Edge(g: Graph, from: string, to: string) {
    to in DependsOn(g, from)
  }

  ghost predicate IsWalk(g: Graph, w: seq<string>) {
    |w| >= 1 && forall i :: 0 <= i < |w| - 1 ==> Edge(g, w[i], w[i + 1])
  }

  ghost predicate IsCycle(g: Graph, w: seq<string>) {
    |w| >= 2 && IsWalk(g, w) && w[0] == w[|w| - 1]
  }

  ghost predicate Cyclic(g: Graph) {
    exists w :: IsCycle(g, w)
  }

  /** Every edge goes strictly down in `rank`. */
  ghost predicate Ranks(g: Graph, rank: map<string, nat>) {
    forall a, b :: Edge(g, a, b) ==> a in rank && b in rank && rank[b] < rank[a]
  }

  lemma {:induction false} WalkGoesDown(g: Graph, rank: map<string, nat>, w: seq<string>, i: nat)
    requires Ranks(g, rank) && IsWalk(g, w) && 1 <= i < |w|
    ensures w[0] in rank && w[i] in rank && rank[w[i]] < rank[w[0]]
  {
    assert Edge(g, w[i - 1], w[i]);
    if i > 1 {
      WalkGoesDown(g, rank, w, i - 1);
    }
  }

  lemma RankedGraphsAreAcyclic(g: Graph, rank: map<string, nat>)
    requires Ranks(g, rank)
    ensures !Cyclic(g)
  {
    forall w | IsCycle(g, w) ensures false {
      WalkGoesDown(g, rank, w, |w| - 1);
    }
  }

  /** Everything a walk from a key can visit: the keys and what they name. */
  ghost function Universe(g: Graph): set<string> {
    g.Keys + set a, b | a in g && b in g[a] :: b
  }
}

module CycleCheck {
  import opened Collections
  import opened DependencyGraph

  datatype Verdict = Acyclic | CircularDependency(path: seq<string>)

  function IndexOf(s: seq<string>, x: string): (i: nat)
    requires x in s
    ensures i < |s| && s[i] == x
  {
    if s[0] == x then 0 else 1 + IndexOf(s[1..], x)
  }

  /** The state the recursive `visit` closes over. */
  class Search {
    const graph: Graph
    var visited: set<string>
    var onStack: set<string>
    var path: seq<string>
    /** Ids whose visit has returned, in the order they returned. */
    ghost var finished: seq<string>

    ghost predicate Valid()
      reads this
    {
      Consistent(graph, visited, onStack, path, finished)
    }

    constructor (g: Graph)
      ensures Valid() && graph == g && path == [] && finished == []
    {
      graph := g;
      visited, onStack, path, finished := {}, {}, [], [];
      new;
      assert Topological(g, []);
    }

    /** Throws exactly a cycle; a normal return leaves the stack as it was and the card finished. */
    method Visit(cardId: string) returns (verdict: Verdict)
      requires Valid() && cardId in Universe(graph)
      requires path != [] ==> Edge(graph, path[|path| - 1], cardId)
      modifies this
      ensures verdict.CircularDependency? ==> IsCycle(graph, verdict.path)
      ensures verdict.Acyclic? ==> Valid() && path == old(path) && cardId in finished
      ensures verdict.Acyclic? ==> old(finished) <= finished && old(visited) <= visited
      decreases Universe(graph) - visited
    {
      if cardId in onStack {
        var cycleStart := IndexOf(path, cardId);
        RepeatOnStackIsCycle(graph, path, cardId);
        return CircularDependency(path[cycleStart..] + [cardId]);
      }
      if cardId in visited {
        return Acyclic;
      }
      PushKeepsConsistent(graph, visited, onStack, path, finished, cardId);
      visited := visited + {cardId};
      onStack := onStack + {cardId};
      path := path + [cardId];
      var dependencies := DependsOn(graph, cardId);
      for i := 0 to |dependencies|
        invariant Valid() && path == old(path) + [cardId]
        invariant old(finished) <= finished && old(visited) + {cardId} <= visited
        invariant forall k :: 0 <= k < i ==> dependencies[k] in finished
      {
        DependencyIsInUniverse(graph, cardId, dependencies[i]);
        var inner := Visit(dependencies[i]);
        if inner.CircularDependency? {
          return inner;
        }
      }
      PopKeepsConsistent(graph, visited, onStack, old(path), finished, cardId);
      path := path[..|path| - 1];
      onStack := onStack - {cardId};
      finished := finished + [cardId];
      return Acyclic;
    }
  }

  /** What holds between two statements of the search: `path` is the stack, a repetition-free walk,
      and the finished ids are in dependency order. */
  ghost predicate Consistent(g: Graph, visited: set<string>, onStack: set<string>, path: seq<string>, finished: seq<string>)
  {
    && onStack == (set id | id in path)
    && visited == (set id | id in path) + (set id | id in finished)
    && (path != [] ==> IsWalk(g, path))
    && NoDuplicates(path)
    && (forall id :: id in finished ==> id !in path)
    && visited <= Universe(g)
    && Topological(g, finished)
  }

  lemma DependencyIsInUniverse(g: Graph, a: string, b: string)
    requires Edge(g, a, b)
    ensures b in Universe(g)
  {
    assert a in g && b in g[a];
  }

  lemma RepeatOnStackIsCycle(g: Graph, path: seq<string>, cardId: string)
    requires cardId in path && IsWalk(g, path) && Edge(g, path[|path| - 1], cardId)
    ensures IsCycle(g, path[IndexOf(path, cardId)..] + [cardId])
  {
    var k := IndexOf(path, cardId);
    var w := path[k..] + [cardId];
    forall i | 0 <= i < |w| - 1 ensures Edge(g, w[i], w[i + 1]) {
      assert w[i] == path[k + i];
      assert Edge(g, path[k + i], if k + i + 1 < |path| then path[k + i + 1] else cardId);
    }
  }

  lemma PushKeepsConsistent(g: Graph, visited: set<string>, onStack: set<string>, path: seq<string>, finished: seq<string>,
                            cardId: string)
    requires Consistent(g, visited, onStack, path, finished)
    requires cardId !in visited && cardId in Universe(g)
    requires path != [] ==> Edge(g, path[|path| - 1], cardId)
    ensures Consistent(g, visited + {cardId}, onStack + {cardId}, path + [cardId], finished)
  {
    var w := path + [cardId];
    assert (set id | id in w) == (set id | id in path) + {cardId};
    forall i | 0 <= i < |w| - 1 ensures Edge(g, w[i], w[i + 1]) {
      if i + 1 < |path| {
        assert Edge(g, path[i], path[i + 1]);
      }
    }
    forall i, j | 0 <= i < j < |w| ensures w[i] != w[j] {
      if j == |path| {
        assert path[i] in path;
      }
    }
  }

  lemma PopKeepsConsistent(g: Graph, visited: set<string>, onStack: set<string>, path: seq<string>, finished: seq<string>,
                           cardId: string)
    requires Consistent(g, visited, onStack, path + [cardId], finished)
    requires forall b :: Edge(g, cardId, b) ==> b in finished
    ensures (path + [cardId])[..|path|] == path
    ensures Consistent(g, visited, onStack - {cardId}, path, finished + [cardId])
  {
    var w := path + [cardId];
    TopologicalAppend(g, finished, cardId);
    forall i | 0 <= i < |path| - 1 ensures Edge(g, path[i], path[i + 1]) {
      assert Edge(g, w[i], w[i + 1]);
    }
    forall i, j | 0 <= i < j < |path| ensures path[i] != path[j] {
      assert w[i] != w[j];
    }
    forall id | id in path ensures id != cardId {
      var i :| 0 <= i < |path| && path[i] == id;
      assert w[i] != w[|path|];
    }
    assert cardId in w;
    assert forall id :: id in w <==> id in path || id == cardId;
    assert (set id | id in w) == (set id | id in path) + {cardId};
    assert (set id | id in finished + [cardId]) == (set id | id in finished) + {cardId};
  }

  /** Every dependency of a listed id is listed earlier. */
  ghost predicate Topological(g: Graph, s: seq<string>) {
    forall i, b :: 0 <= i < |s| && Edge(g, s[i], b) ==> b in s[..i]
  }

  lemma TopologicalAppend(g: Graph, s: seq<string>, last: string)
    requires Topological(g, s) && forall b :: Edge(g, last, b) ==> b in s
    ensures Topological(g, s + [last])
  {
    forall i, b | 0 <= i < |s + [last]| && Edge(g, (s + [last])[i], b)
      ensures b in (s + [last])[..i]
    {
      if i == |s| {
        assert (s + [last])[..i] == s;
      } else {
        assert (s + [last])[..i] == s[..i];
      }
    }
  }

  /** The first position of an id in a finishing order is a rank. */
  ghost function RankOf(s: seq<string>): map<string, nat> {
    map id | id in s :: IndexOf(s, id)
  }

  lemma {:induction false} IndexOfIsFirst(s: seq<string>, x: string, k: nat)
    requires k < |s| && s[k] == x
    ensures IndexOf(s, x) <= k
  {
    if s[0] != x {
      assert s[1..][k - 1] == x;
      IndexOfIsFirst(s[1..], x, k - 1);
    }
  }

  lemma TopologicalOrderRanks(g: Graph, s: seq<string>)
    requires Topological(g, s) && forall id :: id in g ==> id in s
    ensures Ranks(g, RankOf(s))
  {
    forall a, b | Edge(g, a, b)
      ensures a in RankOf(s) && b in RankOf(s) && RankOf(s)[b] < RankOf(s)[a]
    {
      var i := IndexOf(s, a);
      assert b in s[..i];
      var k :| 0 <= k < i && s[..i][k] == b;
      IndexOfIsFirst(s, b, k);
    }
  }

  /** `cardIds` is `Object.keys(state.cards)`, in whatever order. The check refuses exactly the
      cyclic graphs, the path it reports is a real cycle, and acceptance yields a rank. */
  method AssertNoDependsOnCycles(g: Graph, cardIds: seq<string>)
    returns (verdict: Verdict, ghost rank: map<string, nat>)
    requires forall id :: id in cardIds <==> id in g
    ensures verdict.CircularDependency? <==> Cyclic(g)
    ensures verdict.CircularDependency? ==> IsCycle(g, verdict.path)
    ensures verdict.Acyclic? ==> Ranks(g, rank)
  {
    rank := map[];
    var search := new Search(g);
    for i := 0 to |cardIds|
      invariant search.Valid() && search.path == [] && search.graph == g
      invariant forall k :: 0 <= k < i ==> cardIds[k] in search.finished
    {
      var inner := search.Visit(cardIds[i]);
      if inner.CircularDependency? {
        return inner, rank;
      }
    }
    TopologicalOrderRanks(g, search.finished);
    rank := RankOf(search.finished);
    RankedGraphsAreAcyclic(g, rank);
    return Acyclic, rank;
  }
}

/** Why an acyclic graph cannot deadlock: a set in which every member points back into the set
    holds a cycle. */
module Deadlock {
  import opened Collections
  import opened DependencyGraph

  lemma {:induction false} DuplicateFreeFits(path: seq<string>, trap: set<string>)
    requires NoDuplicates(path) && forall id :: id in path ==> id in trap
    ensures |path| <= |trap|
  {
    if path != [] {
      var last := path[|path| - 1];
      DuplicateFreeFits(path[..|path| - 1], trap - {last});
    }
  }

  ghost predicate PointsInto(g: Graph, a: string, trap: set<string>) {
    exists b :: b in trap && Edge(g, a, b)
  }

  ghost predicate Trapped(g: Graph, trap: set<string>) {
    forall a {:trigger PointsInto(g, a, trap)} :: a in trap ==> PointsInto(g, a, trap)
  }

  lemma WalkStep(g: Graph, path: seq<string>, next: string)
    requires IsWalk(g, path) && Edge(g, path[|path| - 1], next)
    ensures IsWalk(g, path + [next])
  {
    var longer := path + [next];
    forall i | 0 <= i < |longer| - 1 ensures Edge(g, longer[i], longer[i + 1]) {
      if i + 1 < |path| {
        assert Edge(g, path[i], path[i + 1]);
      }
    }
  }

  lemma WalkClosesCycle(g: Graph, path: seq<string>, next: string)
    requires IsWalk(g, path + [next]) && next in path
    ensures Cyclic(g)
  {
    var longer := path + [next];
    var k :| 0 <= k < |path| && path[k] == next;
    var w := longer[k..];
    forall i | 0 <= i < |w| - 1 ensures Edge(g, w[i], w[i + 1]) {
      assert Edge(g, longer[k + i], longer[k + i + 1]);
    }
    assert IsCycle(g, w);
  }

  lemma {:induction false} TrapHasCycleFrom(g: Graph, trap: set<string>, path: seq<string>)
    requires path != [] && IsWalk(g, path) && NoDuplicates(path) && forall id :: id in path ==> id in trap
    requires Trapped(g, trap)
    ensures Cyclic(g)
    decreases |trap| - |path|
  {
    DuplicateFreeFits(path, trap);
    var last := path[|path| - 1];
    assert last in path && PointsInto(g, last, trap);
    var next :| next in trap && Edge(g, last, next);
    WalkStep(g, path, next);
    if next in path {
      WalkClosesCycle(g, path, next);
    } else {
      DuplicateFreeFits(path + [next], trap);
      TrapHasCycleFrom(g, trap, path + [next]);
    }
  }

  lemma TrapHasCycle(g: Graph, trap: set<string>)
    requires trap != {} && Trapped(g, trap)
    ensures Cyclic(g)
  {
    var start :| start in trap;
    assert IsWalk(g, [start]);
    TrapHasCycleFrom(g, trap, [start]);
  }
}
